/** Certificate serial numbers as OCSP and CRL matching compare them. */
module Serial {

  type Byte = b: int | 0 <= b < 256

  /** The place of the first byte other than zero, or the length. */
  function FirstNonzero(serial: seq<Byte>): (k: nat)
    ensures k <= |serial|
    ensures forall i | 0 <= i < k :: serial[i] == 0
    ensures k < |serial| ==> serial[k] != 0
  {
    if serial == [] || serial[0] != 0 then 0 else 1 + FirstNonzero(serial[1..])
  }

  function NormalizedSerial(serial: seq<Byte>): seq<Byte> { serial[FirstNonzero(serial)..] }

  /** The unsigned big-endian integer the bytes denote. */
  ghost function Value(serial: seq<Byte>): nat {
    if serial == [] then 0 else Value(serial[..|serial| - 1]) * 256 + serial[|serial| - 1]
  }

  lemma {:induction false} LeadingZero(serial: seq<Byte>)
    ensures Value([0] + serial) == Value(serial)
  {
    var padded := [0] + serial;
    if serial == [] {
      assert padded[..0] == [];
    } else {
      LeadingZero(serial[..|serial| - 1]);
      assert padded[..|padded| - 1] == [0] + serial[..|serial| - 1];
    }
  }

  lemma {:induction false} NormalizingKeepsValue(serial: seq<Byte>)
    ensures Value(NormalizedSerial(serial)) == Value(serial)
  {
    if serial != [] && serial[0] == 0 {
      NormalizingKeepsValue(serial[1..]);
      LeadingZero(serial[1..]);
      assert serial == [0] + serial[1..];
      assert NormalizedSerial(serial) == NormalizedSerial(serial[1..]);
    }
  }

  ghost predicate IsCanonical(serial: seq<Byte>) { serial == [] || serial[0] != 0 }

  lemma {:induction false} CanonicalIsPositive(serial: seq<Byte>)
    requires IsCanonical(serial) && serial != []
    ensures Value(serial) > 0
  {
    if |serial| > 1 { CanonicalIsPositive(serial[..|serial| - 1]); }
  }

  lemma {:induction false} CanonicalIsUnique(a: seq<Byte>, b: seq<Byte>)
    requires IsCanonical(a) && IsCanonical(b) && Value(a) == Value(b)
    ensures a == b
  {
    if a == [] || b == [] {
      if a != [] { CanonicalIsPositive(a); }
      if b != [] { CanonicalIsPositive(b); }
    } else {
      var p, q := a[..|a| - 1], b[..|b| - 1];
      assert Value(p) == Value(a) / 256 == Value(b) / 256 == Value(q);
      CanonicalIsUnique(p, q);
      assert a == p + [a[|a| - 1]] && b == q + [b[|b| - 1]];
    }
  }

  /** Two serials match exactly when they denote the same number. */
  lemma SerialsMatchNumerically(a: seq<Byte>, b: seq<Byte>)
    ensures NormalizedSerial(a) == NormalizedSerial(b) <==> Value(a) == Value(b)
  {
    NormalizingKeepsValue(a);
    NormalizingKeepsValue(b);
    if Value(a) == Value(b) { CanonicalIsUnique(NormalizedSerial(a), NormalizedSerial(b)); }
  }

  function Zeros(count: nat): seq<Byte> { if count == 0 then [] else [0] + Zeros(count - 1) }

  lemma OneZeroIsIgnored(serial: seq<Byte>)
    ensures NormalizedSerial([0] + serial) == NormalizedSerial(serial)
  {
    assert ([0] + serial)[1..] == serial;
  }

  lemma OneMoreZero(serial: seq<Byte>, zeros: nat)
    ensures Zeros(zeros + 1) + serial == [0] + (Zeros(zeros) + serial)
  {
  }

  /** Zero bytes put in front never change what a serial matches. */
  lemma {:induction false} PaddingIsIgnored(serial: seq<Byte>, zeros: nat)
    ensures NormalizedSerial(Zeros(zeros) + serial) == NormalizedSerial(serial)
  {
    if zeros == 0 {
      assert Zeros(0) + serial == serial;
    } else {
      calc {
        NormalizedSerial(Zeros(zeros) + serial);
        { OneMoreZero(serial, zeros - 1); }
        NormalizedSerial([0] + (Zeros(zeros - 1) + serial));
        { OneZeroIsIgnored(Zeros(zeros - 1) + serial); }
        NormalizedSerial(Zeros(zeros - 1) + serial);
        { PaddingIsIgnored(serial, zeros - 1); }
        NormalizedSerial(serial);
      }
    }
  }
}
