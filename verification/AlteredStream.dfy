/** The output stream that flips one bit of a TLS transcript before it is signed. */
module AlteredStream {
  import opened Wrappers
  import opened Sequences

  type Int32 = x: int | -0x8000_0000 <= x <= 0x7FFF_FFFF

  /** The low eight bits, which an output stream writes of an integer. */
  function LowByte(value: bv32): bv8 { (value & 0xFF) as bv8 }

  /** The low byte is the value modulo 256. */
  lemma LowByteExact(value: bv32)
    ensures LowByte(value) as bv32 == value % 256
  {
  }

  /** The bytes with bit 0 of the first one flipped. */
  function FlipFirst(bytes: seq<bv8>): (flipped: seq<bv8>)
    ensures |flipped| == |bytes|
    ensures forall i | 1 <= i < |bytes| :: flipped[i] == bytes[i]
  {
    if bytes == [] then [] else [bytes[0] ^ 1] + bytes[1..]
  }

  lemma FlipIsItsOwnInverse(bytes: seq<bv8>)
    ensures FlipFirst(FlipFirst(bytes)) == bytes
    ensures bytes != [] ==> FlipFirst(bytes)[0] != bytes[0]
  {
    if bytes != [] { assert (bytes[0] ^ 1) ^ 1 == bytes[0] && bytes[0] ^ 1 != bytes[0]; }
  }

  lemma FlipFirstOnly(a: seq<bv8>, b: seq<bv8>)
    ensures FlipFirst(a + b) == if a == [] then FlipFirst(b) else FlipFirst(a) + b
  {
    if a == [] {
      assert a + b == b;
    } else {
      assert (a + b)[1..] == a[1..] + b;
    }
  }

  lemma FlipInPlace(bytes: seq<bv8>)
    requires bytes != []
    ensures bytes[0 := bytes[0] ^ 1] == FlipFirst(bytes)
  {
  }

  lemma FirstIsSent(base: seq<bv8>, copy: seq<bv8>, changed: seq<bv8>)
    requires changed == FlipFirst(copy)
    ensures base + FlipFirst([]) + changed == base + FlipFirst([] + copy)
  {
    assert FlipFirst([]) == [] && base + [] == base;
    assert [] + copy == copy;
  }

  lemma SentAfterFirst(base: seq<bv8>, offered: seq<bv8>, more: seq<bv8>)
    requires offered != []
    ensures base + FlipFirst(offered) + more == base + FlipFirst(offered + more)
    ensures offered + more != []
  {
    FlipFirstOnly(offered, more);
    Associate(base, FlipFirst(offered), more);
  }

  lemma NothingSent(base: seq<bv8>, offered: seq<bv8>, more: seq<bv8>)
    requires more == []
    ensures base + FlipFirst(offered) + more == base + FlipFirst(offered + more)
    ensures offered + more == offered
  {
    assert offered + more == offered;
  }

  lemma FlippedLowByte(value: bv32)
    ensures LowByte(value ^ 1) == LowByte(value) ^ 1
  {
  }

  function Zeros(count: nat): seq<bv8> { seq(count, i => 0) }

  /** Java's Arrays.copyOfRange: pads with zeros past the end, and throws for a bad start or an overflowed end. */
  function CopyOfRange(bytes: seq<bv8>, offset: Int32, length: Int32): (copy: Option<seq<bv8>>)
    requires length > 0
    ensures copy.Some? ==> |copy.value| == length
  {
    if offset < 0 || offset > |bytes| || offset + length > 0x7FFF_FFFF then None
    else if offset + length <= |bytes| then Some(bytes[offset..offset + length])
    else Some(bytes[offset..] + Zeros(offset + length - |bytes|))
  }

  /** The slice, if it lies within the array, as every output stream requires. */
  function SliceOf(bytes: seq<bv8>, offset: Int32, length: Int32): Option<seq<bv8>> {
    if 0 <= offset && 0 <= length && offset + length <= |bytes| then Some(bytes[offset..offset + length]) else None
  }

  /** What a slice write offers: the first one that is not empty is copied, later ones are passed on. */
  function SliceOffer(altered: bool, bytes: seq<bv8>, offset: Int32, length: Int32): Option<seq<bv8>> {
    if length > 0 && !altered then CopyOfRange(bytes, offset, length) else SliceOf(bytes, offset, length)
  }

  /** The stream underneath: it keeps what it receives. */
  class Sink {
    var received: seq<bv8>

    constructor ()
      ensures received == []
    {
      received := [];
    }

    method WriteInt(value: bv32)
      modifies this
      ensures received == old(received) + [LowByte(value)]
    {
      received := received + [LowByte(value)];
    }

    method WriteAll(bytes: seq<bv8>)
      modifies this
      ensures received == old(received) + bytes
    {
      received := received + bytes;
    }

    /** Writes the slice; false stands for the exception thrown when it is out of range. */
    method WriteSlice(bytes: array<bv8>, offset: Int32, length: Int32) returns (ok: bool)
      modifies this
      ensures ok <==> SliceOf(bytes[..], offset, length).Some?
      ensures received == old(received) + if ok then SliceOf(bytes[..], offset, length).value else []
    {
      if offset < 0 || length < 0 || offset + length > bytes.Length { return false; }
      received := received + bytes[offset..offset + length];
      assert bytes[..][offset..offset + length] == bytes[offset..offset + length];
      ok := true;
    }
  }

  class AlteringStream {
    const sink: Sink
    var altered: bool
    ghost const base: seq<bv8>      // what the sink had received before
    ghost var writes: seq<Write>    // all calls since, refused ones included
    ghost var offered: seq<bv8>     // all bytes they offered

    /** The sink received the offered bytes with one bit flipped, and the flag says whether there were any. */
    ghost predicate IsSent()
      reads this, sink
    {
      sink.received == base + FlipFirst(offered) && (altered <==> offered != [])
    }

    ghost predicate Valid()
      reads this, sink
    {
      IsSent() && offered == AllOffered(false, writes)
    }

    constructor (sink: Sink)
      ensures Valid() && this.sink == sink && base == sink.received && writes == [] && !altered
    {
      this.sink := sink;
      altered := false;
      base := sink.received;
      writes := [];
      offered := [];
    }

    method Alter(value: bv32) returns (out: bv32)
      modifies this`altered
      ensures altered && out == if old(altered) then value else value ^ 1
    {
      if altered { return value; }
      altered := true;
      out := value ^ 1;
    }

    method WriteInt(value: bv32)
      requires Valid()
      modifies this`altered, this`writes, this`offered, sink
      ensures Valid()
      ensures writes == old(writes) + [Single(value)]
      ensures offered == old(offered) + [LowByte(value)]
    {
      OneMoreWrite(false, writes, Single(value));
      writes := writes + [Single(value)];
      SendInt(value);
    }

    method SendInt(value: bv32)
      requires IsSent()
      modifies this`altered, this`offered, sink
      ensures IsSent() && offered == old(offered) + [LowByte(value)]
    {
      FlippedLowByte(value);
      FlipFirstOnly(offered, [LowByte(value)]);
      offered := offered + [LowByte(value)];
      var out := Alter(value);
      sink.WriteInt(out);
    }

    ghost function Offer(bytes: array<bv8>, offset: Int32, length: Int32): Option<seq<bv8>>
      reads this`altered, bytes
    {
      SliceOffer(altered, bytes[..], offset, length)
    }

    method WriteSlice(bytes: array<bv8>, offset: Int32, length: Int32) returns (ok: bool)
      requires Valid()
      modifies this`altered, this`writes, this`offered, sink
      ensures Valid()
      ensures ok <==> old(Offer(bytes, offset, length)).Some?
      ensures writes == old(writes) + [Slice(bytes[..], offset, length)]
      ensures offered == old(offered) + if ok then old(Offer(bytes, offset, length)).value else []
    {
      OneMoreWrite(false, writes, Slice(bytes[..], offset, length));
      writes := writes + [Slice(bytes[..], offset, length)];
      assert bytes[..] == old(bytes[..]);
      if length > 0 && !altered {
        var copy := CopyOfRange(bytes[..], offset, length);
        if copy.None? { return false; }
        SendFirst(copy.value);
        ok := true;
      } else {
        ok := PassOn(bytes, offset, length);
      }
    }

    /** Sends the slice as it is: nothing is left to flip in it. */
    method PassOn(bytes: array<bv8>, offset: Int32, length: Int32) returns (ok: bool)
      requires IsSent() && (altered || length <= 0)
      modifies this`offered, sink
      ensures IsSent()
      ensures ok <==> SliceOf(bytes[..], offset, length).Some?
      ensures offered == old(offered) + if ok then SliceOf(bytes[..], offset, length).value else []
    {
      ghost var offer := SliceOf(bytes[..], offset, length);
      ok := sink.WriteSlice(bytes, offset, length);
      if ok {
        if altered { SentAfterFirst(base, offered, offer.value); } else { NothingSent(base, offered, offer.value); }
        offered := offered + offer.value;
      }
    }

    /** Flips a bit of the copy in place and sends it. */
    method SendFirst(copy: seq<bv8>)
      requires IsSent() && !altered && copy != []
      modifies this`altered, this`offered, sink
      ensures IsSent() && offered == old(offered) + copy
    {
      var changed := copy[0 := copy[0] ^ 1];
      FlipInPlace(copy);
      FirstIsSent(base, copy, changed);
      altered := true;
      offered := offered + copy;
      sink.WriteAll(changed);
    }
  }

  /** A copied range that starts within the array goes on with zeros past its end. */
  lemma CopyIsPadded(bytes: seq<bv8>, offset: Int32, length: Int32, i: nat)
    requires 0 <= offset <= |bytes| && i < length && offset + length <= 0x7FFF_FFFF
    ensures var copy := CopyOfRange(bytes, offset, length);
            copy.Some? && copy.value[i] == if offset + i < |bytes| then bytes[offset + i] else 0
  {
  }

  /** A slice within the array offers exactly itself, altered or not. */
  lemma SliceInRange(bytes: seq<bv8>, offset: Int32, length: Int32)
    requires 0 <= offset && 0 < length && offset + length <= |bytes| <= 0x7FFF_FFFF
    ensures CopyOfRange(bytes, offset, length) == SliceOf(bytes, offset, length) == Some(bytes[offset..offset + length])
  {
  }

  /**
   * The first write accepts a slice that runs past the array, where every later write refuses it, and pads it
   * with zeros.
   */
  lemma FirstWriteMayRunPast(bytes: seq<bv8>, offset: Int32, length: Int32)
    requires length > 0 && |bytes| <= 0x7FFF_FFFF
    ensures CopyOfRange(bytes, offset, length) != SliceOf(bytes, offset, length) <==>
            0 <= offset <= |bytes| < offset + length <= 0x7FFF_FFFF
  {
  }

  // ----- whole sequences of writes -----

  /** One call of a write method; an array holds at most 2^31 - 1 bytes. */
  datatype Write = Single(value: bv32) | Slice(bytes: seq<bv8>, offset: Int32, length: Int32)

  ghost predicate FitsArray(w: Write) { w.Slice? ==> |w.bytes| <= 0x7FFF_FFFF }

  /** The bytes a call offers, none when it is refused. */
  function Offered(altered: bool, w: Write): seq<bv8> {
    match w
    case Single(value) => [LowByte(value)]
    case Slice(bytes, offset, length) =>
      var offer := SliceOffer(altered, bytes, offset, length);
      if offer.Some? then offer.value else []
  }

  /** The bytes a call names: those of a slice within its array, and no others. */
  function Named(w: Write): seq<bv8> {
    match w
    case Single(value) => [LowByte(value)]
    case Slice(bytes, offset, length) =>
      var slice := SliceOf(bytes, offset, length);
      if slice.Some? then slice.value else []
  }

  /** All bytes offered by calls one after another; the first byte offered sets the flag. */
  function AllOffered(altered: bool, writes: seq<Write>): seq<bv8>
    decreases |writes|
  {
    if writes == [] then []
    else
      var first := Offered(altered, writes[0]);
      first + AllOffered(altered || first != [], writes[1..])
  }

  lemma {:induction false} OneMoreWrite(altered: bool, writes: seq<Write>, w: Write)
    ensures AllOffered(altered, writes + [w]) ==
            AllOffered(altered, writes) + Offered(altered || AllOffered(altered, writes) != [], w)
    decreases |writes|
  {
    if writes == [] {
      assert writes + [w] == [w] + [];
      FirstWrite(altered, w, []);
    } else {
      var first, rest := Offered(altered, writes[0]), writes[1..];
      var later := altered || first != [];
      calc {
        AllOffered(altered, writes + [w]);
        { assert writes + [w] == [writes[0]] + (rest + [w]); FirstWrite(altered, writes[0], rest + [w]); }
        first + AllOffered(later, rest + [w]);
        { OneMoreWrite(later, rest, w); }
        first + (AllOffered(later, rest) + Offered(later || AllOffered(later, rest) != [], w));
        { Associate(first, AllOffered(later, rest), Offered(later || AllOffered(later, rest) != [], w)); }
        first + AllOffered(later, rest) + Offered(later || AllOffered(later, rest) != [], w);
        { assert writes == [writes[0]] + rest; FirstWrite(altered, writes[0], rest); }
        AllOffered(altered, writes) + Offered(later || AllOffered(later, rest) != [], w);
      }
      assert AllOffered(altered, writes) == first + AllOffered(later, rest);
    }
  }

  lemma FirstWrite(altered: bool, w: Write, rest: seq<Write>)
    ensures AllOffered(altered, [w] + rest) ==
            Offered(altered, w) + AllOffered(altered || Offered(altered, w) != [], rest)
  {
    assert ([w] + rest)[1..] == rest;
  }

  function AllNamed(writes: seq<Write>): seq<bv8> {
    if writes == [] then [] else Named(writes[0]) + AllNamed(writes[1..])
  }

  /** The first call that offers anything names what it offers. */
  ghost predicate FirstOfferIsInRange(writes: seq<Write>) {
    forall k | 0 <= k < |writes| && writes[k].Slice? && Offered(false, writes[k]) != []
               && (forall i | 0 <= i < k :: Offered(false, writes[i]) == []) ::
      writes[k].offset + writes[k].length <= |writes[k].bytes|
  }

  lemma LaterOfferIsNamed(w: Write)
    ensures Offered(true, w) == Named(w)
  {
  }

  lemma {:induction false} LaterOffersAreNamed(writes: seq<Write>)
    ensures AllOffered(true, writes) == AllNamed(writes)
  {
    if writes != [] {
      LaterOfferIsNamed(writes[0]);
      LaterOffersAreNamed(writes[1..]);
    }
  }

  lemma FirstOfferExact(w: Write)
    requires FitsArray(w)
    ensures Offered(false, w) == [] ==> Named(w) == []
    ensures Offered(false, w) != [] && (w.Slice? ==> w.offset + w.length <= |w.bytes|) ==> Offered(false, w) == Named(w)
    ensures w.Slice? && Offered(false, w) != [] && w.offset + w.length > |w.bytes| ==> Named(w) == []
  {
  }

  lemma RangeOfRest(writes: seq<Write>)
    requires writes != [] && Offered(false, writes[0]) == []
    ensures FirstOfferIsInRange(writes) <==> FirstOfferIsInRange(writes[1..])
  {
    var rest := writes[1..];
    if FirstOfferIsInRange(rest) {
      forall k | 0 <= k < |writes| && writes[k].Slice? && Offered(false, writes[k]) != []
                 && (forall i | 0 <= i < k :: Offered(false, writes[i]) == [])
        ensures writes[k].offset + writes[k].length <= |writes[k].bytes|
      {
        forall i | 0 <= i < k - 1 ensures Offered(false, rest[i]) == [] { assert rest[i] == writes[i + 1]; }
        assert rest[k - 1] == writes[k];
      }
    }
    if FirstOfferIsInRange(writes) {
      forall k | 0 <= k < |rest| && rest[k].Slice? && Offered(false, rest[k]) != []
                 && (forall i | 0 <= i < k :: Offered(false, rest[i]) == [])
        ensures rest[k].offset + rest[k].length <= |rest[k].bytes|
      {
        forall i | 0 <= i < k + 1 ensures Offered(false, writes[i]) == [] {
          if i > 0 { assert writes[i] == rest[i - 1]; }
        }
        assert rest[k] == writes[k + 1];
      }
    }
  }

  lemma {:induction false} OfferedIsNamedExact(writes: seq<Write>)
    requires forall w | w in writes :: FitsArray(w)
    ensures AllOffered(false, writes) == AllNamed(writes) <==> FirstOfferIsInRange(writes)
    ensures FirstOfferIsInRange(writes) || |AllOffered(false, writes)| > |AllNamed(writes)|
  {
    if writes != [] {
      FirstOfferExact(writes[0]);
      if Offered(false, writes[0]) == [] {
        RangeOfRest(writes);
        OfferedIsNamedExact(writes[1..]);
      } else {
        LaterOffersAreNamed(writes[1..]);
      }
    }
  }

  /**
   * Over any sequence of writes the delegate gets the named bytes, one bit flipped, exactly if the first offer
   * is in range.
   */
  lemma TranscriptExact(writes: seq<Write>)
    requires forall w | w in writes :: FitsArray(w)
    ensures FlipFirst(AllOffered(false, writes)) == FlipFirst(AllNamed(writes)) <==> FirstOfferIsInRange(writes)
  {
    OfferedIsNamedExact(writes);
  }
}
