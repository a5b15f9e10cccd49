/** The certificate bundle printer and the bundle parser that reads it back. */
module PemBundle {
  import opened Wrappers
  import opened Sequences
  import opened Serial
  import opened Base64

  /** A delimiter starts with a dash, which no base64 line contains. */
  type Marker = s: string | s != "" && s[0] == '-' witness "-"

  datatype Markers = Markers(begin: Marker, end: Marker)

  const CERTIFICATE := Markers("-----BEGIN CERTIFICATE-----", "-----END CERTIFICATE-----")

  const MAX_INPUT_BYTES := 16 * 1024 * 1024

  const MAX_CERTIFICATES := 64

  const LINE := 64

  // ----- printing -----

  /** The text broken into lines of 64 characters, each ended by a newline. */
  function Wrapped(text: string): string {
    if text == "" then ""
    else if |text| <= LINE then text + "\n"
    else text[..LINE] + "\n" + Wrapped(text[LINE..])
  }

  function Entry(m: Markers, der: seq<Byte>): string { m.begin + "\n" + Wrapped(Encode(der)) + m.end + "\n" }

  function PrintedWith(m: Markers, certificates: seq<seq<Byte>>): string {
    if certificates == [] then "" else Entry(m, certificates[0]) + PrintedWith(m, certificates[1..])
  }

  function Printed(certificates: seq<seq<Byte>>): string { PrintedWith(CERTIFICATE, certificates) }

  /** A newline ends the text and follows every 64 characters, and stands nowhere else. */
  ghost predicate BrokenIntoFullLines(lines: string) {
    forall k | 0 <= k < |lines| :: lines[k] == '\n' <==> (k % 65 == 64 || k == |lines| - 1)
  }

  lemma {:induction false} LinesAreFull(text: string)
    requires '\n' !in text
    ensures BrokenIntoFullLines(Wrapped(text))
  {
    if |text| > LINE {
      LinesAreFull(text[LINE..]);
      FullLineInFront(text[..LINE], Wrapped(text[LINE..]));
    } else if text != "" {
      assert text[..|text|] == text && text[|text|..] == "";
      var lines := Wrapped(text);
      assert lines == text + "\n";
      assert forall k | 0 <= k < |text| :: lines[k] == text[k] && text[k] in text;
    }
  }

  lemma FullLineInFront(line: string, rest: string)
    requires |line| == LINE && '\n' !in line
    requires rest != "" && BrokenIntoFullLines(rest)
    ensures BrokenIntoFullLines(line + "\n" + rest)
  {
    var lines := line + "\n" + rest;
    forall k | 0 <= k < |lines| ensures lines[k] == '\n' <==> (k % 65 == 64 || k == |lines| - 1) {
      if k < LINE {
        assert lines[k] == line[k] && line[k] in line;
      } else if k > LINE {
        assert lines[k] == rest[k - LINE - 1];
        assert k % 65 == (k - 65) % 65;
      }
    }
  }

  lemma {:induction false} WrappedLength(text: string)
    ensures |Wrapped(text)| == |text| + (|text| + LINE - 1) / LINE
  {
    if |text| > LINE { WrappedLength(text[LINE..]); }
  }

  /** The printed length of a certificate of the given number of bytes. */
  function EntryLength(bytes: nat): nat {
    var encoded := (bytes + 2) / 3 * 4;
    54 + encoded + (encoded + 63) / 64
  }

  function PrintedLength(certificates: seq<seq<Byte>>): nat {
    if certificates == [] then 0 else EntryLength(|certificates[0]|) + PrintedLength(certificates[1..])
  }

  /** The size of printed text follows from the sizes of the certificates alone. */
  lemma {:induction false} PrintedLengthExact(certificates: seq<seq<Byte>>)
    ensures |Printed(certificates)| == PrintedLength(certificates)
  {
    if certificates != [] {
      var encoded := Encode(certificates[0]);
      EncodedLength(certificates[0]);
      WrappedLength(encoded);
      PrintedLengthExact(certificates[1..]);
      assert |CERTIFICATE.begin| == 27 && |CERTIFICATE.end| == 25;
    }
  }

  /** A printed certificate is its base64 in lines, between the two marker lines of RFC 7468. */
  lemma FormatExact(der: seq<Byte>)
    ensures Printed([der]) == "-----BEGIN CERTIFICATE-----\n" + Wrapped(Encode(der)) + "-----END CERTIFICATE-----\n"
  {
    OneEntry(CERTIFICATE, der);
  }

  lemma OneEntry(m: Markers, der: seq<Byte>)
    ensures PrintedWith(m, [der]) == Entry(m, der)
  {
    assert [der][1..] == [];
    assert PrintedWith(m, [der]) == Entry(m, der) + PrintedWith(m, []);
  }

  /** Printing the entry at i moves it from what is left to what is printed. */
  lemma EntryMovesOver(m: Markers, pem: string, certificates: seq<seq<Byte>>, i: nat)
    requires i < |certificates|
    ensures pem + PrintedWith(m, certificates[i..])
            == pem + Entry(m, certificates[i]) + PrintedWith(m, certificates[i + 1..])
  {
    assert certificates[i..][0] == certificates[i] && certificates[i..][1..] == certificates[i + 1..];
  }

  /** Printing the next line moves it from what is left to what is printed. */
  lemma LineMovesOver(printed: string, text: string, i: nat, next: nat)
    requires i < |text| && next == if i + LINE < |text| then i + LINE else |text|
    ensures printed + Wrapped(text[i..]) == printed + text[i..next] + "\n" + Wrapped(text[next..])
  {
    var left := text[i..];
    assert left[..next - i] == text[i..next] && left[next - i..] == text[next..];
    assert Wrapped(left) == text[i..next] + "\n" + Wrapped(text[next..]);
  }

  method Wrap(text: string) returns (s: string)
    ensures s == Wrapped(text)
  {
    s := "";
    var i := 0;
    while i < |text|
      invariant 0 <= i <= |text|
      invariant s + Wrapped(text[i..]) == Wrapped(text)
    {
      var next := if i + LINE < |text| then i + LINE else |text|;
      LineMovesOver(s, text, i, next);
      s := s + text[i..next] + "\n";
      i := next;
    }
  }

  method WriteCertificateBundle(certificates: seq<seq<Byte>>) returns (pem: string)
    ensures pem == Printed(certificates)
  {
    pem := "";
    for i := 0 to |certificates|
      invariant pem + PrintedWith(CERTIFICATE, certificates[i..]) == Printed(certificates)
    {
      var body := Wrap(Encode(certificates[i]));
      EntryMovesOver(CERTIFICATE, pem, certificates, i);
      pem := pem + (CERTIFICATE.begin + "\n" + body + CERTIFICATE.end + "\n");
    }
  }

  /** The Rust printer of a single certificate gives the same text as a bundle of one. */
  method EncodeCertificatePem(der: seq<Byte>) returns (pem: string)
    ensures pem == Printed([der])
  {
    var encoded := Encode(der);
    pem := CERTIFICATE.begin + "\n";
    var i := 0;
    while i < |encoded|
      invariant 0 <= i <= |encoded|
      invariant pem + Wrapped(encoded[i..]) == CERTIFICATE.begin + "\n" + Wrapped(encoded)
    {
      var next := if i + LINE < |encoded| then i + LINE else |encoded|;
      LineMovesOver(pem, encoded, i, next);
      pem := pem + encoded[i..next];
      pem := pem + "\n";
      i := next;
    }
    pem := pem + (CERTIFICATE.end + "\n");
    OneEntry(CERTIFICATE, der);
  }

  // ----- parsing -----

  datatype BundleError =
    NotBounded | TrailingData | NonPemData | IncompletePem | InvalidItem | InvalidCertificate | TooMany | Empty

  predicate At(text: string, pattern: string, k: nat) {
    k + |pattern| <= |text| && text[k..k + |pattern|] == pattern
  }

  /** The first place at or after from where the pattern occurs. */
  function IndexOf(text: string, pattern: string, from: nat): (r: Option<nat>)
    requires from <= |text|
    ensures r.Some? ==> from <= r.value && r.value + |pattern| <= |text|
    decreases |text| - from
  {
    if At(text, pattern, from) then Some(from)
    else if from == |text| then None
    else IndexOf(text, pattern, from + 1)
  }

  /** The place found is an occurrence and none comes before it; when nothing is found there is none. */
  lemma {:induction false} IndexOfIsFirst(text: string, pattern: string, from: nat)
    requires from <= |text|
    ensures var r := IndexOf(text, pattern, from);
            && (r.Some? ==> At(text, pattern, r.value) && forall k: nat | from <= k < r.value :: !At(text, pattern, k))
            && (r.None? ==> forall k: nat | from <= k :: !At(text, pattern, k))
    decreases |text| - from
  {
    if from < |text| && !At(text, pattern, from) { IndexOfIsFirst(text, pattern, from + 1); }
  }

  /** Java's Character.isWhitespace. */
  predicate IsWhitespace(c: char) {
    var code := c as int;
    || 0x09 <= code <= 0x0D || 0x1C <= code <= 0x20 || code == 0x1680
    || 0x2000 <= code <= 0x2006 || 0x2008 <= code <= 0x200A
    || code == 0x2028 || code == 0x2029 || code == 0x205F || code == 0x3000
  }

  /** The code points Java takes for white space: separators, less the three non-breaking ones, and nine controls. */
  const WHITE_SPACE := [
    9, 10, 11, 12, 13, 28, 29, 30, 31, 32, 0x1680,
    0x2000, 0x2001, 0x2002, 0x2003, 0x2004, 0x2005, 0x2006, 0x2008, 0x2009, 0x200A, 0x2028, 0x2029, 0x205F, 0x3000]

  lemma WhitespaceExact(c: char)
    ensures IsWhitespace(c) <==> c as int in WHITE_SPACE
  {
    var code, w := c as int, WHITE_SPACE;
    if 9 <= code <= 13 { assert w[code - 9] == code; }
    if 28 <= code <= 32 { assert w[code - 23] == code; }
    if 0x2000 <= code <= 0x2006 { assert w[code - 0x2000 + 11] == code; }
    if 0x2008 <= code <= 0x200A { assert w[code - 0x2008 + 18] == code; }
    assert w[10] == 0x1680 && w[21] == 0x2028 && w[22] == 0x2029 && w[23] == 0x205F && w[24] == 0x3000;
  }

  predicate IsBlank(text: string) { forall c | c in text :: IsWhitespace(c) }

  /** A blank text is nothing but these. */
  lemma BlankExact(text: string)
    ensures IsBlank(text) <==> forall k | 0 <= k < |text| :: text[k] as int in WHITE_SPACE
  {
    forall c ensures IsWhitespace(c) <==> c as int in WHITE_SPACE { WhitespaceExact(c); }
    assert forall k | 0 <= k < |text| :: text[k] in text;
  }

  predicate IsSolid(c: char) { !IsWhitespace(c) }

  function WithoutWhitespace(text: string): string {
    if text == "" then "" else Kept(text[0]) + WithoutWhitespace(text[1..])
  }

  function Kept(c: char): string { if IsSolid(c) then [c] else "" }

  /** The content of the PEM object between the two markers, if it is base64. */
  function ReadPemObject(body: string): Option<seq<Byte>> { Decode(WithoutWhitespace(body)) }

  datatype Turn = Finished | Refused(error: BundleError) | Found(der: seq<Byte>, next: nat)

  /** What is read from the text between the two markers: the certificate's bytes, or why there are none. */
  type ItemReader = string -> Result<seq<Byte>, BundleError>

  /** Base64 decoding, then the certificate factory. */
  function CertificateIn(isCertificate: seq<Byte> -> bool): ItemReader {
    (body: string) =>
      var content := ReadPemObject(body);
      if content.None? then Err(InvalidItem)
      else if !isCertificate(content.value) then Err(InvalidCertificate)
      else Ok(content.value)
  }

  /** The item whose content starts at from, just after a begin marker. */
  function ItemAt(m: Markers, text: string, from: nat, read: ItemReader): (turn: Turn)
    requires from <= |text|
    ensures turn.Found? ==> from < turn.next <= |text|
  {
    var endAt := IndexOf(text, m.end, from);
    if endAt.None? then Refused(IncompletePem)
    else
      match read(text[from..endAt.value])
      case Err(error) => Refused(error)
      case Ok(der) => Found(der, endAt.value + |m.end|)
  }

  /** One turn of the loop at a cursor inside the text. */
  function TurnAt(m: Markers, text: string, cursor: nat, read: ItemReader): (turn: Turn)
    requires cursor < |text|
    ensures turn.Found? ==> cursor < turn.next <= |text|
  {
    var beginAt := IndexOf(text, m.begin, cursor);
    if beginAt.None? then
      if IsBlank(text[cursor..]) then Finished else Refused(TrailingData)
    else if !IsBlank(text[cursor..beginAt.value]) then Refused(NonPemData)
    else ItemAt(m, text, beginAt.value + |m.begin|, read)
  }

  /** The certificates read so far followed by those still to come. */
  function Continued(certificates: seq<seq<Byte>>, rest: Result<seq<seq<Byte>>, BundleError>)
    : Result<seq<seq<Byte>>, BundleError>
  {
    if rest.Err? then rest else Ok(certificates + rest.value)
  }

  /** A turn that finds a certificate moves the cursor on, within the text. */
  ghost predicate Advances(turnAt: nat -> Turn, length: nat) {
    forall c | 0 <= c < length && turnAt(c).Found? :: c < turnAt(c).next <= length
  }

  /** The turns of the parser over one text. */
  function TurnsOf(m: Markers, text: string, read: ItemReader): (turnAt: nat -> Turn)
    ensures Advances(turnAt, |text|)
    ensures forall c: nat | c < |text| :: turnAt(c) == TurnAt(m, text, c, read)
  {
    (c: nat) => if c < |text| then TurnAt(m, text, c, read) else Finished
  }

  /** What the loop adds from a cursor on, when it has count certificates already. */
  function ParseFrom(turnAt: nat -> Turn, length: nat, cursor: nat, count: nat): Result<seq<seq<Byte>>, BundleError>
    requires cursor <= length && Advances(turnAt, length)
    decreases length - cursor
  {
    if cursor == length then Ok([])
    else
      match turnAt(cursor)
      case Finished => Ok([])
      case Refused(error) => Err(error)
      case Found(der, next) =>
        if count + 1 > MAX_CERTIFICATES then Err(TooMany)
        else Continued([der], ParseFrom(turnAt, length, next, count + 1))
  }

  /** The parser's answer for a file of the given size and text; isCertificate stands for the certificate factory. */
  function Load(isRegularFile: bool, size: nat, text: string, isCertificate: seq<Byte> -> bool)
    : Result<seq<seq<Byte>>, BundleError>
  {
    if !isRegularFile || size > MAX_INPUT_BYTES then Err(NotBounded)
    else
      var parsed := ParseFrom(TurnsOf(CERTIFICATE, text, CertificateIn(isCertificate)), |text|, 0, 0);
      if parsed == Ok([]) then Err(Empty) else parsed
  }

  lemma ContinueAfter(certificates: seq<seq<Byte>>, der: seq<Byte>, rest: Result<seq<seq<Byte>>, BundleError>)
    ensures Continued(certificates, Continued([der], rest)) == Continued(certificates + [der], rest)
  {
    if rest.Ok? { assert certificates + ([der] + rest.value) == certificates + [der] + rest.value; }
  }

  lemma FoundContinues(turnAt: nat -> Turn, length: nat, cursor: nat, certificates: seq<seq<Byte>>)
    requires Advances(turnAt, length) && cursor < length && turnAt(cursor).Found?
    ensures var Found(der, next) := turnAt(cursor);
            Continued(certificates, ParseFrom(turnAt, length, cursor, |certificates|)) ==
            if |certificates| + 1 > MAX_CERTIFICATES then Err(TooMany)
            else Continued(certificates + [der], ParseFrom(turnAt, length, next, |certificates| + 1))
  {
    var Found(der, next) := turnAt(cursor);
    ContinueAfter(certificates, der, ParseFrom(turnAt, length, next, |certificates| + 1));
  }

  /** The cursor loop: it stops at the first refusal, at trailing blanks, or when there are too many. */
  method ReadCertificates(turnAt: nat -> Turn, length: nat) returns (result: Result<seq<seq<Byte>>, BundleError>)
    requires Advances(turnAt, length)
    ensures result == ParseFrom(turnAt, length, 0, 0)
  {
    var certificates: seq<seq<Byte>> := [];
    var cursor := 0;
    ghost var whole := ParseFrom(turnAt, length, 0, 0);
    assert whole.Ok? ==> [] + whole.value == whole.value;
    while cursor < length
      invariant cursor <= length
      invariant Continued(certificates, ParseFrom(turnAt, length, cursor, |certificates|)) == whole
      decreases length - cursor
    {
      match turnAt(cursor)
      case Finished => break;
      case Refused(error) => return Err(error);
      case Found(der, next) =>
        FoundContinues(turnAt, length, cursor, certificates);
        certificates := certificates + [der];
        if |certificates| > MAX_CERTIFICATES { return Err(TooMany); }
        cursor := next;
    }
    assert certificates + [] == certificates;
    result := Ok(certificates);
  }

  method LoadAll(isRegularFile: bool, size: nat, text: string, isCertificate: seq<Byte> -> bool)
    returns (result: Result<seq<seq<Byte>>, BundleError>)
    ensures result == Load(isRegularFile, size, text, isCertificate)
  {
    if !isRegularFile || size > MAX_INPUT_BYTES { return Err(NotBounded); }
    result := ReadCertificates(TurnsOf(CERTIFICATE, text, CertificateIn(isCertificate)), |text|);
    if result == Ok([]) { return Err(Empty); }
  }

  // ----- the round trip -----

  lemma EncodingCharsAreSolid(text: string)
    requires forall c | c in text :: IsEncodingChar(c)
    ensures forall c | c in text :: IsSolid(c) && c != '-'
  {
  }

  lemma {:induction false} WrappedHasNoMarker(text: string)
    requires forall c | c in text :: IsEncodingChar(c)
    ensures '-' !in Wrapped(text)
  {
    EncodingCharsAreSolid(text);
    if |text| > LINE {
      WrappedHasNoMarker(text[LINE..]);
      assert forall c | c in text[..LINE] :: c in text;
    }
  }

  lemma FirstIsStripped(c: char, text: string)
    ensures WithoutWhitespace([c] + text) == Kept(c) + WithoutWhitespace(text)
  {
    assert ([c] + text)[1..] == text;
  }

  lemma {:induction false} StripSplit(a: string, b: string)
    ensures WithoutWhitespace(a + b) == WithoutWhitespace(a) + WithoutWhitespace(b)
  {
    if a == "" {
      assert a + b == b;
    } else {
      var c, rest := a[0], a[1..];
      calc {
        WithoutWhitespace(a + b);
        { assert a + b == [c] + (rest + b); FirstIsStripped(c, rest + b); }
        Kept(c) + WithoutWhitespace(rest + b);
        { StripSplit(rest, b); }
        Kept(c) + (WithoutWhitespace(rest) + WithoutWhitespace(b));
        { Associate(Kept(c), WithoutWhitespace(rest), WithoutWhitespace(b)); }
        Kept(c) + WithoutWhitespace(rest) + WithoutWhitespace(b);
        { assert a == [c] + rest; FirstIsStripped(c, rest); }
        WithoutWhitespace(a) + WithoutWhitespace(b);
      }
    }
  }

  lemma {:induction false} NothingToStrip(line: string)
    requires forall c | c in line :: IsSolid(c)
    ensures WithoutWhitespace(line) == line
  {
    if line != "" { NothingToStrip(line[1..]); }
  }

  lemma NewlineIsStripped()
    ensures WithoutWhitespace("\n") == ""
  {
    assert "\n"[1..] == "";
  }

  lemma LineIsStripped(line: string)
    requires forall c | c in line :: IsSolid(c)
    ensures WithoutWhitespace(line + "\n") == line
  {
    NothingToStrip(line);
    StripSplit(line, "\n");
    NewlineIsStripped();
  }

  lemma {:induction false} UnwrapWrapped(text: string)
    requires forall c | c in text :: IsEncodingChar(c)
    ensures WithoutWhitespace(Wrapped(text)) == text
  {
    EncodingCharsAreSolid(text);
    if 0 < |text| <= LINE {
      LineIsStripped(text);
    } else if |text| > LINE {
      var first, rest := text[..LINE], text[LINE..];
      assert forall c | c in first :: c in text;
      LineIsStripped(first);
      UnwrapWrapped(rest);
      StripSplit(first + "\n", Wrapped(rest));
      assert text == first + rest;
    }
  }

  lemma BodyIsRead(der: seq<Byte>)
    ensures ReadPemObject("\n" + Wrapped(Encode(der))) == Some(der)
    ensures '-' !in "\n" + Wrapped(Encode(der))
  {
    var encoded := Encode(der);
    UnwrapWrapped(encoded);
    WrappedHasNoMarker(encoded);
    StripSplit("\n", Wrapped(encoded));
    NewlineIsStripped();
    assert "" + encoded == encoded;
    DecodeEncode(der);
  }

  lemma NotBefore(text: string, marker: Marker, from: nat, j: nat, gap: string, rest: string)
    requires from <= j && j - from < |gap| && from <= |text| && text[from..] == gap + rest && gap[j - from] != '-'
    ensures !At(text, marker, j)
  {
    assert text[from..][j - from] == text[j];
    if j + |marker| <= |text| { assert text[j..j + |marker|][0] == text[j]; }
  }

  /** A marker is found just after a stretch without dashes. */
  lemma MarkerIsFound(text: string, marker: Marker, from: nat, gap: string, rest: string) returns (at: nat)
    requires from <= |text| && text[from..] == gap + marker + rest && '-' !in gap
    ensures from <= at == from + |gap| && at + |marker| <= |text|
    ensures IndexOf(text, marker, from) == Some(at)
    ensures text[from..at] == gap && text[at + |marker|..] == rest
  {
    var tail := text[from..];
    at := from + |gap|;
    assert tail[|gap|..|gap| + |marker|] == marker;
    assert text[at..at + |marker|] == tail[|gap|..|gap| + |marker|];
    assert At(text, marker, at);
    assert tail == gap + (marker + rest);
    forall j: nat | from <= j < at ensures !At(text, marker, j) {
      assert gap[j - from] in gap;
      NotBefore(text, marker, from, j, gap, marker + rest);
    }
    IndexOfIsFirst(text, marker, from);
    assert text[from..at] == tail[..|gap|] == gap;
    assert text[at + |marker|..] == tail[|gap| + |marker|..] == rest;
  }

  lemma EntrySplit(m: Markers, lead: string, der: seq<Byte>, rest: string)
    ensures var body := "\n" + Wrapped(Encode(der));
            lead + Entry(m, der) + rest == lead + m.begin + (body + m.end + ("\n" + rest))
  {
    var wrapped := Wrapped(Encode(der));
    assert Entry(m, der) == m.begin + "\n" + wrapped + m.end + "\n";
  }

  lemma TurnFinds(m: Markers, text: string, cursor: nat, begin: nat, turn: Turn, read: ItemReader)
    requires cursor < |text| && begin + |m.begin| <= |text|
    requires IndexOf(text, m.begin, cursor) == Some(begin) && IsBlank(text[cursor..begin])
    requires ItemAt(m, text, begin + |m.begin|, read) == turn
    ensures TurnAt(m, text, cursor, read) == turn
  {
  }

  lemma ItemFound(m: Markers, text: string, from: nat, next: nat, der: seq<Byte>, read: ItemReader)
    requires from + |m.end| <= next <= |text|
    requires IndexOf(text, m.end, from) == Some(next - |m.end|)
    requires read(text[from..next - |m.end|]) == Ok(der)
    ensures ItemAt(m, text, from, read) == Found(der, next)
  {
  }

  /** The text between the markers of a printed entry is read as its certificate. */
  ghost predicate ReadsBack(read: ItemReader, der: seq<Byte>) { read("\n" + Wrapped(Encode(der))) == Ok(der) }

  /** The step of the parser over one printed entry, which may follow a newline. */
  lemma EntryIsParsed(m: Markers, text: string, cursor: nat, lead: string, der: seq<Byte>, rest: string,
                      read: ItemReader)
    returns (next: nat)
    requires cursor <= |text| && text[cursor..] == lead + Entry(m, der) + rest
    requires (lead == "" || lead == "\n") && ReadsBack(read, der)
    ensures cursor < |text| && TurnAt(m, text, cursor, read) == Found(der, next)
    ensures next <= |text| && text[next..] == "\n" + rest
  {
    EntrySplit(m, lead, der, rest);
    BodyIsRead(der);
    next := SplitIsParsed(m, text, cursor, lead, "\n" + Wrapped(Encode(der)), der, "\n" + rest, read);
  }

  lemma MarkersAreFound(m: Markers, text: string, cursor: nat, lead: string, body: string, after: string)
    returns (begin: nat, next: nat)
    requires cursor <= |text| && text[cursor..] == lead + m.begin + (body + m.end + after)
    requires '-' !in lead && '-' !in body
    ensures cursor <= begin && begin + |m.begin| + |body| + |m.end| == next <= |text|
    ensures IndexOf(text, m.begin, cursor) == Some(begin) && text[cursor..begin] == lead
    ensures IndexOf(text, m.end, begin + |m.begin|) == Some(next - |m.end|)
    ensures text[begin + |m.begin|..next - |m.end|] == body && text[next..] == after
  {
    begin := MarkerIsFound(text, m.begin, cursor, lead, body + m.end + after);
    var endAt := MarkerIsFound(text, m.end, begin + |m.begin|, body, after);
    next := endAt + |m.end|;
  }

  lemma SplitIsParsed(m: Markers, text: string, cursor: nat, lead: string, body: string, der: seq<Byte>, after: string,
                      read: ItemReader)
    returns (next: nat)
    requires cursor <= |text| && text[cursor..] == lead + m.begin + (body + m.end + after)
    requires (lead == "" || lead == "\n") && read(body) == Ok(der) && '-' !in body
    ensures cursor < |text| && TurnAt(m, text, cursor, read) == Found(der, next)
    ensures next <= |text| && text[next..] == after
  {
    var begin;
    begin, next := MarkersAreFound(m, text, cursor, lead, body, after);
    ItemFound(m, text, begin + |m.begin|, next, der, read);
    TurnFinds(m, text, cursor, begin, Found(der, next), read);
  }

  lemma NothingIsLeft(m: Markers, text: string, cursor: nat, lead: string, read: ItemReader)
    requires cursor <= |text| && text[cursor..] == lead && (lead == "" || lead == "\n")
    ensures cursor == |text| || TurnAt(m, text, cursor, read) == Finished
  {
    if lead != "" {
      assert text[cursor] == text[cursor..][0];
      IndexOfIsFirst(text, m.begin, cursor);
      forall k: nat | cursor <= k ensures !At(text, m.begin, k) {
        if k == cursor { NotBefore(text, m.begin, cursor, k, "\n", ""); }
      }
    }
  }

  /** The turns from the first cursor find the certificates one after another, and then nothing. */
  ghost predicate Script(turnAt: nat -> Turn, length: nat, cursors: seq<nat>, certificates: seq<seq<Byte>>) {
    && |cursors| == |certificates| + 1
    && (forall i | 0 <= i < |certificates| ::
          cursors[i] < length && turnAt(cursors[i]) == Found(certificates[i], cursors[i + 1]))
    && cursors[|certificates|] <= length
    && (cursors[|certificates|] == length || turnAt(cursors[|certificates|]) == Finished)
  }

  lemma {:induction false} ScriptIsParsed(turnAt: nat -> Turn, length: nat, cursors: seq<nat>,
                                          certificates: seq<seq<Byte>>, count: nat)
    requires Advances(turnAt, length) && Script(turnAt, length, cursors, certificates)
    requires count <= MAX_CERTIFICATES
    ensures ParseFrom(turnAt, length, cursors[0], count) ==
            if count + |certificates| <= MAX_CERTIFICATES then Ok(certificates) else Err(TooMany)
    decreases |certificates|
  {
    if certificates != [] {
      assert turnAt(cursors[0]) == Found(certificates[0], cursors[1]);
      if count + 1 <= MAX_CERTIFICATES {
        ScriptIsParsed(turnAt, length, cursors[1..], certificates[1..], count + 1);
        assert [certificates[0]] + certificates[1..] == certificates;
      }
    }
  }

  lemma FirstIsParsed(m: Markers, text: string, cursor: nat, lead: string, certificates: seq<seq<Byte>>,
                      read: ItemReader)
    returns (next: nat)
    requires certificates != [] && ReadsBack(read, certificates[0])
    requires cursor <= |text| && text[cursor..] == lead + PrintedWith(m, certificates)
    requires lead == "" || lead == "\n"
    ensures cursor < |text| && TurnAt(m, text, cursor, read) == Found(certificates[0], next)
    ensures next <= |text| && text[next..] == "\n" + PrintedWith(m, certificates[1..])
  {
    EntryMovesOver(m, lead, certificates, 0);
    assert certificates[0..] == certificates;
    next := EntryIsParsed(m, text, cursor, lead, certificates[0], PrintedWith(m, certificates[1..]), read);
  }

  /** The turns of the parser over printed text follow the script of the printed list. */
  lemma {:induction false} PrintedIsScripted(m: Markers, text: string, cursor: nat, lead: string,
                                             certificates: seq<seq<Byte>>, read: ItemReader)
    returns (cursors: seq<nat>)
    requires cursor <= |text| && text[cursor..] == lead + PrintedWith(m, certificates)
    requires lead == "" || lead == "\n"
    requires forall der | der in certificates :: ReadsBack(read, der)
    ensures Script(TurnsOf(m, text, read), |text|, cursors, certificates) && cursors[0] == cursor
    decreases |certificates|
  {
    var turnAt := TurnsOf(m, text, read);
    if certificates == [] {
      NothingIsLeft(m, text, cursor, lead, read);
      cursors := [cursor];
    } else {
      var der, rest := certificates[0], certificates[1..];
      var next := FirstIsParsed(m, text, cursor, lead, certificates, read);
      var tail := PrintedIsScripted(m, text, next, "\n", rest, read);
      cursors := [cursor] + tail;
      assert turnAt(cursor) == Found(der, next);
      ScriptGrows(turnAt, |text|, cursor, der, tail, rest);
      assert [der] + rest == certificates;
    }
  }

  lemma ScriptGrows(turnAt: nat -> Turn, length: nat, cursor: nat, der: seq<Byte>, cursors: seq<nat>,
                    certificates: seq<seq<Byte>>)
    requires Script(turnAt, length, cursors, certificates)
    requires cursor < length && turnAt(cursor) == Found(der, cursors[0])
    ensures Script(turnAt, length, [cursor] + cursors, [der] + certificates)
  {
  }

  /** Within the size limit, a printed list is read back exactly, and refused when it is empty or longer than 64. */
  lemma RoundTrip(certificates: seq<seq<Byte>>, isCertificate: seq<Byte> -> bool)
    requires forall der | der in certificates :: isCertificate(der)
    ensures var text := Printed(certificates);
            Load(true, |text|, text, isCertificate) ==
            if PrintedLength(certificates) > 16 * 1024 * 1024 then Err(NotBounded)
            else if certificates == [] then Err(Empty)
            else if |certificates| > 64 then Err(TooMany)
            else Ok(certificates)
  {
    var text := Printed(certificates);
    var read := CertificateIn(isCertificate);
    PrintedLengthExact(certificates);
    assert text[0..] == "" + Printed(certificates);
    forall der | der in certificates ensures ReadsBack(read, der) { BodyIsRead(der); }
    var cursors := PrintedIsScripted(CERTIFICATE, text, 0, "", certificates, read);
    ScriptIsParsed(TurnsOf(CERTIFICATE, text, read), |text|, cursors, certificates, 0);
  }

  lemma {:induction false} ParsedAreFound(turnAt: nat -> Turn, length: nat, cursor: nat, count: nat,
                                          isCertificate: seq<Byte> -> bool)
    requires cursor <= length && count <= MAX_CERTIFICATES && Advances(turnAt, length)
    requires forall c | 0 <= c < length && turnAt(c).Found? :: isCertificate(turnAt(c).der)
    ensures var parsed := ParseFrom(turnAt, length, cursor, count);
            parsed.Ok? ==> count + |parsed.value| <= MAX_CERTIFICATES
                           && forall der | der in parsed.value :: isCertificate(der)
    decreases length - cursor
  {
    if cursor < length && turnAt(cursor).Found? && count + 1 <= MAX_CERTIFICATES {
      ParsedAreFound(turnAt, length, turnAt(cursor).next, count + 1, isCertificate);
    }
  }

  lemma FoundIsCertificate(m: Markers, text: string, cursor: nat, isCertificate: seq<Byte> -> bool)
    requires cursor < |text| && TurnAt(m, text, cursor, CertificateIn(isCertificate)).Found?
    ensures isCertificate(TurnAt(m, text, cursor, CertificateIn(isCertificate)).der)
  {
  }

  /** Whatever is accepted holds 1 to 64 certificates, and printing it gives a text that is read as the same list. */
  lemma AcceptedIsCanonical(isRegularFile: bool, size: nat, text: string, isCertificate: seq<Byte> -> bool)
    requires Load(isRegularFile, size, text, isCertificate).Ok?
    ensures var list := Load(isRegularFile, size, text, isCertificate).value;
            && 1 <= |list| <= 64
            && (PrintedLength(list) <= 16 * 1024 * 1024 ==>
                  Load(true, |Printed(list)|, Printed(list), isCertificate) == Ok(list))
  {
    forall c: nat | c < |text| && TurnAt(CERTIFICATE, text, c, CertificateIn(isCertificate)).Found?
      ensures isCertificate(TurnAt(CERTIFICATE, text, c, CertificateIn(isCertificate)).der)
    {
      FoundIsCertificate(CERTIFICATE, text, c, isCertificate);
    }
    ParsedAreFound(TurnsOf(CERTIFICATE, text, CertificateIn(isCertificate)), |text|, 0, 0, isCertificate);
    RoundTrip(Load(isRegularFile, size, text, isCertificate).value, isCertificate);
  }

  /** The size limit can be met by a single certificate: one of 12 MiB is refused in its printed form. */
  lemma OneCertificateMayBeTooLarge(der: seq<Byte>, isCertificate: seq<Byte> -> bool)
    requires |der| == 12 * 1024 * 1024 && isCertificate(der)
    ensures Load(true, |Printed([der])|, Printed([der]), isCertificate) == Err(NotBounded)
  {
    RoundTrip([der], isCertificate);
    assert PrintedLength([der]) == EntryLength(|der|) + PrintedLength([der][1..]);
    assert EntryLength(|der|) > MAX_INPUT_BYTES;
  }
}
