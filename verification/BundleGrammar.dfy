/** Which texts the bundle parser accepts, and why it refuses the others. */
module BundleGrammar {
  import opened Wrappers
  import opened Sequences
  import opened Serial
  import opened Base64
  import opened PemBundle

  /** What stands before an item, and the text between its markers. */
  datatype Piece = Piece(gap: string, body: string)

  function PieceText(m: Markers, p: Piece): string { p.gap + m.begin + (p.body + m.end) }

  function Joined(m: Markers, pieces: seq<Piece>): string {
    if pieces == [] then "" else PieceText(m, pieces[0]) + Joined(m, pieces[1..])
  }

  /** The pattern does not occur in the text. */
  ghost predicate Lacks(text: string, pattern: string) { forall k: nat :: !At(text, pattern, k) }

  /** Followed by the pattern, the front does not contain it earlier, not even in part. */
  ghost predicate EndsAt(front: string, pattern: string) {
    forall k: nat | k < |front| :: !At(front + pattern, pattern, k)
  }

  /** A blank gap, and a body that ends at the end marker and is read as der. */
  ghost predicate IsGood(m: Markers, read: ItemReader, p: Piece, der: seq<Byte>) {
    IsBlank(p.gap) && EndsAt(p.body, m.end) && read(p.body) == Ok(der)
  }

  ghost predicate AreGood(m: Markers, read: ItemReader, pieces: seq<Piece>, ders: seq<seq<Byte>>) {
    |pieces| == |ders| && forall i | 0 <= i < |pieces| :: IsGood(m, read, pieces[i], ders[i])
  }

  // ----- searching -----

  lemma AtInTail(text: string, pattern: string, from: nat, k: nat)
    requires from <= |text|
    ensures At(text, pattern, from + k) <==> At(text[from..], pattern, k)
  {
    if from + k + |pattern| <= |text| {
      assert text[from + k..from + k + |pattern|] == text[from..][k..k + |pattern|];
    }
  }

  lemma AtInFront(front: string, pattern: string, rest: string, k: nat)
    requires k <= |front|
    ensures At(front + pattern + rest, pattern, k) <==> At(front + pattern, pattern, k)
  {
    assert (front + pattern + rest)[k..k + |pattern|] == (front + pattern)[k..k + |pattern|];
  }

  lemma NothingFound(text: string, pattern: string, from: nat)
    requires from <= |text| && Lacks(text[from..], pattern)
    ensures IndexOf(text, pattern, from).None?
  {
    IndexOfIsFirst(text, pattern, from);
    var found := IndexOf(text, pattern, from);
    if found.Some? { AtInTail(text, pattern, from, found.value - from); }
  }

  lemma FoundThere(text: string, pattern: string, from: nat, front: string, rest: string)
    requires from <= |text| && text[from..] == front + pattern + rest && EndsAt(front, pattern)
    ensures IndexOf(text, pattern, from) == Some(from + |front|)
    ensures text[from..from + |front|] == front
    ensures from + |front| + |pattern| <= |text| && text[from + |front| + |pattern|..] == rest
  {
    var tail, k := text[from..], from + |front|;
    assert tail[|front|..|front| + |pattern|] == pattern;
    AtInTail(text, pattern, from, |front|);
    forall j: nat | from <= j < k ensures !At(text, pattern, j) {
      AtInTail(text, pattern, from, j - from);
      AtInFront(front, pattern, rest, j - from);
    }
    IndexOfIsFirst(text, pattern, from);
    assert text[from..k] == tail[..|front|] == front;
    assert text[k + |pattern|..] == tail[|front| + |pattern|..] == rest;
  }

  lemma WhatIsFound(text: string, pattern: string, from: nat)
    requires from <= |text| && IndexOf(text, pattern, from).Some?
    ensures var k := IndexOf(text, pattern, from).value;
            && text[from..] == text[from..k] + pattern + text[k + |pattern|..]
            && EndsAt(text[from..k], pattern)
  {
    IndexOfIsFirst(text, pattern, from);
    var k := IndexOf(text, pattern, from).value;
    var front, rest := text[from..k], text[k + |pattern|..];
    assert text[from..] == front + text[k..k + |pattern|] + rest;
    forall j: nat | j < |front| ensures !At(front + pattern, pattern, j) {
      AtInTail(text, pattern, from, j);
      AtInFront(front, pattern, rest, j);
    }
  }

  lemma StartsWithDash(text: string, marker: Marker, k: nat)
    ensures At(text, marker, k) ==> k < |text| && text[k] == '-'
  {
    if At(text, marker, k) { assert text[k] == text[k..k + |marker|][0]; }
  }

  /** A marker cannot begin within text without dashes. */
  lemma DashlessEndsAt(front: string, marker: Marker)
    requires '-' !in front
    ensures EndsAt(front, marker)
  {
    forall k: nat | k < |front| ensures !At(front + marker, marker, k) {
      assert (front + marker)[k] == front[k] && front[k] in front;
      StartsWithDash(front + marker, marker, k);
    }
  }

  lemma DashlessLacks(text: string, marker: Marker)
    requires '-' !in text
    ensures Lacks(text, marker)
  {
    forall k: nat ensures !At(text, marker, k) { StartsWithDash(text, marker, k); }
  }

  lemma BlankIsDashless(text: string)
    requires IsBlank(text)
    ensures '-' !in text
  {
  }

  // ----- one turn -----

  /** A begin marker after a blank gap leaves the turn to the item. */
  lemma TurnAtItem(m: Markers, text: string, cursor: nat, gap: string, more: string, read: ItemReader)
    requires cursor <= |text| && text[cursor..] == gap + m.begin + more && IsBlank(gap)
    ensures var from := cursor + |gap| + |m.begin|;
            && cursor < |text| && from <= |text| && text[from..] == more
            && TurnAt(m, text, cursor, read) == ItemAt(m, text, from, read)
  {
    BlankIsDashless(gap);
    DashlessEndsAt(gap, m.begin);
    FoundThere(text, m.begin, cursor, gap, more);
    TurnFinds(m, text, cursor, cursor + |gap|, ItemAt(m, text, cursor + |gap| + |m.begin|, read), read);
  }

  /** The turn that reads this content, and goes on after it. */
  ghost predicate TurnReads(turn: Turn, content: Result<seq<Byte>, BundleError>, next: nat) {
    turn == if content.Err? then Refused(content.error) else Found(content.value, next)
  }

  lemma ItemRead(m: Markers, text: string, from: nat, body: string, after: string, read: ItemReader)
    returns (next: nat)
    requires from <= |text| && text[from..] == body + m.end + after && EndsAt(body, m.end)
    ensures next <= |text| && text[next..] == after
    ensures TurnReads(ItemAt(m, text, from, read), read(body), next)
  {
    FoundThere(text, m.end, from, body, after);
    next := from + |body| + |m.end|;
  }

  lemma TurnAtGood(m: Markers, text: string, cursor: nat, p: Piece, der: seq<Byte>, rest: string, read: ItemReader)
    returns (next: nat)
    requires cursor <= |text| && text[cursor..] == PieceText(m, p) + rest && IsGood(m, read, p, der)
    ensures cursor < |text| && TurnAt(m, text, cursor, read) == Found(der, next)
    ensures next <= |text| && text[next..] == rest
  {
    PieceThenRest(m, p, rest);
    next := TurnAtBody(m, text, cursor, p, rest, read);
  }

  lemma TurnAtTail(m: Markers, text: string, cursor: nat, read: ItemReader)
    requires cursor < |text| && Lacks(text[cursor..], m.begin)
    ensures TurnAt(m, text, cursor, read) == if IsBlank(text[cursor..]) then Finished else Refused(TrailingData)
  {
    NothingFound(text, m.begin, cursor);
  }

  lemma TurnAtGap(m: Markers, text: string, cursor: nat, gap: string, more: string, read: ItemReader)
    requires cursor <= |text| && text[cursor..] == gap + m.begin + more && EndsAt(gap, m.begin) && !IsBlank(gap)
    ensures cursor < |text| && TurnAt(m, text, cursor, read) == Refused(NonPemData)
  {
    FoundThere(text, m.begin, cursor, gap, more);
  }

  lemma ItemWithoutEnd(m: Markers, text: string, from: nat, read: ItemReader)
    requires from <= |text| && Lacks(text[from..], m.end)
    ensures ItemAt(m, text, from, read) == Refused(IncompletePem)
  {
    NothingFound(text, m.end, from);
  }

  lemma BodyIsFound(m: Markers, text: string, from: nat, read: ItemReader) returns (body: string)
    requires from <= |text| && ItemAt(m, text, from, read).Found?
    ensures var turn := ItemAt(m, text, from, read);
            && text[from..] == body + m.end + text[turn.next..]
            && EndsAt(body, m.end)
            && read(body) == Ok(turn.der)
  {
    WhatIsFound(text, m.end, from);
    body := text[from..IndexOf(text, m.end, from).value];
  }

  /** What a turn finds is a good piece. */
  lemma FoundIsGood(m: Markers, text: string, cursor: nat, read: ItemReader) returns (p: Piece)
    requires cursor < |text| && TurnAt(m, text, cursor, read).Found?
    ensures var turn := TurnAt(m, text, cursor, read);
            text[cursor..] == PieceText(m, p) + text[turn.next..] && IsGood(m, read, p, turn.der)
  {
    var turn := TurnAt(m, text, cursor, read);
    var begin := IndexOf(text, m.begin, cursor).value;
    WhatIsFound(text, m.begin, cursor);
    var body := BodyIsFound(m, text, begin + |m.begin|, read);
    p := Piece(text[cursor..begin], body);
    PieceThenRest(m, p, text[turn.next..]);
  }

  lemma PieceThenRest(m: Markers, p: Piece, rest: string)
    ensures p.gap + m.begin + (p.body + m.end + rest) == PieceText(m, p) + rest
  {
  }

  // ----- the whole text -----

  /** What the loop makes of the text from a cursor on, when it has count certificates already. */
  ghost function LeftFrom(m: Markers, text: string, cursor: nat, count: nat, read: ItemReader)
    : Result<seq<seq<Byte>>, BundleError>
    requires cursor <= |text|
  {
    ParseFrom(TurnsOf(m, text, read), |text|, cursor, count)
  }

  lemma RestAreGood(m: Markers, read: ItemReader, pieces: seq<Piece>, ders: seq<seq<Byte>>)
    requires AreGood(m, read, pieces, ders) && pieces != []
    ensures IsGood(m, read, pieces[0], ders[0]) && AreGood(m, read, pieces[1..], ders[1..])
  {
  }

  /** The turns from the first cursor find these certificates one after another, and end at the last cursor. */
  ghost predicate IsTrail(turnAt: nat -> Turn, length: nat, cursors: seq<nat>, ders: seq<seq<Byte>>) {
    && |cursors| == |ders| + 1
    && (forall i | 0 <= i < |ders| ::
          cursors[i] < length && turnAt(cursors[i]) == Found(ders[i], cursors[i + 1]))
    && cursors[|ders|] <= length
  }

  lemma {:induction false} TrailIsParsed(turnAt: nat -> Turn, length: nat, cursors: seq<nat>, ders: seq<seq<Byte>>,
                                         count: nat)
    requires Advances(turnAt, length) && IsTrail(turnAt, length, cursors, ders)
    requires count + |ders| <= MAX_CERTIFICATES
    ensures ParseFrom(turnAt, length, cursors[0], count) ==
            Continued(ders, ParseFrom(turnAt, length, cursors[|ders|], count + |ders|))
    decreases |ders|
  {
    var rest := ParseFrom(turnAt, length, cursors[|ders|], count + |ders|);
    if ders == [] {
      ContinuedByNone(ders, rest);
    } else {
      assert turnAt(cursors[0]) == Found(ders[0], cursors[1]);
      TrailIsParsed(turnAt, length, cursors[1..], ders[1..], count + 1);
      ContinuedFromFirst(ders, ParseFrom(turnAt, length, cursors[0], count),
                         ParseFrom(turnAt, length, cursors[1], count + 1), rest);
    }
  }

  lemma TrailGrows(turnAt: nat -> Turn, length: nat, cursor: nat, der: seq<Byte>, cursors: seq<nat>,
                   ders: seq<seq<Byte>>)
    requires IsTrail(turnAt, length, cursors, ders)
    requires cursor < length && turnAt(cursor) == Found(der, cursors[0])
    ensures IsTrail(turnAt, length, [cursor] + cursors, [der] + ders)
  {
  }

  /** Good pieces are found one after another. */
  lemma {:induction false} GoodIsTrail(m: Markers, text: string, cursor: nat, pieces: seq<Piece>,
                                       ders: seq<seq<Byte>>, rest: string, read: ItemReader)
    returns (cursors: seq<nat>)
    requires cursor <= |text| && text[cursor..] == Joined(m, pieces) + rest && AreGood(m, read, pieces, ders)
    ensures IsTrail(TurnsOf(m, text, read), |text|, cursors, ders) && cursors[0] == cursor
    ensures text[cursors[|ders|]..] == rest
    decreases |pieces|
  {
    if pieces == [] {
      assert Joined(m, pieces) + rest == rest;
      cursors := [cursor];
    } else {
      JoinedThenRest(m, pieces, rest);
      RestAreGood(m, read, pieces, ders);
      var next := TurnAtGood(m, text, cursor, pieces[0], ders[0], Joined(m, pieces[1..]) + rest, read);
      var more := GoodIsTrail(m, text, next, pieces[1..], ders[1..], rest, read);
      TrailGrows(TurnsOf(m, text, read), |text|, cursor, ders[0], more, ders[1..]);
      cursors := [cursor] + more;
      assert [ders[0]] + ders[1..] == ders;
    }
  }

  lemma ContinuedByNone(none: seq<seq<Byte>>, rest: Result<seq<seq<Byte>>, BundleError>)
    requires none == []
    ensures Continued(none, rest) == rest
  {
    if rest.Ok? { assert none + rest.value == rest.value; }
  }

  lemma ContinuedFromFirst(ders: seq<seq<Byte>>, whole: Result<seq<seq<Byte>>, BundleError>,
                           later: Result<seq<seq<Byte>>, BundleError>, rest: Result<seq<seq<Byte>>, BundleError>)
    requires ders != [] && whole == Continued([ders[0]], later) && later == Continued(ders[1..], rest)
    ensures whole == Continued(ders, rest)
  {
    if rest.Ok? { assert [ders[0]] + (ders[1..] + rest.value) == ders + rest.value; }
  }

  lemma JoinedThenRest(m: Markers, pieces: seq<Piece>, rest: string)
    requires pieces != []
    ensures Joined(m, pieces) + rest == PieceText(m, pieces[0]) + (Joined(m, pieces[1..]) + rest)
  {
  }

  /** What is parsed to the end is good pieces and a blank tail. */
  lemma {:induction false} ParsedIsGood(m: Markers, text: string, cursor: nat, count: nat, read: ItemReader)
    returns (pieces: seq<Piece>, tail: string)
    requires cursor <= |text| && ParseFrom(TurnsOf(m, text, read), |text|, cursor, count).Ok?
    ensures text[cursor..] == Joined(m, pieces) + tail && IsBlank(tail)
    ensures AreGood(m, read, pieces, ParseFrom(TurnsOf(m, text, read), |text|, cursor, count).value)
    decreases |text| - cursor
  {
    var turnAt := TurnsOf(m, text, read);
    if cursor == |text| || turnAt(cursor).Finished? {
      pieces, tail := [], text[cursor..];
    } else {
      var p := FoundIsGood(m, text, cursor, read);
      var more;
      more, tail := ParsedIsGood(m, text, turnAt(cursor).next, count + 1, read);
      pieces := [p] + more;
      assert pieces[1..] == more;
      JoinedThenRest(m, pieces, tail);
    }
  }

  /** What the loop makes of a whole text. */
  ghost function Parsed(m: Markers, text: string, read: ItemReader): Result<seq<seq<Byte>>, BundleError> {
    LeftFrom(m, text, 0, 0, read)
  }

  /** The text starts with good pieces, read as the given list, and goes on with rest. */
  ghost predicate StartsGood(m: Markers, text: string, read: ItemReader, pieces: seq<Piece>, list: seq<seq<Byte>>,
                             rest: string)
  {
    text == Joined(m, pieces) + rest && AreGood(m, read, pieces, list) && |pieces| <= MAX_CERTIFICATES
  }

  /** What is left after good pieces decides. */
  lemma ParsedAfter(m: Markers, text: string, read: ItemReader, pieces: seq<Piece>, list: seq<seq<Byte>>, rest: string)
    returns (next: nat)
    requires StartsGood(m, text, read, pieces, list, rest)
    ensures next <= |text| && text[next..] == rest
    ensures Parsed(m, text, read) == Continued(list, LeftFrom(m, text, next, |pieces|, read))
  {
    assert text[0..] == text;
    var cursors := GoodIsTrail(m, text, 0, pieces, list, rest, read);
    TrailIsParsed(TurnsOf(m, text, read), |text|, cursors, list, 0);
    next := cursors[|list|];
  }

  lemma TailParsed(m: Markers, text: string, read: ItemReader, pieces: seq<Piece>, list: seq<seq<Byte>>, tail: string)
    requires StartsGood(m, text, read, pieces, list, tail) && Lacks(tail, m.begin)
    ensures Parsed(m, text, read) == if IsBlank(tail) then Ok(list) else Err(TrailingData)
  {
    var next := ParsedAfter(m, text, read, pieces, list, tail);
    if next < |text| { TurnAtTail(m, text, next, read); }
    assert list + [] == list;
  }

  lemma GapParsed(m: Markers, text: string, read: ItemReader, pieces: seq<Piece>, list: seq<seq<Byte>>, gap: string,
                  more: string)
    requires StartsGood(m, text, read, pieces, list, gap + m.begin + more)
    requires EndsAt(gap, m.begin) && !IsBlank(gap)
    ensures Parsed(m, text, read) == Err(NonPemData)
  {
    var next := ParsedAfter(m, text, read, pieces, list, gap + m.begin + more);
    TurnAtGap(m, text, next, gap, more, read);
  }

  lemma OpenItemAt(m: Markers, text: string, cursor: nat, gap: string, more: string, read: ItemReader)
    requires cursor <= |text| && text[cursor..] == gap + m.begin + more && IsBlank(gap) && Lacks(more, m.end)
    ensures cursor < |text| && TurnAt(m, text, cursor, read) == Refused(IncompletePem)
  {
    TurnAtItem(m, text, cursor, gap, more, read);
    ItemWithoutEnd(m, text, cursor + |gap| + |m.begin|, read);
  }

  lemma OpenItemParsed(m: Markers, text: string, read: ItemReader, pieces: seq<Piece>, list: seq<seq<Byte>>,
                       gap: string, more: string)
    requires StartsGood(m, text, read, pieces, list, gap + m.begin + more)
    requires IsBlank(gap) && Lacks(more, m.end)
    ensures Parsed(m, text, read) == Err(IncompletePem)
  {
    var next := ParsedAfter(m, text, read, pieces, list, gap + m.begin + more);
    OpenItemAt(m, text, next, gap, more, read);
  }

  lemma ItemParsed(m: Markers, text: string, read: ItemReader, pieces: seq<Piece>, list: seq<seq<Byte>>, p: Piece,
                   after: string)
    requires StartsGood(m, text, read, pieces, list, p.gap + m.begin + (p.body + m.end + after))
    requires IsBlank(p.gap) && EndsAt(p.body, m.end)
    ensures read(p.body).Err? ==> Parsed(m, text, read) == Err(read(p.body).error)
    ensures read(p.body).Ok? && |list| == MAX_CERTIFICATES ==> Parsed(m, text, read) == Err(TooMany)
  {
    var next := ParsedAfter(m, text, read, pieces, list, p.gap + m.begin + (p.body + m.end + after));
    var to := TurnAtBody(m, text, next, p, after, read);
  }

  lemma TurnAtBody(m: Markers, text: string, cursor: nat, p: Piece, after: string, read: ItemReader)
    returns (next: nat)
    requires cursor <= |text| && text[cursor..] == p.gap + m.begin + (p.body + m.end + after)
    requires IsBlank(p.gap) && EndsAt(p.body, m.end)
    ensures cursor < |text| && next <= |text| && text[next..] == after
    ensures TurnReads(TurnAt(m, text, cursor, read), read(p.body), next)
  {
    TurnAtItem(m, text, cursor, p.gap, p.body + m.end + after, read);
    next := ItemRead(m, text, cursor + |p.gap| + |m.begin|, p.body, after, read);
  }

  lemma ParsedExact(m: Markers, text: string, read: ItemReader, list: seq<seq<Byte>>)
    requires |list| <= MAX_CERTIFICATES
    ensures Parsed(m, text, read) == Ok(list) <==>
            exists pieces, tail :: StartsGood(m, text, read, pieces, list, tail) && IsBlank(tail)
  {
    if Parsed(m, text, read) == Ok(list) {
      var pieces, tail := ParsedIsGood(m, text, 0, 0, read);
      assert text[0..] == text;
      assert StartsGood(m, text, read, pieces, list, tail);
    }
    if pieces, tail :| StartsGood(m, text, read, pieces, list, tail) && IsBlank(tail) {
      BlankIsDashless(tail);
      DashlessLacks(tail, m.begin);
      TailParsed(m, text, read, pieces, list, tail);
    }
  }

  // ----- the parser's answer -----

  /** The text is items, read as the given certificates, with nothing but blanks before, between and after them. */
  ghost predicate IsBundle(text: string, isCertificate: seq<Byte> -> bool, list: seq<seq<Byte>>) {
    exists pieces, tail ::
      StartsGood(CERTIFICATE, text, CertificateIn(isCertificate), pieces, list, tail) && IsBlank(tail)
  }

  lemma LoadIsParsed(size: nat, text: string, isCertificate: seq<Byte> -> bool)
    requires size <= MAX_INPUT_BYTES
    ensures var parsed := Parsed(CERTIFICATE, text, CertificateIn(isCertificate));
            Load(true, size, text, isCertificate) == if parsed == Ok([]) then Err(Empty) else parsed
  {
  }

  function IsDense(): char -> bool { (c: char) => c as int !in WHITE_SPACE }

  /** The base64 content of a body, its white space left out. */
  ghost function ContentOf(body: string): Option<seq<Byte>> { Decode(Filter(body, IsDense())) }

  lemma {:induction false} DenseIsKept(body: string)
    ensures WithoutWhitespace(body) == Filter(body, IsDense())
  {
    if body != "" {
      WhitespaceExact(body[0]);
      DenseIsKept(body[1..]);
    }
  }

  /** What the text between two markers gives: base64 without its white space, then the certificate factory. */
  lemma ItemExact(body: string, isCertificate: seq<Byte> -> bool)
    ensures var read, content := CertificateIn(isCertificate)(body), ContentOf(body);
            && (forall der :: read == Ok(der) <==> content == Some(der) && isCertificate(der))
            && (read == Err(InvalidItem) <==> content == None)
            && (read == Err(InvalidCertificate) <==> content.Some? && !isCertificate(content.value))
  {
    assert ReadPemObject(body) == ContentOf(body) by { DenseIsKept(body); }
  }

  /** A list is accepted exactly from the bundles of its 1 to 64 certificates, within the size limit. */
  lemma AcceptedExact(isRegularFile: bool, size: nat, text: string, isCertificate: seq<Byte> -> bool,
                      list: seq<seq<Byte>>)
    ensures Load(isRegularFile, size, text, isCertificate) == Ok(list) <==>
            isRegularFile && size <= 16 * 1024 * 1024 && 1 <= |list| <= 64 && IsBundle(text, isCertificate, list)
  {
    if Load(isRegularFile, size, text, isCertificate) == Ok(list) {
      AcceptedIsCanonical(isRegularFile, size, text, isCertificate);
    }
    if isRegularFile && size <= MAX_INPUT_BYTES && 1 <= |list| <= MAX_CERTIFICATES {
      LoadIsParsed(size, text, isCertificate);
      ParsedExact(CERTIFICATE, text, CertificateIn(isCertificate), list);
    }
  }

  /** After good pieces, text without a further begin marker is accepted exactly if it is blank. */
  lemma TailExact(size: nat, text: string, isCertificate: seq<Byte> -> bool, pieces: seq<Piece>, list: seq<seq<Byte>>,
                  tail: string)
    requires size <= 16 * 1024 * 1024 && Lacks(tail, CERTIFICATE.begin)
    requires StartsGood(CERTIFICATE, text, CertificateIn(isCertificate), pieces, list, tail)
    ensures Load(true, size, text, isCertificate) ==
            if !IsBlank(tail) then Err(TrailingData) else if list == [] then Err(Empty) else Ok(list)
  {
    LoadIsParsed(size, text, isCertificate);
    TailParsed(CERTIFICATE, text, CertificateIn(isCertificate), pieces, list, tail);
  }

  /** After good pieces, anything but blanks in front of the next begin marker is refused. */
  lemma GapIsRefused(size: nat, text: string, isCertificate: seq<Byte> -> bool, pieces: seq<Piece>,
                     list: seq<seq<Byte>>, gap: string, more: string)
    requires size <= 16 * 1024 * 1024 && EndsAt(gap, CERTIFICATE.begin) && !IsBlank(gap)
    requires StartsGood(CERTIFICATE, text, CertificateIn(isCertificate), pieces, list, gap + CERTIFICATE.begin + more)
    ensures Load(true, size, text, isCertificate) == Err(NonPemData)
  {
    LoadIsParsed(size, text, isCertificate);
    GapParsed(CERTIFICATE, text, CertificateIn(isCertificate), pieces, list, gap, more);
  }

  /** After good pieces, a begin marker without an end marker is refused. */
  lemma OpenItemIsRefused(size: nat, text: string, isCertificate: seq<Byte> -> bool, pieces: seq<Piece>,
                          list: seq<seq<Byte>>, gap: string, more: string)
    requires size <= 16 * 1024 * 1024 && IsBlank(gap) && Lacks(more, CERTIFICATE.end)
    requires StartsGood(CERTIFICATE, text, CertificateIn(isCertificate), pieces, list, gap + CERTIFICATE.begin + more)
    ensures Load(true, size, text, isCertificate) == Err(IncompletePem)
  {
    LoadIsParsed(size, text, isCertificate);
    OpenItemParsed(CERTIFICATE, text, CertificateIn(isCertificate), pieces, list, gap, more);
  }

  /** After good pieces, an item that is not base64, not a certificate, or the 65th is refused. */
  lemma BadItemIsRefused(size: nat, text: string, isCertificate: seq<Byte> -> bool, pieces: seq<Piece>,
                         list: seq<seq<Byte>>, p: Piece, after: string)
    requires size <= 16 * 1024 * 1024 && IsBlank(p.gap) && EndsAt(p.body, CERTIFICATE.end)
    requires StartsGood(CERTIFICATE, text, CertificateIn(isCertificate), pieces, list,
                        p.gap + CERTIFICATE.begin + (p.body + CERTIFICATE.end + after))
    ensures var content := ContentOf(p.body);
            && (content.None? ==> Load(true, size, text, isCertificate) == Err(InvalidItem))
            && (content.Some? && !isCertificate(content.value) ==>
                  Load(true, size, text, isCertificate) == Err(InvalidCertificate))
            && (content.Some? && isCertificate(content.value) && |list| == 64 ==>
                  Load(true, size, text, isCertificate) == Err(TooMany))
  {
    ItemExact(p.body, isCertificate);
    LoadIsParsed(size, text, isCertificate);
    ItemParsed(CERTIFICATE, text, CertificateIn(isCertificate), pieces, list, p, after);
  }

  // ----- printed text and what follows it -----

  /** A printed list is pieces separated by newlines, with a newline at the end. */
  lemma {:induction false} PrintedIsJoined(list: seq<seq<Byte>>, lead: string, isCertificate: seq<Byte> -> bool)
    returns (pieces: seq<Piece>)
    requires list != [] && IsBlank(lead) && forall der | der in list :: isCertificate(der)
    ensures lead + PrintedWith(CERTIFICATE, list) == Joined(CERTIFICATE, pieces) + "\n"
    ensures AreGood(CERTIFICATE, CertificateIn(isCertificate), pieces, list)
    decreases |list|
  {
    var p := Piece(lead, "\n" + Wrapped(Encode(list[0])));
    PrintedPieceIsGood(lead, list[0], isCertificate);
    EntryMovesOver(CERTIFICATE, lead, list, 0);
    assert list[0..] == list;
    EntryIsPiece(CERTIFICATE, lead, list[0]);
    if |list| == 1 {
      pieces := [p];
      assert PrintedWith(CERTIFICATE, list[1..]) == "" && pieces[1..] == [];
    } else {
      var more := PrintedIsJoined(list[1..], "\n", isCertificate);
      pieces := [p] + more;
      assert pieces[1..] == more;
      FirstThenMore(CERTIFICATE, lead, list, p, more);
    }
  }

  lemma PrintedPieceIsGood(lead: string, der: seq<Byte>, isCertificate: seq<Byte> -> bool)
    requires IsBlank(lead) && isCertificate(der)
    ensures IsGood(CERTIFICATE, CertificateIn(isCertificate), Piece(lead, "\n" + Wrapped(Encode(der))), der)
  {
    BodyIsRead(der);
    DashlessEndsAt("\n" + Wrapped(Encode(der)), CERTIFICATE.end);
  }

  lemma EntryIsPiece(m: Markers, lead: string, der: seq<Byte>)
    ensures lead + Entry(m, der) == PieceText(m, Piece(lead, "\n" + Wrapped(Encode(der)))) + "\n"
  {
    var wrapped := Wrapped(Encode(der));
    assert Entry(m, der) == m.begin + "\n" + wrapped + m.end + "\n";
  }

  lemma FirstThenMore(m: Markers, lead: string, list: seq<seq<Byte>>, p: Piece, more: seq<Piece>)
    requires list != [] && lead + Entry(m, list[0]) == PieceText(m, p) + "\n"
    requires lead + PrintedWith(m, list) == lead + Entry(m, list[0]) + PrintedWith(m, list[1..])
    requires "\n" + PrintedWith(m, list[1..]) == Joined(m, more) + "\n"
    ensures lead + PrintedWith(m, list) == Joined(m, [p] + more) + "\n"
  {
    Chained(lead + Entry(m, list[0]), PieceText(m, p), PrintedWith(m, list[1..]), Joined(m, more), "\n");
    assert ([p] + more)[1..] == more;
  }

  lemma Chained(entry: string, piece: string, rest: string, joined: string, newline: string)
    requires entry == piece + newline && newline + rest == joined + newline
    ensures entry + rest == piece + joined + newline
  {
    Associate(piece, newline, rest);
    Associate(piece, joined, newline);
  }

  lemma NewlineLacks(tail: string, marker: Marker)
    requires Lacks(tail, marker)
    ensures Lacks("\n" + tail, marker)
  {
    var all := "\n" + tail;
    forall k: nat ensures !At(all, marker, k) {
      StartsWithDash(all, marker, k);
      if k > 0 {
        assert all[1..] == tail;
        AtInTail(all, marker, 1, k - 1);
      }
    }
  }

  /** A printed list followed by text without a begin marker is read as the list exactly if that text is blank. */
  lemma PrintedThenTail(list: seq<seq<Byte>>, tail: string, size: nat, isCertificate: seq<Byte> -> bool)
    requires 1 <= |list| <= 64 && size <= 16 * 1024 * 1024
    requires (forall der | der in list :: isCertificate(der)) && Lacks(tail, CERTIFICATE.begin)
    ensures Load(true, size, Printed(list) + tail, isCertificate) ==
            if IsBlank(tail) then Ok(list) else Err(TrailingData)
  {
    var pieces := PrintedIsJoined(list, "", isCertificate);
    var left := "\n" + tail;
    assert "" + Printed(list) == Printed(list);
    Associate(Joined(CERTIFICATE, pieces), "\n", tail);
    NewlineLacks(tail, CERTIFICATE.begin);
    TailExact(size, Printed(list) + tail, isCertificate, pieces, list, left);
    NewlineIsBlank(tail);
  }

  lemma NewlineIsBlank(tail: string)
    ensures IsBlank("\n" + tail) <==> IsBlank(tail)
  {
    assert forall c :: c in "\n" + tail <==> c == '\n' || c in tail;
  }
}
