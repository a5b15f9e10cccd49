/** Bounded capture of a child process's output (src/process.rs). */
module ProcessCapture {
  import opened Wrappers
  import opened Serial

  datatype CapturedStream = CapturedStream(bytes: seq<Byte>, truncated: bool)

  const BUFFER_BYTES := 8192

  /** What a pipe has in store: bytes that arrive together, or an error. */
  datatype ReadEvent = Chunk(bytes: seq<Byte>) | Failure(error: string)

  class Reader {
    var pending: seq<ReadEvent>

    constructor (events: seq<ReadEvent>)
      ensures pending == events
    {
      pending := events;
    }

    /** Fills the front of the buffer from the next chunk; zero bytes mean the end of the stream. */
    method Read(buffer: array<Byte>) returns (r: Result<nat, string>)
      requires buffer.Length > 0
      modifies this, buffer
      ensures r.Err? ==> old(pending) != [] && old(pending)[0] == Failure(r.error)
      ensures r.Ok? ==> r.value <= buffer.Length && Took(old(pending), pending, buffer[..r.value])
    {
      if pending == [] { return Ok(0); }
      match pending[0]
      case Failure(error) =>
        pending := pending[1..];
        return Err(error);
      case Chunk(bytes) =>
        var n := if |bytes| <= buffer.Length then |bytes| else buffer.Length;
        forall i | 0 <= i < n { buffer[i] := bytes[i]; }
        pending := if n == |bytes| then pending[1..] else [Chunk(bytes[n..])] + pending[1..];
        assert buffer[..n] == bytes[..n];
        return Ok(n);
    }
  }

  /** One read took these bytes: the front of the first chunk, or none when nothing is pending. */
  ghost predicate Took(before: seq<ReadEvent>, after: seq<ReadEvent>, taken: seq<Byte>) {
    if before == [] then after == [] && taken == []
    else
      && before[0].Chunk?
      && taken <= before[0].bytes
      && (before[0].bytes != [] ==> taken != [])
      && after == if taken == before[0].bytes then before[1..]
                  else [Chunk(before[0].bytes[|taken|..])] + before[1..]
  }

  /** What a reader delivers in all: the bytes before its end or its first error. */
  datatype Delivery = Delivery(bytes: seq<Byte>, failure: Option<string>)

  ghost function Delivered(events: seq<ReadEvent>): Delivery {
    if events == [] then Delivery([], None)
    else
      match events[0]
      case Failure(error) => Delivery([], Some(error))
      case Chunk(bytes) =>
        if bytes == [] then Delivery([], None)
        else
          var rest := Delivered(events[1..]);
          Delivery(bytes + rest.bytes, rest.failure)
  }

  /** The first limit bytes, marked as truncated exactly when there were more; or the reader's error. */
  ghost function Capture(delivery: Delivery, limit: nat): Result<CapturedStream, string> {
    if delivery.failure.Some? then Err(delivery.failure.value)
    else Ok(CapturedStream(Front(delivery.bytes, limit), |delivery.bytes| > limit))
  }

  function Front(bytes: seq<Byte>, limit: nat): seq<Byte> {
    if |bytes| <= limit then bytes else bytes[..limit]
  }

  lemma ReadTakesFromTheFront(before: seq<ReadEvent>, after: seq<ReadEvent>, taken: seq<Byte>)
    requires Took(before, after, taken)
    ensures taken != [] ==> Delivered(before) == Delivery(taken + Delivered(after).bytes, Delivered(after).failure)
    ensures taken == [] ==> Delivered(before) == Delivery([], None)
    ensures taken != [] ==> Weight(after) < Weight(before)
  {
    if before != [] && taken != [] && taken != before[0].bytes {
      var left := before[0].bytes[|taken|..];
      assert before[0].bytes == taken + left && left != [];
      assert after[1..] == before[1..];
      assert taken + (left + Delivered(before[1..]).bytes) == taken + left + Delivered(before[1..]).bytes;
    }
  }

  ghost function Weight(events: seq<ReadEvent>): nat {
    if events == [] then 0 else (if events[0].Chunk? then |events[0].bytes| else 0) + 1 + Weight(events[1..])
  }

  method ReadBounded(reader: Reader, limit: nat) returns (result: Result<CapturedStream, string>)
    modifies reader
    ensures result == Capture(Delivered(old(reader.pending)), limit)
  {
    ghost var whole := Delivered(reader.pending);
    ghost var seen: seq<Byte> := [];
    var bytes: seq<Byte> := [];
    var truncated := false;
    var buffer := new Byte[BUFFER_BYTES](_ => 0);
    assert [] + whole.bytes == whole.bytes;
    while true
      invariant whole == Delivery(seen + Delivered(reader.pending).bytes, Delivered(reader.pending).failure)
      invariant bytes == Front(seen, limit)
      invariant truncated <==> |seen| > limit
      decreases Weight(reader.pending)
    {
      ghost var before := reader.pending;
      var read := reader.Read(buffer);
      if read.Err? { return Err(read.error); }
      ghost var taken := buffer[..read.value];
      ReadTakesFromTheFront(before, reader.pending, taken);
      if read.value == 0 { break; }
      var remaining := if limit < |bytes| then 0 else limit - |bytes|;
      var kept := if read.value < remaining then read.value else remaining;
      FrontGrows(seen, taken, limit);
      bytes := bytes + buffer[..kept];
      truncated := truncated || read.value > remaining;
      SeenGrows(seen, taken, Delivered(reader.pending).bytes);
      seen := seen + taken;
    }
    assert seen + [] == seen;
    result := Ok(CapturedStream(bytes, truncated));
  }

  lemma SeenGrows(seen: seq<Byte>, taken: seq<Byte>, rest: seq<Byte>)
    ensures seen + (taken + rest) == seen + taken + rest
  {
  }

  lemma FrontGrows(seen: seq<Byte>, taken: seq<Byte>, limit: nat)
    ensures var front := Front(seen, limit);
            var remaining := limit - |front|;
            var kept := if |taken| < remaining then |taken| else remaining;
            && remaining >= 0
            && Front(seen + taken, limit) == front + taken[..kept]
            && (|seen + taken| > limit <==> |seen| > limit || |taken| > remaining)
  {
  }

  ghost function Chunks(pieces: seq<seq<Byte>>): seq<ReadEvent> {
    if pieces == [] then [] else [Chunk(pieces[0])] + Chunks(pieces[1..])
  }

  ghost function Joined(pieces: seq<seq<Byte>>): seq<Byte> {
    if pieces == [] then [] else pieces[0] + Joined(pieces[1..])
  }

  /** However a stream is split into chunks, what is captured depends only on the bytes. */
  lemma {:induction false} ChunkingIsIrrelevant(pieces: seq<seq<Byte>>, limit: nat)
    requires forall i | 0 <= i < |pieces| :: pieces[i] != []
    ensures Capture(Delivered(Chunks(pieces)), limit)
            == Ok(CapturedStream(Front(Joined(pieces), limit), |Joined(pieces)| > limit))
  {
    ChunksDeliver(pieces);
  }

  lemma {:induction false} ChunksDeliver(pieces: seq<seq<Byte>>)
    requires forall i | 0 <= i < |pieces| :: pieces[i] != []
    ensures Delivered(Chunks(pieces)) == Delivery(Joined(pieces), None)
  {
    if pieces != [] {
      ChunksDeliver(pieces[1..]);
      assert Chunks(pieces)[1..] == Chunks(pieces[1..]);
    }
  }
}
