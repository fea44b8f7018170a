/** That the head of a CGI response is found at the same place however its bytes arrive, and when. */
module CgiChunking {
  import opened Wrappers
  import opened Bytes
  import opened CgiHead

  /** The bytes a schedule delivers. */
  function Delivered(schedule: seq<Delivery>): bytes {
    if schedule == [] then []
    else (if schedule[0].Chunk? then schedule[0].data else []) + Delivered(schedule[1..])
  }

  predicate GoodChunk(d: Delivery) {
    d.Chunk? && 0 < |d.data| <= CHUNK
  }

  /** `schedule` delivers `stream` in reads that fit the buffer of the loop, then the end. */
  predicate Chunking(schedule: seq<Delivery>, stream: bytes) {
    (forall i | 0 <= i < |schedule| :: GoodChunk(schedule[i])) && Delivered(schedule) == stream
  }

  predicate CutAt(stream: bytes, n: nat, i: nat, width: nat)
    requires n <= |stream| && i + width <= |stream|
  {
    Cut(stream[..n]) == if n < i + width then None else Some((stream[..i], stream[i + width..n]))
  }

  /** A later prefix may be cut elsewhere, but only at a head that is then refused. */
  predicate CutOrRefused(stream: bytes, n: nat, i: nat, width: nat)
    requires n <= |stream| && i + width <= |stream|
  {
    || CutAt(stream, n, i, width)
    || (n > i + width && Cut(stream[..n]).Some? && HeadOf(Cut(stream[..n]).value.0, []).Err?)
  }

  /** The first blank line of the stream ends the head at `i` and is `width` bytes wide. */
  predicate Ends(stream: bytes, i: nat, width: nat) {
    0 < width && i + width <= |stream| && forall n | 0 <= n <= |stream| :: CutOrRefused(stream, n, i, width)
  }

  /** The longest prefix that can be in the buffer when the blank line is first complete: all of it but its
      last byte, and one more read. */
  function Reach(stream: bytes, i: nat, width: nat): nat
    requires 0 < width
  {
    if i + width - 1 + CHUNK < |stream| then i + width - 1 + CHUNK else |stream|
  }

  /** Every prefix within reach is cut at that blank line. */
  predicate Stable(stream: bytes, i: nat, width: nat) {
    && 0 < width && i + width <= |stream|
    && forall n | 0 <= n <= Reach(stream, i, width) :: CutAt(stream, n, i, width)
  }

  /** The outcome for the head `stream[..i]`, with no byte of the body lost, repeated or reordered. */
  predicate Agrees(outcome: (Result<Response, BackendError>, seq<Delivery>), stream: bytes, i: nat, width: nat)
    requires i + width <= |stream|
  {
    match HeadOf(stream[..i], [])
    case Err(error) => outcome.0 == Err(error)
    case Ok(head) =>
      && outcome.0.Ok?
      && outcome.0.value == head.(prefix := outcome.0.value.prefix)
      && outcome.0.value.prefix + Delivered(outcome.1) == stream[i + width..]
  }

  /** The body only rides along. */
  lemma HeadOfBody(head: bytes, body: bytes)
    ensures HeadOf(head, body) == match HeadOf(head, [])
                                  case Err(error) => Err(error)
                                  case Ok(r) => Ok(r.(prefix := body))
  {
    ReadLinesBody(200, [], [], body, Split<byte>(head, LF));
    hide ReadLines, Split, HasLocation;
  }

  lemma {:induction false} ReadLinesBody(
      status: nat, headers: seq<Header>, prefix: bytes, body: bytes, lines: seq<bytes>)
    ensures ReadLines(Response(status, headers, body), lines)
         == match ReadLines(Response(status, headers, prefix), lines)
            case Err(error) => Err(error)
            case Ok(r) => Ok(r.(prefix := body))
    decreases |lines|
  {
    if lines == [] {
    } else {
      hide ReadLine;
      match ReadLine(lines[0])
      case None =>
      case Some(StatusLine(code)) => ReadLinesBody(code, headers, prefix, body, lines[1..]);
      case Some(HeaderLine(h)) => ReadLinesBody(status, headers + [h], prefix, body, lines[1..]);
    }
  }

  lemma HeadError(head: bytes, body: bytes)
    ensures HeadOf(head, body).Err? ==> HeadOf(head, body) == Err(InvalidResponse)
  {
    ReadLinesError(Response(200, [], body), Split<byte>(head, LF));
    hide ReadLines;
  }

  lemma {:induction false} ReadLinesError(head: Response, lines: seq<bytes>)
    ensures ReadLines(head, lines).Err? ==> ReadLines(head, lines) == Err(InvalidResponse)
    decreases |lines|
  {
    if lines == [] {
    } else {
      hide ReadLine;
      match ReadLine(lines[0])
      case None =>
      case Some(StatusLine(code)) => ReadLinesError(head.(status := code), lines[1..]);
      case Some(HeaderLine(h)) => ReadLinesError(head.(headers := head.headers + [h]), lines[1..]);
    }
  }

  /** One read. */
  lemma OneRead(buffer: bytes, schedule: seq<Delivery>, max: nat)
    requires schedule != [] && GoodChunk(schedule[0])
    ensures var buffer' := buffer + schedule[0].data;
      match Cut(buffer')
      case Some((head, body)) => Outcome(buffer, schedule, max) == (HeadOf(head, body), schedule[1..])
      case None =>
        Outcome(buffer, schedule, max)
        == if |buffer'| > max then (Err(InvalidResponse), schedule[1..]) else Outcome(buffer', schedule[1..], max)
  {
    hide Cut, HeadOf;
  }

  /** However the rest of the stream arrives, the head is found where it is. */
  lemma {:induction false} ChunksRead(
      buffer: bytes, schedule: seq<Delivery>, stream: bytes, i: nat, width: nat, max: nat)
    requires Stable(stream, i, width)
    requires |buffer| < i + width && |buffer| <= |stream| && buffer == stream[..|buffer|]
    requires Chunking(schedule, stream[|buffer|..])
    requires i + width - 1 <= max || HeadOf(stream[..i], []).Err?
    ensures Agrees(Outcome(buffer, schedule, max), stream, i, width)
    decreases |schedule|
  {
    hide HeadOf, CutAt, Outcome;
    assert schedule != [];
    var rest := stream[|buffer|..];
    var data := schedule[0].data;
    NextPrefix(buffer, schedule, stream);
    var n := |buffer| + |data|;
    OneRead(buffer, schedule, max);
    assert CutAt(stream, n, i, width);
    if n < i + width {
      NoCut(stream, n, i, width);
      if n > max {
        HeadError(stream[..i], []);
      } else {
        ChunksRead(stream[..n], schedule[1..], stream, i, width, max);
      }
    } else {
      FoundCut(stream, n, i, width, buffer, schedule, max);
    }
  }

  lemma NextPrefix(buffer: bytes, schedule: seq<Delivery>, stream: bytes)
    requires |buffer| <= |stream| && buffer == stream[..|buffer|]
    requires schedule != [] && Chunking(schedule, stream[|buffer|..])
    ensures GoodChunk(schedule[0])
    ensures var n := |buffer| + |schedule[0].data|;
      n <= |stream| && buffer + schedule[0].data == stream[..n] && Chunking(schedule[1..], stream[n..])
  {
    var data, rest := schedule[0].data, stream[|buffer|..];
    assert GoodChunk(schedule[0]);
    assert rest == data + Delivered(schedule[1..]);
    assert stream == buffer + rest;
    assert rest[|data|..] == Delivered(schedule[1..]);
    assert forall k | 0 <= k < |schedule[1..]| :: schedule[1..][k] == schedule[k + 1];
  }

  lemma NoCut(stream: bytes, n: nat, i: nat, width: nat)
    requires i + width <= |stream| && n < i + width && CutAt(stream, n, i, width)
    ensures Cut(stream[..n]) == None
  {
    hide Cut;
  }

  lemma FoundCut(stream: bytes, n: nat, i: nat, width: nat, buffer: bytes, schedule: seq<Delivery>, max: nat)
    requires i + width <= n <= |stream| && CutAt(stream, n, i, width)
    requires schedule != [] && GoodChunk(schedule[0]) && buffer + schedule[0].data == stream[..n]
    requires Delivered(schedule[1..]) == stream[n..]
    ensures Agrees(Outcome(buffer, schedule, max), stream, i, width)
  {
    assert Cut(stream[..n]) == Some((stream[..i], stream[i + width..n]));
    hide *;
    OneRead(buffer, schedule, max);
    Parted(stream, i + width, n);
    AgreesOn(Outcome(buffer, schedule, max), stream, i, width, stream[i + width..n]);
  }

  lemma Parted(stream: bytes, i: nat, n: nat)
    requires i <= n <= |stream|
    ensures stream[i..n] + stream[n..] == stream[i..]
  {
  }

  lemma AgreesOn(
      outcome: (Result<Response, BackendError>, seq<Delivery>), stream: bytes, i: nat, width: nat, part: bytes)
    requires i + width <= |stream|
    requires outcome.0 == HeadOf(stream[..i], part) && part + Delivered(outcome.1) == stream[i + width..]
    ensures Agrees(outcome, stream, i, width)
  {
    HeadOfBody(stream[..i], part);
    hide HeadOf, Delivered;
  }

  /** Whatever the reads, the stream is read as its head and body or refused. */
  lemma {:induction false} ChunksReadOrRefused(
      buffer: bytes, schedule: seq<Delivery>, stream: bytes, i: nat, width: nat, max: nat)
    requires Ends(stream, i, width)
    requires |buffer| < i + width && |buffer| <= |stream| && buffer == stream[..|buffer|]
    requires Chunking(schedule, stream[|buffer|..])
    ensures var outcome := Outcome(buffer, schedule, max);
      Agrees(outcome, stream, i, width) || outcome.0 == Err(InvalidResponse)
    decreases |schedule|
  {
    hide HeadOf, CutOrRefused, CutAt, Outcome;
    assert schedule != [];
    NextPrefix(buffer, schedule, stream);
    var n := |buffer| + |schedule[0].data|;
    OneRead(buffer, schedule, max);
    assert CutOrRefused(stream, n, i, width);
    if n < i + width {
      NoCutYet(stream, n, i, width);
      if n <= max {
        ChunksReadOrRefused(stream[..n], schedule[1..], stream, i, width, max);
      }
    } else if CutAt(stream, n, i, width) {
      FoundCut(stream, n, i, width, buffer, schedule, max);
    } else {
      RefusedCut(stream, n, i, width, buffer, schedule, max);
    }
  }

  lemma NoCutYet(stream: bytes, n: nat, i: nat, width: nat)
    requires i + width <= |stream| && n < i + width && CutOrRefused(stream, n, i, width)
    ensures Cut(stream[..n]) == None
  {
    hide Cut, HeadOf;
  }

  lemma RefusedCut(stream: bytes, n: nat, i: nat, width: nat, buffer: bytes, schedule: seq<Delivery>, max: nat)
    requires i + width <= n <= |stream| && CutOrRefused(stream, n, i, width) && !CutAt(stream, n, i, width)
    requires schedule != [] && GoodChunk(schedule[0]) && buffer + schedule[0].data == stream[..n]
    ensures Outcome(buffer, schedule, max).0 == Err(InvalidResponse)
  {
    var (head, body) := Cut(stream[..n]).value;
    OneRead(buffer, schedule, max);
    HeadOfBody(head, body);
    HeadError(head, body);
    hide Cut, HeadOf, Outcome;
  }

  /** A head beyond the limit by a whole read is refused under every chunking. */
  lemma {:induction false} ChunksTooLong(
      buffer: bytes, schedule: seq<Delivery>, stream: bytes, i: nat, width: nat, max: nat)
    requires Ends(stream, i, width) && max + CHUNK < i + width
    requires |buffer| <= max && |buffer| <= |stream| && buffer == stream[..|buffer|]
    requires Chunking(schedule, stream[|buffer|..])
    ensures Outcome(buffer, schedule, max).0 == Err(InvalidResponse)
    decreases |schedule|
  {
    hide CutOrRefused, Outcome, Cut;
    assert schedule != [];
    NextPrefix(buffer, schedule, stream);
    var n := |buffer| + |schedule[0].data|;
    OneRead(buffer, schedule, max);
    assert CutOrRefused(stream, n, i, width);
    NoCutYet(stream, n, i, width);
    hide Chunking;
    if n <= max {
      ChunksTooLong(stream[..n], schedule[1..], stream, i, width, max);
    }
  }

  /* Two ways for the bytes to arrive. */

  /** A byte at a time. */
  function Bytewise(stream: bytes): seq<Delivery> {
    if stream == [] then [] else [Chunk([stream[0]])] + Bytewise(stream[1..])
  }

  /** A byte at a time up to `k`, then everything up to `n` at once, then a byte at a time. */
  function Stepwise(stream: bytes, k: nat, n: nat): seq<Delivery>
    requires k <= n <= |stream|
  {
    Bytewise(stream[..k]) + ([Chunk(stream[k..n])] + Bytewise(stream[n..]))
  }

  lemma {:induction false} BytewiseChunking(stream: bytes)
    ensures Chunking(Bytewise(stream), stream)
  {
    if stream == [] {
    } else {
      BytewiseChunking(stream[1..]);
      assert Bytewise(stream)[1..] == Bytewise(stream[1..]);
      assert [stream[0]] + stream[1..] == stream;
    }
  }

  lemma {:induction false} ChunkingAppend(a: seq<Delivery>, s: bytes, b: seq<Delivery>, t: bytes)
    requires Chunking(a, s) && Chunking(b, t)
    ensures Chunking(a + b, s + t)
  {
    DeliveredAppend(a, b);
    hide GoodChunk, Delivered;
    assert forall i | |a| <= i < |a + b| :: (a + b)[i] == b[i - |a|];
  }

  lemma {:induction false} DeliveredAppend(a: seq<Delivery>, b: seq<Delivery>)
    ensures Delivered(a + b) == Delivered(a) + Delivered(b)
  {
    if a == [] {
      assert a + b == b;
    } else {
      assert (a + b)[1..] == a[1..] + b;
      DeliveredAppend(a[1..], b);
    }
  }

  lemma StepwiseChunking(stream: bytes, k: nat, n: nat)
    requires k < n <= |stream| && n - k <= CHUNK
    ensures Chunking(Stepwise(stream, k, n), stream)
  {
    var one := [Chunk(stream[k..n])];
    assert one[1..] == [] && Delivered(one) == stream[k..n] + [] == stream[k..n];
    BytewiseChunking(stream[..k]);
    BytewiseChunking(stream[n..]);
    hide Delivered, Bytewise;
    ChunkingAppend(one, stream[k..n], Bytewise(stream[n..]), stream[n..]);
    Parted(stream, k, n);
    ChunkingAppend(Bytewise(stream[..k]), stream[..k], one + Bytewise(stream[n..]), stream[k..]);
    assert stream[..k] + stream[k..] == stream;
  }

  /** Single bytes within the limit are all taken in, up to the first blank line. */
  lemma {:induction false} BytesTaken(stream: bytes, p: nat, k: nat, rest: seq<Delivery>, max: nat)
    requires p <= k <= |stream| && k <= max
    requires forall m | p < m <= k :: Cut(stream[..m]) == None
    ensures Outcome(stream[..p], Bytewise(stream[p..k]) + rest, max) == Outcome(stream[..k], rest, max)
    decreases k - p
  {
    hide Cut, Outcome;
    if p == k {
      assert stream[p..k] == [] && [] + rest == rest;
    } else {
      var part := stream[p..k];
      assert part[1..] == stream[p + 1..k];
      var schedule := Bytewise(part) + rest;
      assert schedule[1..] == Bytewise(part[1..]) + rest;
      assert stream[..p] + [part[0]] == stream[..p + 1];
      OneRead(stream[..p], schedule, max);
      BytesTaken(stream, p + 1, k, rest, max);
    }
  }

  lemma StepwiseReads(stream: bytes, k: nat, n: nat, i: nat, width: nat, max: nat)
    requires Ends(stream, i, width) && k <= max && k < i + width <= n <= |stream|
    ensures var outcome := Outcome([], Stepwise(stream, k, n), max);
      && (n - k <= CHUNK && CutAt(stream, n, i, width) ==> Agrees(outcome, stream, i, width))
      && (n - k <= CHUNK && !CutAt(stream, n, i, width) ==> outcome.0 == Err(InvalidResponse))
  {
    hide HeadOf, CutAt, CutOrRefused, Outcome, Agrees;
    var rest := [Chunk(stream[k..n])] + Bytewise(stream[n..]);
    forall m | 0 < m <= k ensures Cut(stream[..m]) == None {
      assert CutOrRefused(stream, m, i, width);
      NoCutYet(stream, m, i, width);
    }
    BytesTaken(stream, 0, k, rest, max);
    assert stream[..0] == [] && stream[0..k] == stream[..k];
    if n - k <= CHUNK {
      BytewiseChunking(stream[n..]);
      assert rest[1..] == Bytewise(stream[n..]);
      assert stream[..k] + stream[k..n] == stream[..n];
      if CutAt(stream, n, i, width) {
        FoundCut(stream, n, i, width, stream[..k], rest, max);
      } else {
        assert CutOrRefused(stream, n, i, width);
        RefusedCut(stream, n, i, width, stream[..k], rest, max);
      }
    }
  }

  /** Past the limit, a stream that comes byte by byte is refused before its head is complete. */
  lemma {:induction false} BytewiseRefused(stream: bytes, n: nat, i: nat, width: nat, max: nat)
    requires Ends(stream, i, width) && max < i + width - 1 && n <= max
    ensures Outcome(stream[..n], Bytewise(stream[n..]), max).0 == Err(InvalidResponse)
    decreases max - n
  {
    var rest := stream[n..];
    assert rest[1..] == stream[n + 1..] && Bytewise(rest)[1..] == Bytewise(rest[1..]);
    assert stream[..n] + [rest[0]] == stream[..n + 1];
    OneRead(stream[..n], Bytewise(rest), max);
    assert CutOrRefused(stream, n + 1, i, width);
    NoCutYet(stream, n + 1, i, width);
    hide Cut, CutOrRefused, Outcome;
    if n + 1 <= max {
      BytewiseRefused(stream, n + 1, i, width, max);
    }
  }

  /* When the answer depends on the reads. */

  /** Every chunking yields the head at `i` and its body. */
  ghost predicate AlwaysRead(stream: bytes, i: nat, width: nat, max: nat)
    requires i + width <= |stream|
  {
    forall schedule | Chunking(schedule, stream) :: Agrees(Outcome([], schedule, max), stream, i, width)
  }

  /** No chunking yields anything. */
  ghost predicate AlwaysRefused(stream: bytes, max: nat) {
    forall schedule | Chunking(schedule, stream) :: Outcome([], schedule, max).0 == Err(InvalidResponse)
  }

  /** What a caller can tell apart: the error, or the status and the headers. */
  function Answer(outcome: (Result<Response, BackendError>, seq<Delivery>)): Result<Response, BackendError> {
    match outcome.0
    case Err(error) => Err(error)
    case Ok(r) => Ok(r.(prefix := []))
  }

  ghost predicate SameAnswer(stream: bytes, max: nat) {
    forall a, b | Chunking(a, stream) && Chunking(b, stream) ::
      Answer(Outcome([], a, max)) == Answer(Outcome([], b, max))
  }

  lemma ReadsAgree(stream: bytes, i: nat, width: nat, max: nat)
    requires Stable(stream, i, width)
    requires i + width - 1 <= max
    ensures AlwaysRead(stream, i, width, max)
  {
    hide Outcome, HeadOf, Chunking, CutAt, Agrees;
    assert stream[0..] == stream && stream[..0] == [];
    forall schedule | Chunking(schedule, stream)
      ensures Agrees(Outcome([], schedule, max), stream, i, width)
    {
      ChunksRead([], schedule, stream, i, width, max);
    }
  }

  /** Some chunking is read, unless the head is beyond the limit by a whole read. */
  lemma SomeRead(stream: bytes, i: nat, width: nat, max: nat) returns (schedule: seq<Delivery>)
    requires Ends(stream, i, width) && i + width <= max + CHUNK
    ensures Chunking(schedule, stream) && Agrees(Outcome([], schedule, max), stream, i, width)
  {
    hide CutAt, CutOrRefused, Stepwise, Chunking, Outcome, Agrees;
    var k := if max < i + width - 1 then max else i + width - 1;
    assert CutOrRefused(stream, i + width, i, width);
    CutThere(stream, i, width);
    schedule := Stepwise(stream, k, i + width);
    StepwiseChunking(stream, k, i + width);
    StepwiseReads(stream, k, i + width, i, width, max);
  }

  lemma CutThere(stream: bytes, i: nat, width: nat)
    requires i + width <= |stream| && CutOrRefused(stream, i + width, i, width)
    ensures CutAt(stream, i + width, i, width)
  {
    hide CutAt;
  }

  /** Some chunking is refused, unless the limit leaves room for all but the last byte of the blank line
      and every prefix within reach is cut there. */
  lemma SomeRefused(stream: bytes, i: nat, width: nat, max: nat) returns (schedule: seq<Delivery>)
    requires Ends(stream, i, width) && !(i + width - 1 <= max && Stable(stream, i, width))
    ensures Chunking(schedule, stream) && Outcome([], schedule, max).0 == Err(InvalidResponse)
  {
    hide CutAt, CutOrRefused, Stepwise, Chunking, Outcome, Agrees, Bytewise;
    if max < i + width - 1 {
      schedule := Bytewise(stream);
      BytewiseChunking(stream);
      BytewiseRefused(stream, 0, i, width, max);
      assert stream[0..] == stream && stream[..0] == [];
    } else {
      var n :| 0 <= n <= Reach(stream, i, width) && !CutAt(stream, n, i, width);
      assert CutOrRefused(stream, n, i, width);
      LateCut(stream, n, i, width);
      schedule := Stepwise(stream, i + width - 1, n);
      StepwiseChunking(stream, i + width - 1, n);
      StepwiseReads(stream, i + width - 1, n, i, width, max);
    }
  }

  lemma LateCut(stream: bytes, n: nat, i: nat, width: nat)
    requires n <= |stream| && i + width <= |stream|
    requires CutOrRefused(stream, n, i, width) && !CutAt(stream, n, i, width)
    ensures i + width < n
  {
    hide CutAt;
  }

  lemma MalformedRefused(stream: bytes, i: nat, width: nat, max: nat)
    requires Ends(stream, i, width) && HeadOf(stream[..i], []).Err?
    ensures AlwaysRead(stream, i, width, max) && AlwaysRefused(stream, max)
  {
    HeadError(stream[..i], []);
    hide Outcome, HeadOf, Chunking, CutOrRefused;
    assert stream[0..] == stream && stream[..0] == [];
    forall schedule | Chunking(schedule, stream)
      ensures Agrees(Outcome([], schedule, max), stream, i, width)
      ensures Outcome([], schedule, max).0 == Err(InvalidResponse)
    {
      ChunksReadOrRefused([], schedule, stream, i, width, max);
    }
  }

  lemma TooLongRefused(stream: bytes, i: nat, width: nat, max: nat)
    requires Ends(stream, i, width) && max + CHUNK < i + width
    ensures AlwaysRefused(stream, max)
  {
    hide Outcome, Chunking, CutOrRefused;
    assert stream[0..] == stream && stream[..0] == [];
    forall schedule | Chunking(schedule, stream)
      ensures Outcome([], schedule, max).0 == Err(InvalidResponse)
    {
      ChunksTooLong([], schedule, stream, i, width, max);
    }
  }

  /** A stream is read under every chunking exactly when its head is within the limit and every prefix in
      reach is cut there, and refused under every chunking exactly when its head is beyond the limit by a
      whole read; a malformed head is refused in any case. */
  lemma ChunkingExact(stream: bytes, i: nat, width: nat, max: nat)
    requires Ends(stream, i, width)
    ensures AlwaysRead(stream, i, width, max)
       <==> HeadOf(stream[..i], []).Err? || (i + width - 1 <= max && Stable(stream, i, width))
    ensures AlwaysRefused(stream, max) <==> HeadOf(stream[..i], []).Err? || max + CHUNK < i + width
  {
    hide Outcome, HeadOf, Chunking, CutAt, CutOrRefused;
    if HeadOf(stream[..i], []).Err? {
      MalformedRefused(stream, i, width, max);
    } else {
      if i + width - 1 <= max && Stable(stream, i, width) {
        ReadsAgree(stream, i, width, max);
      } else {
        var refused := SomeRefused(stream, i, width, max);
        assert !Agrees(Outcome([], refused, max), stream, i, width);
      }
      if max + CHUNK < i + width {
        TooLongRefused(stream, i, width, max);
      } else {
        var read := SomeRead(stream, i, width, max);
        assert Outcome([], read, max).0 != Err(InvalidResponse);
      }
    }
  }

  /** So the answer is independent of the reads exactly in these two cases; in every other case some
      chunking is read and another refused. */
  lemma ChunkingSame(stream: bytes, i: nat, width: nat, max: nat)
    requires Ends(stream, i, width)
    ensures SameAnswer(stream, max) <==> AlwaysRead(stream, i, width, max) || AlwaysRefused(stream, max)
  {
    ChunkingExact(stream, i, width, max);
    hide Outcome, HeadOf, Chunking, CutAt, CutOrRefused, Ends, Stable;
    if !AlwaysRead(stream, i, width, max) && !AlwaysRefused(stream, max) {
      var refused := SomeRefused(stream, i, width, max);
      var read := SomeRead(stream, i, width, max);
      assert Answer(Outcome([], refused, max)) != Answer(Outcome([], read, max));
    } else if AlwaysRead(stream, i, width, max) {
      forall a, b | Chunking(a, stream) && Chunking(b, stream)
        ensures Answer(Outcome([], a, max)) == Answer(Outcome([], b, max))
      {
        assert Agrees(Outcome([], a, max), stream, i, width) && Agrees(Outcome([], b, max), stream, i, width);
      }
    }
  }

  /** However the reads go, fail or end, at most `max + 1024` bytes are taken in. */
  lemma {:induction false} BufferBounded(buffer: bytes, schedule: seq<Delivery>, max: nat)
    requires |buffer| <= max
    requires forall i | 0 <= i < |schedule| :: schedule[i].Chunk? ==> |schedule[i].data| <= CHUNK
    ensures |buffer| + |Delivered(schedule)| <= max + CHUNK + |Delivered(Outcome(buffer, schedule, max).1)|
    decreases |schedule|
  {
    hide Cut, HeadOf;
    if schedule != [] && schedule[0].Chunk? && schedule[0].data != [] {
      var buffer' := buffer + schedule[0].data;
      if Cut(buffer').None? && |buffer'| <= max {
        assert forall i | 0 <= i < |schedule[1..]| :: schedule[1..][i] == schedule[i + 1];
        BufferBounded(buffer', schedule[1..], max);
      }
    }
  }
}
