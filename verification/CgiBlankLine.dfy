/** Where the head of a CGI response ends, with CRLF or with LF line ends, and when that depends on the
    sizes of the reads. */
module CgiBlankLine {
  import opened Wrappers
  import opened Bytes
  import opened CgiHead
  import opened CgiChunking

  /* Where `Find` finds. */

  lemma {:induction false} FindFirst(s: bytes, part: bytes)
    requires part != []
    ensures var r := Find(s, part);
      && (r.Some? ==> OccursAt(s, part, r.value))
      && forall j | 0 <= j < (if r.Some? then r.value else |s|) :: !OccursAt(s, part, j)
  {
    if s != [] && !(part <= s) {
      FindFirst(s[1..], part);
      forall j | 1 <= j <= |s|
        ensures OccursAt(s, part, j) <==> OccursAt(s[1..], part, j - 1)
      {
        OccursLater(s, part, j);
      }
      hide OccursAt;
      assert !OccursAt(s, part, 0) by {
        NotAtStart(s, part);
      }
    }
  }

  lemma OccursLater(s: bytes, part: bytes, j: nat)
    requires 1 <= j <= |s|
    ensures OccursAt(s, part, j) <==> OccursAt(s[1..], part, j - 1)
  {
    if j + |part| <= |s| {
      assert s[1..][j - 1..j - 1 + |part|] == s[j..j + |part|];
    }
  }

  lemma NotAtStart(s: bytes, part: bytes)
    requires !(part <= s)
    ensures !OccursAt(s, part, 0)
  {
    if |part| <= |s| {
      assert s[0..|part|] == s[..|part|];
    }
  }

  lemma FindNone(s: bytes, part: bytes)
    requires part != []
    ensures Find(s, part) == None <==> forall j | 0 <= j < |s| :: !OccursAt(s, part, j)
  {
    FindFirst(s, part);
    hide Find;
  }

  lemma FindAt(s: bytes, part: bytes, i: nat)
    requires part != [] && OccursAt(s, part, i) && forall j | 0 <= j < i :: !OccursAt(s, part, j)
    ensures Find(s, part) == Some(i)
  {
    FindFirst(s, part);
    hide Find;
  }

  /* Heads with CRLF line ends. */

  /** No blank line before the end of the head. */
  predicate NoBlankLine(head: bytes) {
    Find(head + [CR, LF, CR], CRLF_CRLF) == None && Find(head, LF_LF) == None
  }

  /** The blank line of a head with CRLF line ends is found in the same place in every prefix of the
      stream, whatever the body holds. */
  lemma CrlfStable(head: bytes, body: bytes)
    requires NoBlankLine(head)
    ensures Ends(head + CRLF_CRLF + body, |head|, 4) && Stable(head + CRLF_CRLF + body, |head|, 4)
  {
    var stream := head + CRLF_CRLF + body;
    forall n | 0 <= n <= |stream|
      ensures CutAt(stream, n, |head|, 4) && CutOrRefused(stream, n, |head|, 4)
    {
      if n < |head| + 4 {
        CrlfBefore(head, body, n);
      } else {
        CrlfAfter(head, body, n);
      }
      hide Cut, HeadOf;
    }
    hide CutAt, CutOrRefused;
  }

  lemma CrlfBefore(head: bytes, body: bytes, n: nat)
    requires NoBlankLine(head) && n < |head| + 4
    ensures Cut((head + CRLF_CRLF + body)[..n]) == None
  {
    var stream := head + CRLF_CRLF + body;
    var s, open := stream[..n], head + [CR, LF, CR];
    FindNone(open, CRLF_CRLF);
    FindNone(s, CRLF_CRLF);
    FindNone(s, LF_LF);
    assert open == stream[..|open|] && s == open[..n];
    NoneInPrefix(open, n, CRLF_CRLF);
    NoLfPair(head);
    NoneInPrefix(open, n, LF_LF);
    hide Find, OccursAt, NoBlankLine;
  }

  lemma NoneInPrefix(s: bytes, n: nat, part: bytes)
    requires n <= |s| && forall j | 0 <= j < |s| :: !OccursAt(s, part, j)
    ensures forall j | 0 <= j < n :: !OccursAt(s[..n], part, j)
  {
    forall j | 0 <= j < n ensures !OccursAt(s[..n], part, j) {
      assert !OccursAt(s, part, j);
      if j + |part| <= n {
        assert s[..n][j..j + |part|] == s[j..j + |part|];
      }
    }
  }

  lemma NoLfPair(head: bytes)
    requires NoBlankLine(head)
    ensures var open := head + [CR, LF, CR]; forall j | 0 <= j < |open| :: !OccursAt(open, LF_LF, j)
  {
    var open := head + [CR, LF, CR];
    FindNone(head, LF_LF);
    forall j | 0 <= j < |open| ensures !OccursAt(open, LF_LF, j) {
      if j + 2 <= |head| {
        assert !OccursAt(head, LF_LF, j);
        assert open[j..j + 2] == head[j..j + 2];
      } else if j + 2 <= |open| {
        assert open[j] == CR || open[j + 1] == CR;
        assert open[j..j + 2][0] == open[j] && open[j..j + 2][1] == open[j + 1];
      }
    }
    hide Find;
  }

  lemma CrlfAfter(head: bytes, body: bytes, n: nat)
    requires NoBlankLine(head) && |head| + 4 <= n <= |head| + 4 + |body|
    ensures var stream := head + CRLF_CRLF + body;
      Cut(stream[..n]) == Some((stream[..|head|], stream[|head| + 4..n]))
  {
    BlankFound(head, CRLF_CRLF, head + [CR, LF, CR], body, n);
    hide Find;
  }

  /** A blank line is found where it stands when no earlier one can be made out of the head and its own
      first bytes. */
  lemma BlankFound(head: bytes, blank: bytes, open: bytes, body: bytes, n: nat)
    requires blank != [] && open == head + blank[..|blank| - 1] && Find(open, blank) == None
    requires |head| + |blank| <= n <= |head| + |blank| + |body|
    ensures var stream := head + blank + body;
      && Find(stream[..n], blank) == Some(|head|)
      && stream[..n][..|head|] == stream[..|head|]
      && stream[..n][|head| + |blank|..] == stream[|head| + |blank|..n]
  {
    var s := (head + blank + body)[..n];
    FindNone(open, blank);
    assert open == s[..|open|];
    forall j | 0 <= j < |head| ensures !OccursAt(s, blank, j) {
      assert !OccursAt(open, blank, j);
      OccursInPrefix(s, |open|, blank, j);
    }
    BlankLineThere(head, blank, body, n);
    hide Find, OccursAt;
    FindAt(s, blank, |head|);
  }

  lemma OccursInPrefix(s: bytes, n: nat, part: bytes, j: nat)
    requires n <= |s| && j + |part| <= n
    ensures OccursAt(s[..n], part, j) <==> OccursAt(s, part, j)
  {
    assert s[..n][j..j + |part|] == s[j..j + |part|];
  }

  lemma BlankLineThere(head: bytes, blank: bytes, body: bytes, n: nat)
    requires |head| + |blank| <= n <= |head| + |blank| + |body|
    ensures var stream := head + blank + body;
      && OccursAt(stream[..n], blank, |head|)
      && stream[..n][..|head|] == stream[..|head|]
      && stream[..n][|head| + |blank|..] == stream[|head| + |blank|..n]
  {
    var stream, rest := head + blank + body, body[..n - |head| - |blank|];
    assert stream[..n] == head + blank + rest;
    BlankInside(head, blank, rest);
    assert stream[|head| + |blank|..n] == rest;
    assert stream[..|head|] == head;
  }

  lemma BlankInside(head: bytes, blank: bytes, rest: bytes)
    ensures var s := head + blank + rest;
      OccursAt(s, blank, |head|) && s[..|head|] == head && s[|head| + |blank|..] == rest
  {
    assert (head + blank + rest)[|head|..|head| + |blank|] == blank;
  }

  /** A head with CRLF line ends and no earlier blank line: when every chunking is read, when none is, and
      that the answer depends on the reads in every other case. */
  lemma CrlfChunking(head: bytes, body: bytes, max: nat)
    requires NoBlankLine(head)
    ensures var stream := head + CRLF_CRLF + body;
      && (AlwaysRead(stream, |head|, 4, max) <==> HeadOf(head, []).Err? || |head| + 3 <= max)
      && (AlwaysRefused(stream, max) <==> HeadOf(head, []).Err? || max + CHUNK < |head| + 4)
      && (SameAnswer(stream, max) <==> AlwaysRead(stream, |head|, 4, max) || AlwaysRefused(stream, max))
  {
    var stream := head + CRLF_CRLF + body;
    CrlfStable(head, body);
    ChunkingExact(stream, |head|, 4, max);
    ChunkingSame(stream, |head|, 4, max);
    assert stream[..|head|] == head;
    hide *;
  }

  /* Heads with LF line ends. */

  /** No blank line of either kind before the second LF of the pair that ends the head. */
  predicate LfHead(head: bytes) {
    Find(head + [LF], LF_LF) == None && Find(head + [LF], CRLF_CRLF) == None
  }

  /** The bytes that can be in the buffer when the LF pair is first complete. */
  function WithinReach(stream: bytes, head: bytes): bytes {
    stream[..Reach(stream, |head|, 2)]
  }

  lemma LfEnds(head: bytes, body: bytes)
    requires LfHead(head)
    ensures Ends(head + LF_LF + body, |head|, 2)
    ensures Stable(head + LF_LF + body, |head|, 2)
       <==> Find(WithinReach(head + LF_LF + body, head), CRLF_CRLF) == None
  {
    var stream := head + LF_LF + body;
    var reach := Reach(stream, |head|, 2);
    hide Find, LfHead;
    forall n | 0 <= n <= |stream|
      ensures CutOrRefused(stream, n, |head|, 2)
      ensures CutAt(stream, n, |head|, 2) <==> Find(stream[..n], CRLF_CRLF) == None
    {
      LfPrefix(head, body, n);
    }
    hide CutAt, CutOrRefused;
    if Find(stream[..reach], CRLF_CRLF) == None {
      forall n | 0 <= n <= reach ensures CutAt(stream, n, |head|, 2) {
        FindShorter(stream, n, reach, CRLF_CRLF);
      }
    }
  }

  lemma FindShorter(s: bytes, n: nat, m: nat, part: bytes)
    requires part != [] && n <= m <= |s| && Find(s[..m], part) == None
    ensures Find(s[..n], part) == None
  {
    FindNone(s[..m], part);
    NoneInPrefix(s[..m], n, part);
    assert s[..m][..n] == s[..n];
    FindNone(s[..n], part);
    hide Find;
  }

  /** One prefix: it is cut at the LF pair, unless it holds a CRLF pair, and then it is cut behind an empty
      line, which is refused. */
  lemma LfPrefix(head: bytes, body: bytes, n: nat)
    requires LfHead(head) && n <= |head| + 2 + |body|
    ensures var stream := head + LF_LF + body;
      && CutOrRefused(stream, n, |head|, 2)
      && (CutAt(stream, n, |head|, 2) <==> Find(stream[..n], CRLF_CRLF) == None)
  {
    hide Find, Cut, HeadOf, CutAt, CutOrRefused, LfHead;
    match Find((head + LF_LF + body)[..n], CRLF_CRLF)
    case None => LfPrefixPlain(head, body, n);
    case Some(j) => LfPrefixCut(head, body, n, j);
  }

  lemma LfPrefixPlain(head: bytes, body: bytes, n: nat)
    requires LfHead(head) && n <= |head| + 2 + |body|
    requires Find((head + LF_LF + body)[..n], CRLF_CRLF) == None
    ensures var stream := head + LF_LF + body;
      CutAt(stream, n, |head|, 2) && CutOrRefused(stream, n, |head|, 2)
  {
    if n < |head| + 2 {
      LfBefore(head, body, n);
    } else {
      BlankFound(head, LF_LF, head + [LF], body, n);
    }
    hide Find, HeadOf;
  }

  lemma LfPrefixCut(head: bytes, body: bytes, n: nat, j: nat)
    requires LfHead(head) && n <= |head| + 2 + |body|
    requires Find((head + LF_LF + body)[..n], CRLF_CRLF) == Some(j)
    ensures var stream := head + LF_LF + body;
      !CutAt(stream, n, |head|, 2) && CutOrRefused(stream, n, |head|, 2)
  {
    var stream := head + LF_LF + body;
    var s := stream[..n];
    CrlfBehind(head, body, n, j);
    assert Cut(s) == Some((s[..j], s[j + 4..]));
    hide *;
    CutElsewhere(stream, n, |head|, j, s[..j], s[j + 4..]);
  }

  lemma CutElsewhere(stream: bytes, n: nat, i: nat, j: nat, head: bytes, rest: bytes)
    requires i + 2 <= j == |head| && i + 2 < n <= |stream|
    requires Cut(stream[..n]) == Some((head, rest)) && HeadOf(head, []).Err?
    ensures !CutAt(stream, n, i, 2) && CutOrRefused(stream, n, i, 2)
  {
    hide Cut, HeadOf;
    assert |stream[..i]| == i;
  }

  lemma LfBefore(head: bytes, body: bytes, n: nat)
    requires LfHead(head) && n < |head| + 2
    ensures Find((head + LF_LF + body)[..n], LF_LF) == None
  {
    var stream, open := head + LF_LF + body, head + [LF];
    assert open == stream[..|head| + 1] && open[..n] == stream[..n];
    assert stream[..|head| + 1] == open;
    hide Find;
    FindShorter(stream, n, |head| + 1, LF_LF);
  }

  /** A CRLF pair lies behind the whole LF pair, so the head it would end holds an empty line. */
  lemma CrlfBehind(head: bytes, body: bytes, n: nat, j: nat)
    requires LfHead(head) && n <= |head| + 2 + |body|
    requires Find((head + LF_LF + body)[..n], CRLF_CRLF) == Some(j)
    ensures |head| + 2 <= j && j + 4 <= n
    ensures HeadOf((head + LF_LF + body)[..n][..j], []).Err?
  {
    var stream, open := head + LF_LF + body, head + [LF];
    var s := stream[..n];
    FindFirst(s, CRLF_CRLF);
    FindNone(open, CRLF_CRLF);
    hide Find;
    assert s[j..j + 4] == CRLF_CRLF;
    PairBehind(head, body, n, j);
    var rest := stream[|head| + 2..j];
    assert s[..j] == head + [LF] + ([LF] + rest);
    EmptyLineRefused(head, rest, []);
  }

  lemma PairBehind(head: bytes, body: bytes, n: nat, j: nat)
    requires n <= |head| + 2 + |body| && j + 4 <= n
    requires (head + LF_LF + body)[..n][j..j + 4] == CRLF_CRLF
    requires forall k | 0 <= k < |head| + 1 :: !OccursAt(head + [LF], CRLF_CRLF, k)
    ensures |head| + 2 <= j
  {
    var stream, open := head + LF_LF + body, head + [LF];
    var s := stream[..n];
    var pair := s[j..j + 4];
    assert pair[0] == stream[j] && pair[1] == stream[j + 1] && pair[2] == stream[j + 2] && pair[3] == stream[j + 3];
    assert stream[|head|] == LF && stream[|head| + 1] == LF;
    assert j + 4 <= |head| + 1 ==> open[j..j + 4] == pair;
    assert OccursAt(open, CRLF_CRLF, j) ==> j + 4 <= |head| + 1;
  }

  /** An empty line has no colon. */
  lemma EmptyLineRefused(before: bytes, rest: bytes, body: bytes)
    ensures HeadOf(before + [LF] + ([LF] + rest), body) == Err(InvalidResponse)
  {
    SplitAround<byte>(before, LF, [LF] + rest);
    var more := Split<byte>([LF] + rest, LF);
    assert ([LF] + rest)[0] == LF;
    assert more[0] == [];
    var lines := Split<byte>(before + [LF] + ([LF] + rest), LF);
    ReadLinesRefused(Response(200, [], body), lines, |Split<byte>(before, LF)|);
    hide ReadLines, Split;
  }

  lemma {:induction false} SplitAround<T>(s: seq<T>, c: T, t: seq<T>)
    ensures Split(s + [c] + t, c) == Split(s, c) + Split(t, c)
  {
    var whole := s + [c] + t;
    if s == [] {
      assert whole[1..] == t;
    } else {
      assert whole[1..] == s[1..] + [c] + t;
      SplitAround(s[1..], c, t);
    }
  }

  lemma {:induction false} ReadLinesRefused(head: Response, lines: seq<bytes>, k: nat)
    requires k < |lines| && lines[k] == []
    ensures ReadLines(head, lines) == Err(InvalidResponse)
    decreases k
  {
    hide ReadLine;
    if k == 0 {
      EmptyLine();
    } else {
      match ReadLine(lines[0])
      case None =>
      case Some(StatusLine(code)) => ReadLinesRefused(head.(status := code), lines[1..], k - 1);
      case Some(HeaderLine(h)) => ReadLinesRefused(head.(headers := head.headers + [h]), lines[1..], k - 1);
    }
  }

  lemma EmptyLine()
    ensures ReadLine([]) == None
  {
  }

  /** A head with LF line ends: every chunking is read exactly when the limit leaves room for the head and
      no CRLF pair ends within one read of it; none is exactly when the head is beyond the limit by a whole
      read; and the answer depends on the reads in every other case. */
  lemma LfChunking(head: bytes, body: bytes, max: nat)
    requires LfHead(head)
    ensures var stream := head + LF_LF + body;
      && (AlwaysRead(stream, |head|, 2, max)
          <==> HeadOf(head, []).Err?
               || (|head| + 1 <= max && Find(WithinReach(stream, head), CRLF_CRLF) == None))
      && (AlwaysRefused(stream, max) <==> HeadOf(head, []).Err? || max + CHUNK < |head| + 2)
      && (SameAnswer(stream, max) <==> AlwaysRead(stream, |head|, 2, max) || AlwaysRefused(stream, max))
  {
    var stream := head + LF_LF + body;
    LfEnds(head, body);
    ChunkingExact(stream, |head|, 2, max);
    ChunkingSame(stream, |head|, 2, max);
    assert stream[..|head|] == head;
    hide *;
  }

  /* Every stream. */

  /** A stream without a blank line is refused however it arrives. */
  lemma BlankLineMissing(stream: bytes, max: nat)
    requires Cut(stream) == None
    ensures AlwaysRefused(stream, max)
  {
    hide Outcome, Chunking, Cut;
    assert stream[0..] == stream && stream[..0] == [];
    forall schedule | Chunking(schedule, stream)
      ensures Outcome([], schedule, max).0 == Err(InvalidResponse)
    {
      NeverCut([], schedule, stream, max);
    }
  }

  lemma {:induction false} NeverCut(buffer: bytes, schedule: seq<Delivery>, stream: bytes, max: nat)
    requires Cut(stream) == None
    requires |buffer| <= |stream| && buffer == stream[..|buffer|] && Chunking(schedule, stream[|buffer|..])
    ensures Outcome(buffer, schedule, max).0 == Err(InvalidResponse)
    decreases |schedule|
  {
    hide Cut, Chunking;
    if schedule == [] {
    } else {
      hide Outcome;
      NextPrefix(buffer, schedule, stream);
      var n := |buffer| + |schedule[0].data|;
      PrefixUncut(stream, n);
      OneRead(buffer, schedule, max);
      if n <= max {
        NeverCut(stream[..n], schedule[1..], stream, max);
      }
    }
  }

  lemma PrefixUncut(stream: bytes, n: nat)
    requires Cut(stream) == None && n <= |stream|
    ensures Cut(stream[..n]) == None
  {
    hide Find;
    assert stream[..|stream|] == stream;
    FindShorter(stream, n, |stream|, CRLF_CRLF);
    FindShorter(stream, n, |stream|, LF_LF);
  }

  /** As long as no head is complete and the limit is kept, the next read decides: a failing one is reported
      as such, and the end of the stream as an invalid response. */
  lemma {:induction false} ReadStops(
      buffer: bytes, chunks: seq<Delivery>, last: Delivery, rest: seq<Delivery>, max: nat)
    requires forall i | 0 <= i < |chunks| :: GoodChunk(chunks[i])
    requires Cut(buffer + Delivered(chunks)) == None && |buffer + Delivered(chunks)| <= max
    requires last in {Failed, Chunk([])}
    ensures Outcome(buffer, chunks + ([last] + rest), max) == (Err(if last.Failed? then Io else InvalidResponse), rest)
    decreases |chunks|
  {
    hide Cut;
    if chunks == [] {
      assert chunks + ([last] + rest) == [last] + rest;
      assert ([last] + rest)[1..] == rest;
    } else {
      var more, stream := chunks[1..], buffer + Delivered(chunks);
      var buffer' := buffer + chunks[0].data;
      assert (chunks + ([last] + rest))[1..] == more + ([last] + rest);
      assert buffer' + Delivered(more) == stream;
      assert stream[..|buffer'|] == buffer';
      PrefixUncut(stream, |buffer'|);
      assert forall i | 0 <= i < |more| :: more[i] == chunks[i + 1];
      ReadStops(buffer', more, last, rest, max);
    }
  }

  ghost predicate IsCrlf(stream: bytes, head: bytes, body: bytes) {
    NoBlankLine(head) && stream == head + CRLF_CRLF + body
  }

  ghost predicate IsLf(stream: bytes, head: bytes, body: bytes) {
    LfHead(head) && stream == head + LF_LF + body
  }

  /** Every other stream has a head of one of the two kinds, by its first blank line. */
  lemma BlankLineKind(stream: bytes) returns (head: bytes, body: bytes)
    requires Cut(stream).Some?
    ensures IsCrlf(stream, head, body) || IsLf(stream, head, body)
  {
    hide Find;
    var j, k := Find(stream, CRLF_CRLF), Find(stream, LF_LF);
    if j.Some? && (k.None? || j.value < k.value + 2) {
      head, body := stream[..j.value], stream[j.value + 4..];
      CrlfFirst(stream, j.value);
    } else {
      head, body := stream[..k.value], stream[k.value + 2..];
      LfFirst(stream, k.value);
    }
  }

  /** Where `part` first occurs, the text and what joins it hold it nowhere. */
  lemma FirstAt(s: bytes, part: bytes, i: nat)
    requires part != [] && Find(s, part) == Some(i)
    ensures i + |part| <= |s| && s == s[..i] + part + s[i + |part|..]
    ensures Find(s[..i] + part[..|part| - 1], part) == None
  {
    hide *;
    FindOccurs(s, part, i);
    Regrouped(s, part, i);
    var n := i + |part| - 1;
    NotYet(s, part, n);
    assert s[..n] == s[..i] + part[..|part| - 1];
  }

  lemma FindOccurs(s: bytes, part: bytes, i: nat)
    requires part != [] && Find(s, part) == Some(i)
    ensures OccursAt(s, part, i) && i + |part| <= |s|
  {
    FindFirst(s, part);
  }

  lemma Regrouped(s: bytes, part: bytes, i: nat)
    requires part != [] && OccursAt(s, part, i)
    ensures s == s[..i] + part + s[i + |part|..]
    ensures s[..i + |part| - 1] == s[..i] + part[..|part| - 1]
  {
    assert s == s[..i] + s[i..i + |part|] + s[i + |part|..];
    assert s[i..i + |part|][..|part| - 1] == s[i..i + |part| - 1];
  }

  /** A part that first occurs at `i`, if at all, is not in a prefix that ends before it does. */
  lemma NotYet(s: bytes, part: bytes, n: nat)
    requires part != [] && n <= |s| && (Find(s, part).Some? ==> n < Find(s, part).value + |part|)
    ensures Find(s[..n], part) == None
  {
    FindFirst(s, part);
    forall j | 0 <= j < n ensures !OccursAt(s[..n], part, j) {
      if j + |part| <= n {
        OccursInPrefix(s, n, part, j);
        assert !OccursAt(s, part, j);
      }
    }
    FindNone(s[..n], part);
    hide Find;
  }

  lemma CrlfFirst(stream: bytes, j: nat)
    requires Find(stream, CRLF_CRLF) == Some(j)
    requires var k := Find(stream, LF_LF); k.None? || j < k.value + 2
    ensures j + 4 <= |stream| && IsCrlf(stream, stream[..j], stream[j + 4..])
  {
    hide Find;
    Openings();
    FirstAt(stream, CRLF_CRLF, j);
    NotYet(stream, LF_LF, j);
    hide CRLF_CRLF, LF_LF;
  }

  lemma Openings()
    ensures |CRLF_CRLF| == 4 && CRLF_CRLF[..|CRLF_CRLF| - 1] == [CR, LF, CR]
    ensures |LF_LF| == 2 && LF_LF[..|LF_LF| - 1] == [LF]
  {
  }

  lemma LfFirst(stream: bytes, k: nat)
    requires Find(stream, LF_LF) == Some(k)
    requires var j := Find(stream, CRLF_CRLF); j.None? || k + 2 <= j.value
    ensures k + 2 <= |stream| && IsLf(stream, stream[..k], stream[k + 2..])
  {
    hide Find;
    Openings();
    FirstAt(stream, LF_LF, k);
    NotYet(stream, CRLF_CRLF, k + 1);
    hide CRLF_CRLF, LF_LF, LfHead;
    LfOpens(stream, k);
  }

  lemma LfOpens(stream: bytes, k: nat)
    requires k + 2 <= |stream| && stream == stream[..k] + LF_LF + stream[k + 2..]
    requires Find(stream[..k] + [LF], LF_LF) == None && Find(stream[..k + 1], CRLF_CRLF) == None
    ensures LfHead(stream[..k])
  {
    hide Find;
    assert stream[..k + 1] == stream[..k] + [LF] by {
      assert stream[k] == (stream[..k] + LF_LF + stream[k + 2..])[k] == LF;
    }
  }
}
