/** A CGI response, printed as section 6 of RFC 3875 has it and delivered in any chunks, is read back:
    its status, its headers and its body. */
module CgiRoundTrip {
  import opened Wrappers
  import opened Bytes
  import opened Utf8
  import opened Whitespace
  import opened Decimal
  import opened CgiHead
  import opened CgiChunking
  import opened CgiBlankLine

  const STATUS: bytes := "Status"

  datatype Line = Status(code: nat, reason: bytes) | Field(header: Header)

  function Text(line: Line): bytes {
    match line
    case Status(code, reason) => STATUS + [':', ' '] + (Digits(code) + [' '] + reason)
    case Field(h) => h.name + [':', ' '] + h.value
  }

  /** The lines of a head, each but the last followed by CRLF. */
  function Printed(lines: seq<Line>): bytes
    requires lines != []
  {
    if |lines| == 1 then Text(lines[0]) else Text(lines[0]) + [CR, LF] + Printed(lines[1..])
  }

  predicate OneLine(s: bytes) {
    Utf8.Valid(s) && CR !in s && LF !in s
  }

  /** `name` in any mixture of its lower-case and upper-case spelling. */
  predicate InAnyCase(name: bytes, lower: string, upper: string)
    requires |lower| == |upper|
  {
    |name| == |lower| && forall i | 0 <= i < |name| :: name[i] == lower[i] || name[i] == upper[i]
  }

  predicate GoodLine(line: Line) {
    match line
    case Status(code, reason) => 100 <= code < 600 && OneLine(reason)
    case Field(h) => OneLine(h.name) && OneLine(h.value) && ':' !in h.name && !InAnyCase(h.name, "status", "STATUS")
  }

  predicate GoodLines(lines: seq<Line>) {
    lines != [] && forall i | 0 <= i < |lines| :: GoodLine(lines[i])
  }

  /** What the lines say: the last status wins, the fields add up without the space before their values. */
  function Said(r: Response, line: Line): Response {
    match line
    case Status(code, _) => r.(status := code)
    case Field(h) => r.(headers := r.headers + [Header(h.name, TrimStart(h.value))])
  }

  function AllSaid(r: Response, lines: seq<Line>): Response
    decreases |lines|
  {
    if lines == [] then r else AllSaid(Said(r, lines[0]), lines[1..])
  }

  /** The fields as the program meant them. */
  function Fields(lines: seq<Line>): seq<Header> {
    if lines == [] then []
    else (if lines[0].Field? then [lines[0].header] else []) + Fields(lines[1..])
  }

  /* Reading one line. */

  lemma TrimSpace(value: bytes)
    ensures TrimStart([' '] + value) == TrimStart(value)
  {
    assert ([' '] + value)[1..] == value;
  }

  lemma SpacedValid(value: bytes)
    requires Utf8.Valid(value)
    ensures Utf8.Valid([' '] + value)
  {
    AsciiSplits([], ' ', value);
    assert [] + [' '] + value == [' '] + value;
  }

  /** A name, a colon, a space and a value. */
  lemma NamedLine(name: bytes, value: bytes)
    requires Utf8.Valid(name) && Utf8.Valid(value) && ':' !in name && CR !in value
    ensures var line, trimmed := name + [':', ' '] + value, TrimStart(value);
      && Unterminated(line) == line && Unterminated(line + [CR]) == line
      && SplitOnce(line, ':') == Some((name, [' '] + value))
      && Utf8.Valid([' '] + value) && TrimStart([' '] + value) == trimmed
  {
    var line := name + [':', ' '] + value;
    assert line == name + [':'] + ([' '] + value);
    SplitOnceAt(name, ':', [' '] + value);
    SpacedValid(value);
    TrimSpace(value);
    assert line[|line| - 1] == if value == [] then ' ' else value[|value| - 1];
    assert (line + [CR])[..|line|] == line;
    hide SplitOnce, TrimStart, Utf8.Valid;
  }

  lemma CodeReads(code: nat, reason: bytes)
    requires OneLine(reason)
    ensures var value := Digits(code) + [' '] + reason;
      && Utf8.Valid(value) && CR !in value && LF !in value && TrimStart(value) == value
      && StatusCode(value) == if 100 <= code < 600 then Some(code) else None
  {
    hide Digits, Parsed, Utf8.Valid, Split, TrimStart;
    ParsedDigits(code, 0xFFFF);
    DigitsFirst(Digits(code), reason);
    DigitsSplit(Digits(code), reason);
  }

  /** A status line is readable exactly when its code is one of HTTP. */
  lemma StatusInRange(code: nat, reason: bytes)
    requires OneLine(reason)
    ensures ReadLine(Text(Status(code, reason)))
         == if 100 <= code < 600 then Some(StatusLine(code)) else None
  {
    var value := Digits(code) + [' '] + reason;
    hide SplitOnce, TrimStart, Utf8.Valid, Unterminated, Digits, STATUS, StatusCode, EqIgnoreCase, OneLine;
    StatusName();
    CodeReads(code, reason);
    NamedLine(STATUS, value);
  }

  /** What stands for a code: the first word of a value, if it spells a number from 100 to 599. */
  lemma CodeExactly(value: bytes, code: nat)
    ensures StatusCode(value) == Some(code) <==> 100 <= code < 600 && Spells(Split<byte>(value, ' ')[0], code)
  {
    var word := Split<byte>(value, ' ')[0];
    var parsed := Parsed(word, 0xFFFF);
    if parsed.Some? {
      ParsedExactly(word, 0xFFFF, parsed.value);
    }
    ParsedExactly(word, 0xFFFF, code);
    hide Spells, Parsed, Split;
  }

  /** Which lines are refused: those without a colon, with ill-encoded text, or with a status that is none. */
  lemma ReadableExactly(name: bytes, rest: bytes)
    requires ':' !in name && CR !in rest
    ensures ReadLine(name + [':'] + rest).Some?
       <==> Utf8.Valid(name) && Utf8.Valid(rest)
            && (InAnyCase(name, "status", "STATUS") ==> exists code :: StatusCode(TrimStart(rest)) == Some(code))
    ensures ReadLine(name) == None
  {
    var line := name + [':'] + rest;
    SplitOnceAt(name, ':', rest);
    AnyCase(name);
    assert line[|line| - 1] == if rest == [] then ':' else rest[|rest| - 1];
    assert SplitOnce(Unterminated(name), ':') == None by {
      assert ':' !in Unterminated(name);
    }
    hide Utf8.Valid, TrimStart, StatusCode, SplitOnce, InAnyCase, EqIgnoreCase;
  }

  lemma DigitsFirst(digits: bytes, reason: bytes)
    requires digits != [] && AllDigits(digits) && OneLine(reason)
    ensures var value := digits + [' '] + reason;
      Utf8.Valid(value) && CR !in value && LF !in value && TrimStart(value) == value
  {
    var value := digits + [' '] + reason;
    AsciiValid(digits);
    AsciiSplits(digits, ' ', reason);
    hide Utf8.Valid;
    assert IsDigit(digits[0]) && value[0] == digits[0];
    assert CR !in digits && LF !in digits;
  }

  lemma DigitsSplit(digits: bytes, reason: bytes)
    requires AllDigits(digits)
    ensures Split<byte>(digits + [' '] + reason, ' ')[0] == digits
  {
    assert ' ' !in digits;
    SplitFirst<byte>(digits, ' ', reason);
    hide Split;
  }

  lemma EitherCase(c: byte, d: byte, upper: char)
    requires 'a' <= d <= 'z' && upper as int == d as int - 32
    ensures Lower(c) == Lower(d) <==> c == d || c == upper
  {
  }

  lemma AnyCaseOf(name: bytes, lower: bytes, upper: string)
    requires |lower| == |upper|
    requires forall i | 0 <= i < |lower| :: 'a' <= lower[i] <= 'z' && upper[i] as int == lower[i] as int - 32
    ensures EqIgnoreCase(name, lower) <==> InAnyCase(name, lower, upper)
  {
    if |name| == |lower| {
      forall i | 0 <= i < |name|
        ensures Lower(name[i]) == Lower(lower[i]) <==> name[i] == lower[i] || name[i] == upper[i]
      {
        EitherCase(name[i], lower[i], upper[i]);
      }
    }
    hide Lower;
  }

  /** What the comparison of header names means for the two names the program looks for. */
  lemma AnyCase(name: bytes)
    ensures EqIgnoreCase(name, "status") <==> InAnyCase(name, "status", "STATUS")
    ensures EqIgnoreCase(name, "location") <==> InAnyCase(name, "location", "LOCATION")
  {
    hide EqIgnoreCase, InAnyCase;
    AnyCaseOf(name, "status", "STATUS");
    AnyCaseOf(name, "location", "LOCATION");
  }

  lemma StatusName()
    ensures Utf8.Valid(STATUS) && ':' !in STATUS && EqIgnoreCase(STATUS, "status")
    ensures CR !in STATUS && LF !in STATUS
  {
    hide Utf8.Valid;
    AsciiValid(STATUS);
  }

  function LineRead(line: Line): HeadLine {
    match line
    case Status(code, _) => StatusLine(code)
    case Field(h) => HeaderLine(Header(h.name, TrimStart(h.value)))
  }

  /** A line reads alike with and without the carriage return that ends it. */
  lemma LineReads(line: Line)
    requires GoodLine(line)
    ensures ReadLine(Text(line)) == Some(LineRead(line)) && ReadLine(Text(line) + [CR]) == Some(LineRead(line))
  {
    hide SplitOnce, TrimStart, Utf8.Valid, Unterminated, StatusCode, EqIgnoreCase, Digits, STATUS;
    match line
    case Status(code, reason) =>
      StatusName();
      CodeReads(code, reason);
      NamedLine(STATUS, Digits(code) + [' '] + reason);
    case Field(h) =>
      AnyCase(h.name);
      NamedLine(h.name, h.value);
  }

  /* Reading a head. */

  lemma TextShape(line: Line)
    requires GoodLine(line)
    ensures Text(line) != [] && CR !in Text(line) && LF !in Text(line)
  {
    hide STATUS, Utf8.Valid, EqIgnoreCase, Digits;
    match line
    case Status(code, reason) =>
      StatusName();
      CodeReads(code, reason);
    case Field(h) =>
  }

  lemma {:induction false} LinesRead(r: Response, lines: seq<Line>)
    requires GoodLines(lines)
    ensures ReadLines(r, Split<byte>(Printed(lines), LF)) == Ok(AllSaid(r, lines))
    decreases |lines|
  {
    hide Text, ReadLine, GoodLine, LineRead, Said;
    LineReads(lines[0]);
    TextShape(lines[0]);
    if |lines| == 1 {
      OnlyLine(r, lines[0], Text(lines[0]));
    } else {
      LinesRead(Said(r, lines[0]), lines[1..]);
      hide *;
      PrintedMore(lines);
      FirstLine(r, lines[0], Text(lines[0]) + [CR], Printed(lines[1..]));
      SaidFirst(r, lines);
    }
  }

  lemma PrintedMore(lines: seq<Line>)
    requires |lines| > 1
    ensures Printed(lines) == Text(lines[0]) + [CR] + [LF] + Printed(lines[1..])
  {
    assert Text(lines[0]) + [CR, LF] == Text(lines[0]) + [CR] + [LF];
  }

  lemma SaidFirst(r: Response, lines: seq<Line>)
    requires lines != []
    ensures AllSaid(r, lines) == AllSaid(Said(r, lines[0]), lines[1..])
  {
  }

  lemma FirstLine(r: Response, line: Line, text: bytes, rest: bytes)
    requires LF !in text && ReadLine(text) == Some(LineRead(line))
    ensures ReadLines(r, Split<byte>(text + [LF] + rest, LF)) == ReadLines(Said(r, line), Split<byte>(rest, LF))
  {
    SplitFirst<byte>(text, LF, rest);
    hide ReadLine, Split;
    var more := Split<byte>(rest, LF);
    assert ([text] + more)[1..] == more;
  }

  lemma OnlyLine(r: Response, line: Line, text: bytes)
    requires LF !in text && ReadLine(text) == Some(LineRead(line))
    ensures ReadLines(r, Split<byte>(text, LF)) == Ok(Said(r, line))
    ensures AllSaid(r, [line]) == Said(r, line)
  {
    SplitNone<byte>(text, LF);
    hide ReadLine, Split;
    assert [text][1..] == [] && [line][1..] == [];
  }

  predicate AllReadable(lines: seq<bytes>) {
    forall i | 0 <= i < |lines| :: ReadLine(lines[i]).Some?
  }

  /** A head is refused exactly when one of its lines cannot be read. */
  lemma HeadAccepted(head: bytes, body: bytes)
    ensures HeadOf(head, body).Ok? <==> AllReadable(Split<byte>(head, LF))
  {
    LinesAccepted(Response(200, [], body), Split<byte>(head, LF));
    hide ReadLines, AllReadable;
  }

  lemma {:induction false} LinesAccepted(r: Response, lines: seq<bytes>)
    ensures ReadLines(r, lines).Ok? <==> AllReadable(lines)
    decreases |lines|
  {
    hide ReadLine;
    if lines == [] {
    } else {
      assert AllReadable(lines) <==> ReadLine(lines[0]).Some? && AllReadable(lines[1..]) by {
        assert forall i | 1 <= i < |lines| :: lines[i] == lines[1..][i - 1];
      }
      match ReadLine(lines[0])
      case None =>
      case Some(StatusLine(code)) => LinesAccepted(r.(status := code), lines[1..]);
      case Some(HeaderLine(h)) => LinesAccepted(r.(headers := r.headers + [h]), lines[1..]);
    }
  }

  function LastStatus(status: nat, lines: seq<Line>): nat
    decreases |lines|
  {
    if lines == [] then status
    else LastStatus(if lines[0].Status? then lines[0].code else status, lines[1..])
  }

  function Trimmed(headers: seq<Header>): (r: seq<Header>)
    ensures |r| == |headers|
  {
    if headers == [] then []
    else [Header(headers[0].name, TrimStart(headers[0].value))] + Trimmed(headers[1..])
  }

  /** The last status line decides the status; every field is a header, in order, less the white space its
      value opens with. */
  lemma {:induction false} SaidInFull(r: Response, lines: seq<Line>)
    ensures AllSaid(r, lines) == Response(LastStatus(r.status, lines), r.headers + Trimmed(Fields(lines)), r.prefix)
    decreases |lines|
  {
    if lines == [] {
      assert r.headers + [] == r.headers;
    } else {
      SaidInFull(Said(r, lines[0]), lines[1..]);
      if lines[0].Field? {
        var h, more := lines[0].header, Fields(lines[1..]);
        assert ([h] + more)[1..] == more;
        var h' := Header(h.name, TrimStart(h.value));
        assert r.headers + [h'] + Trimmed(more) == r.headers + ([h'] + Trimmed(more));
      } else {
        assert [] + Fields(lines[1..]) == Fields(lines[1..]);
      }
      hide TrimStart;
    }
  }

  /** Some printed field is a location. */
  predicate SaysLocation(lines: seq<Line>) {
    exists i | 0 <= i < |lines| :: lines[i].Field? && InAnyCase(lines[i].header.name, "location", "LOCATION")
  }

  /** The status of the answer: a location turns 200, printed or by default, into 302. */
  function AnsweredStatus(lines: seq<Line>): nat {
    var last := LastStatus(200, lines);
    if last == 200 && SaysLocation(lines) then 302 else last
  }

  /** The answer to a printed head: the last status line decides its status, unless a location comes with 200. */
  lemma HeadRoundTrip(lines: seq<Line>, body: bytes)
    requires GoodLines(lines)
    ensures HeadOf(Printed(lines), body) == Ok(Response(AnsweredStatus(lines), Trimmed(Fields(lines)), body))
    ensures AnsweredStatus(lines) == 302
       <==> LastStatus(200, lines) == 302 || (LastStatus(200, lines) == 200 && SaysLocation(lines))
    ensures AnsweredStatus(lines) != 302 ==> AnsweredStatus(lines) == LastStatus(200, lines)
  {
    LinesRead(Response(200, [], body), lines);
    SaidInFull(Response(200, [], body), lines);
    LocationSaid(lines);
    assert [] + Trimmed(Fields(lines)) == Trimmed(Fields(lines));
    hide ReadLines, Split, Printed, AllSaid, HasLocation, SaysLocation;
  }

  /** The program looks for a location among the headers, where the lines put it. */
  lemma {:induction false} LocationSaid(lines: seq<Line>)
    ensures HasLocation(Trimmed(Fields(lines))) <==> SaysLocation(lines)
  {
    if lines == [] {
    } else {
      LocationSaid(lines[1..]);
      LaterLocation(lines);
      if lines[0].Field? {
        AnyCase(lines[0].header.name);
        LaterHeader(Header(lines[0].header.name, TrimStart(lines[0].header.value)), Trimmed(Fields(lines[1..])));
        assert ([lines[0].header] + Fields(lines[1..]))[1..] == Fields(lines[1..]);
      } else {
        assert [] + Fields(lines[1..]) == Fields(lines[1..]);
      }
      hide SaysLocation, HasLocation, InAnyCase, EqIgnoreCase, TrimStart;
    }
  }

  lemma LaterLocation(lines: seq<Line>)
    requires lines != []
    ensures SaysLocation(lines)
       <==> (lines[0].Field? && InAnyCase(lines[0].header.name, "location", "LOCATION")) || SaysLocation(lines[1..])
  {
    hide InAnyCase;
    assert forall i | 1 <= i < |lines| :: lines[i] == lines[1..][i - 1];
  }

  lemma LaterHeader(h: Header, more: seq<Header>)
    ensures HasLocation([h] + more) <==> EqIgnoreCase(h.name, "location") || HasLocation(more)
  {
    hide EqIgnoreCase;
    var all := [h] + more;
    assert all[0] == h;
    assert forall i | 0 <= i < |more| :: more[i] == all[i + 1];
  }

  /** So the headers come back unchanged exactly when no value opens with white space. */
  lemma {:induction false} TrimmedKept(headers: seq<Header>)
    ensures Trimmed(headers) == headers <==> forall i | 0 <= i < |headers| :: LeadingSpace(headers[i].value) == 0
  {
    if headers == [] {
    } else {
      TrimmedKept(headers[1..]);
      hide LeadingSpace;
      assert forall i | 1 <= i < |headers| :: headers[i] == headers[1..][i - 1];
      assert headers == [headers[0]] + headers[1..];
    }
  }

  /* The whole response. */

  /** No line of a printed head is blank. */
  lemma {:induction false} PrintedNoBlankLine(lines: seq<Line>)
    requires GoodLines(lines)
    ensures NoBlankLine(Printed(lines))
    ensures Printed(lines) != [] && Printed(lines)[0] != CR && Printed(lines)[0] != LF
  {
    TextShape(lines[0]);
    hide Text, GoodLine;
    if |lines| == 1 {
      LineEnds(Text(lines[0]));
    } else {
      PrintedNoBlankLine(lines[1..]);
      hide NoBlankLine, Printed;
      NoBlankLineMore(Text(lines[0]), Printed(lines[1..]));
      PrintedMore(lines);
    }
  }

  lemma NoBlankLineMore(text: bytes, rest: bytes)
    requires CR !in text && LF !in text && rest != [] && rest[0] != CR && rest[0] != LF && NoBlankLine(rest)
    ensures NoBlankLine(text + [CR] + [LF] + rest)
  {
    LinePasses(text, rest);
    LinePasses(text, rest + [CR, LF, CR]);
    hide Find;
    assert text + [CR, LF] + (rest + [CR, LF, CR]) == text + [CR] + [LF] + rest + [CR, LF, CR];
    assert text + [CR, LF] + rest == text + [CR] + [LF] + rest;
  }

  lemma {:induction false} LinePasses(text: bytes, rest: bytes)
    requires CR !in text && LF !in text && rest != [] && rest[0] != CR && rest[0] != LF
    ensures Find(text + [CR, LF] + rest, CRLF_CRLF) == Shifted(Find(rest, CRLF_CRLF), |text| + 2)
    ensures Find(text + [CR, LF] + rest, LF_LF) == Shifted(Find(rest, LF_LF), |text| + 2)
  {
    var s := text + [CR, LF] + rest;
    if text == [] {
      BreakPasses(rest);
      assert s == [CR, LF] + rest;
    } else {
      assert s[1..] == text[1..] + [CR, LF] + rest;
      assert s[0] == text[0];
      LinePasses(text[1..], rest);
    }
  }

  lemma BreakPasses(rest: bytes)
    requires rest != [] && rest[0] != CR && rest[0] != LF
    ensures Find([CR, LF] + rest, CRLF_CRLF) == Shifted(Find(rest, CRLF_CRLF), 2)
    ensures Find([CR, LF] + rest, LF_LF) == Shifted(Find(rest, LF_LF), 2)
  {
    var s := [CR, LF] + rest;
    var t := s[1..];
    assert t == [LF] + rest && t[1..] == rest;
    assert s[0] == CR && s[2] == rest[0] && t[0] == LF && t[1] == rest[0];
    assert Find(t, CRLF_CRLF) == Shifted(Find(rest, CRLF_CRLF), 1);
    assert Find(t, LF_LF) == Shifted(Find(rest, LF_LF), 1);
  }

  lemma LineEnds(text: bytes)
    requires CR !in text && LF !in text
    ensures NoBlankLine(text)
  {
    var s := text + [CR, LF, CR];
    forall j | 0 <= j < |s| ensures !OccursAt(s, CRLF_CRLF, j) {
      if j + 4 <= |s| {
        assert s[j..j + 4][0] == text[j];
      }
    }
    forall j | 0 <= j < |text| ensures !OccursAt(text, LF_LF, j) {
      if j + 2 <= |text| {
        assert text[j..j + 2][0] == text[j];
      }
    }
    FindNone(s, CRLF_CRLF);
    FindNone(text, LF_LF);
    hide Find;
  }

  /** Whatever the sizes of the reads, a printed response comes back with its status and headers, and with
      every byte of its body either handed over or still unread. */
  ghost predicate AlwaysAnswered(lines: seq<Line>, body: bytes, max: nat)
    requires lines != []
  {
    forall schedule | Chunking(schedule, Printed(lines) + CRLF_CRLF + body) ::
      Answered(Outcome([], schedule, max), lines, body)
  }

  /** End to end: a printed response always comes back exactly when the limit leaves room for its head,
      never exactly when its head is beyond the limit by a whole read, and depending on the reads in between. */
  lemma ResponseRoundTrip(lines: seq<Line>, body: bytes, max: nat)
    requires GoodLines(lines)
    ensures var head := Printed(lines);
      var stream := head + CRLF_CRLF + body;
      && (AlwaysAnswered(lines, body, max) <==> |head| + 3 <= max)
      && (AlwaysRefused(stream, max) <==> max + CHUNK < |head| + 4)
      && (SameAnswer(stream, max) <==> |head| + 3 <= max || max + CHUNK < |head| + 4)
  {
    var head := Printed(lines);
    HeadRoundTrip(lines, []);
    PrintedNoBlankLine(lines);
    CrlfChunking(head, body, max);
    hide Outcome, HeadOf, Chunking, Agrees, Answered, Printed, GoodLines, NoBlankLine, AnsweredStatus, Trimmed, Fields;
    forall schedule
      ensures Agrees(Outcome([], schedule, max), head + CRLF_CRLF + body, |head|, 4)
          <==> Answered(Outcome([], schedule, max), lines, body)
    {
      AgreesAnswered(Outcome([], schedule, max), head, body, lines);
    }
  }

  predicate Answered(outcome: (Result<Response, BackendError>, seq<Delivery>), lines: seq<Line>, body: bytes) {
    && outcome.0.Ok?
    && outcome.0.value.status == AnsweredStatus(lines)
    && outcome.0.value.headers == Trimmed(Fields(lines))
    && outcome.0.value.prefix + Delivered(outcome.1) == body
  }

  lemma AgreesAnswered(
      outcome: (Result<Response, BackendError>, seq<Delivery>), head: bytes, body: bytes, lines: seq<Line>)
    requires HeadOf(head, []) == Ok(Response(AnsweredStatus(lines), Trimmed(Fields(lines)), []))
    ensures Agrees(outcome, head + CRLF_CRLF + body, |head|, 4) <==> Answered(outcome, lines, body)
  {
    var stream := head + CRLF_CRLF + body;
    assert stream[..|head|] == head && stream[|head| + 4..] == body;
    hide HeadOf, Delivered, AnsweredStatus, Trimmed, Fields;
  }
}
