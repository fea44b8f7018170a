/** Reading the head of a CGI response (section 6 of RFC 3875) from the standard output of
    `git http-backend`, whatever the sizes of the reads. */
module CgiHead {
  import opened Wrappers
  import opened Bytes
  import opened Utf8
  import opened Whitespace
  import opened Decimal

  const CHUNK: nat := 1024
  const CR: byte := '\r'
  const LF: byte := '\n'
  const CRLF_CRLF: bytes := [CR, LF, CR, LF]
  const LF_LF: bytes := [LF, LF]

  datatype Header = Header(name: bytes, value: bytes)

  /** The response and the bytes read past its head. */
  datatype Response = Response(status: nat, headers: seq<Header>, prefix: bytes)

  datatype BackendError = InvalidResponse | Io

  /** What one read returns; an empty chunk is the end of the stream. */
  datatype Delivery = Chunk(data: bytes) | Failed

  /** A pipe, as the answers its reads will get: past the last one it is at its end. */
  class Reader {
    var schedule: seq<Delivery>

    constructor (schedule: seq<Delivery>)
      ensures this.schedule == schedule
    {
      this.schedule := schedule;
    }

    method Read() returns (r: Delivery)
      modifies this
      ensures old(schedule) == [] ==> r == Chunk([]) && schedule == []
      ensures old(schedule) != [] ==> r == old(schedule)[0] && schedule == old(schedule)[1..]
    {
      if schedule == [] {
        return Chunk([]);
      }
      r := schedule[0];
      schedule := schedule[1..];
    }
  }

  /* The head. */

  function Lower(c: byte): byte {
    if 'A' <= c <= 'Z' then (c as int + 32) as char else c
  }

  predicate EqIgnoreCase(a: bytes, b: bytes) {
    |a| == |b| && forall i | 0 <= i < |a| :: Lower(a[i]) == Lower(b[i])
  }

  datatype HeadLine = StatusLine(code: nat) | HeaderLine(header: Header)

  function StatusCode(value: bytes): Option<nat> {
    var code := Parsed(Split<byte>(value, ' ')[0], 0xFFFF);
    if code.Some? && 100 <= code.value < 600 then code else None
  }

  /** `strip_suffix` of one carriage return. */
  function Unterminated(line: bytes): bytes {
    if line != [] && line[|line| - 1] == CR then line[..|line| - 1] else line
  }

  function ReadLine(line: bytes): Option<HeadLine> {
    match SplitOnce(Unterminated(line), ':')
    case None => None
    case Some((name, rest)) =>
      if !Utf8.Valid(name) || !Utf8.Valid(rest) then None
      else
        var value := TrimStart(rest);
        if EqIgnoreCase(name, "status") then
          match StatusCode(value)
          case None => None
          case Some(code) => Some(StatusLine(code))
        else Some(HeaderLine(Header(name, value)))
  }

  /** What the lines of a head amount to, after `head` so far. */
  function ReadLines(head: Response, lines: seq<bytes>): Result<Response, BackendError>
    decreases |lines|
  {
    if lines == [] then Ok(head)
    else
      match ReadLine(lines[0])
      case None => Err(InvalidResponse)
      case Some(StatusLine(code)) => ReadLines(head.(status := code), lines[1..])
      case Some(HeaderLine(h)) => ReadLines(head.(headers := head.headers + [h]), lines[1..])
  }

  predicate HasLocation(headers: seq<Header>) {
    exists i | 0 <= i < |headers| :: EqIgnoreCase(headers[i].name, "location")
  }

  function Redirected(r: Response): Response {
    if r.status == 200 && HasLocation(r.headers) then r.(status := 302) else r
  }

  function HeadOf(head: bytes, body: bytes): Result<Response, BackendError> {
    match ReadLines(Response(200, [], body), Split<byte>(head, LF))
    case Err(error) => Err(error)
    case Ok(r) => Ok(Redirected(r))
  }

  method ParseHead(head: bytes, body: bytes) returns (r: Result<Response, BackendError>)
    ensures r == HeadOf(head, body)
  {
    var lines: seq<bytes> := Split<byte>(head, LF);
    hide Split, ReadLine, HasLocation;
    var status := 200;
    var headers: seq<Header> := [];
    assert lines[0..] == lines;
    for i := 0 to |lines|
      invariant ReadLines(Response(status, headers, body), lines[i..]) == ReadLines(Response(200, [], body), lines)
    {
      assert lines[i..][1..] == lines[i + 1..];
      var line := ReadLine(lines[i]);
      match line {
        case None =>
          return Err(InvalidResponse);
        case Some(StatusLine(code)) =>
          status := code;
        case Some(HeaderLine(h)) =>
          headers := headers + [h];
      }
    }
    assert lines[|lines|..] == [];
    if status == 200 && HasLocation(headers) {
      status := 302;
    }
    return Ok(Response(status, headers, body));
  }

  /* Finding the head. */

  /** Where the bytes read so far are cut, if they hold the end of a head: a CRLF pair anywhere wins. */
  function Cut(buffer: bytes): Option<(bytes, bytes)> {
    match Find(buffer, CRLF_CRLF)
    case Some(i) => Some((buffer[..i], buffer[i + 4..]))
    case None =>
      match Find(buffer, LF_LF)
      case Some(i) => Some((buffer[..i], buffer[i + 2..]))
      case None => None
  }

  /** The outcome, and the part of the schedule left, when `buffer` has been read. */
  function Outcome(buffer: bytes, schedule: seq<Delivery>, max: nat): (Result<Response, BackendError>, seq<Delivery>)
    decreases |schedule|
  {
    if schedule == [] then (Err(InvalidResponse), [])
    else if schedule[0].Failed? then (Err(Io), schedule[1..])
    else if schedule[0].data == [] then (Err(InvalidResponse), schedule[1..])
    else
      var buffer' := buffer + schedule[0].data;
      match Cut(buffer')
      case Some((head, body)) => (HeadOf(head, body), schedule[1..])
      case None =>
        if |buffer'| > max then (Err(InvalidResponse), schedule[1..]) else Outcome(buffer', schedule[1..], max)
  }

  method ParseHeaders(reader: Reader, max: nat) returns (r: Result<Response, BackendError>)
    modifies reader
    ensures (r, reader.schedule) == old(Outcome([], reader.schedule, max))
  {
    hide Cut, HeadOf;
    var buffer: bytes := [];
    while true
      invariant Outcome(buffer, reader.schedule, max) == old(Outcome([], reader.schedule, max))
      decreases |reader.schedule|
    {
      var part := reader.Read();
      if part.Failed? {
        return Err(Io);
      }
      if part.data == [] {
        return Err(InvalidResponse);
      }
      buffer := buffer + part.data;
      var cut := Cut(buffer);
      if cut.Some? {
        r := ParseHead(cut.value.0, cut.value.1);
        return;
      }
      if |buffer| > max {
        return Err(InvalidResponse);
      }
    }
  }
}
