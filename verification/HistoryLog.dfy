/** The output of `git log --format=format:%x1e%H%x1f`, optionally with `--graph`: how git frames the
    rows and how the server reads them back. */
module HistoryLog {
  import opened Wrappers
  import opened Bytes
  import opened Utf8
  import opened Whitespace

  const RECORD: byte := Byte(0x1E)
  const UNIT: byte := Byte(0x1F)

  /** One commit: its object name, the graph cell on its line and the graph lines above it. */
  datatype Row = Row(oid: bytes, graph: bytes, continuations: seq<bytes>)

  /** Why a log is refused. `NotBoundary` is the panic of slicing inside a character. */
  datatype Failure = InvalidText | InvalidRecord | InvalidOid | NotBoundary

  type Outcome = Result<seq<Row>, Failure>

  /** `strip_prefix` of one newline. */
  function Stripped(text: bytes): (r: bytes)
    ensures |r| <= |text|
  {
    if text != [] && text[0] == '\n' then text[1..] else text
  }

  /** `split_terminator`: the pieces of `split`, without a last one that is empty. */
  function Lines(text: bytes): seq<bytes> {
    var parts := Split<byte>(text, '\n');
    if parts[|parts| - 1] == [] then parts[..|parts| - 1] else parts
  }

  /** The row of a record: the last line before it is the graph cell, the others continue the graph. */
  function RowOf(oid: bytes, before: bytes): Row {
    var lines := Lines(Stripped(before));
    if lines == [] then Row(oid, [], []) else Row(oid, lines[|lines| - 1], lines[..|lines| - 1])
  }

  /** Whether `text[i..]` may be sliced: `str::is_char_boundary`. */
  predicate Boundary(text: bytes, i: nat)
    requires i <= |text|
  {
    i == |text| || !Continuation(text[i])
  }

  /** The row of one record, from the text before its mark and the text behind it. */
  function RecordOf(before: bytes, remainder: bytes): (r: Result<Row, Failure>)
    ensures r.Ok? ==> FullOid(r.value.oid) && |r.value.oid| < |remainder|
  {
    match SplitOnce(remainder, UNIT)
    case None => Err(InvalidRecord)
    case Some((field, _)) => if FullOid(Trim(field)) then Ok(RowOf(Trim(field), before)) else Err(InvalidOid)
  }

  /** What the loop does with the text from `prefix_start` on. */
  function ParseRecords(text: bytes): Outcome
    decreases |text|
  {
    if !Boundary(text, 0) then Err(NotBoundary)
    else
      match SplitOnce(text, RECORD)
      case None => Ok([])
      case Some((before, remainder)) =>
        match RecordOf(before, remainder)
        case Err(error) => Err(error)
        case Ok(row) => Prepended([row], ParseRecords(remainder[|row.oid| + 1..]))
  }

  function Prepended(rows: seq<Row>, rest: Outcome): Outcome {
    match rest
    case Ok(more) => Ok(rows + more)
    case Err(error) => Err(error)
  }

  /** Why a record is refused: it has no end, or its first field is no object name. */
  lemma RecordRefused(before: bytes, field: bytes, rest: bytes)
    requires UNIT !in field
    ensures RecordOf(before, field) == Err(InvalidRecord)
    ensures RecordOf(before, field + [UNIT] + rest)
         == if FullOid(Trim(field)) then Ok(RowOf(Trim(field), before)) else Err(InvalidOid)
  {
    SplitOnceAt(field, UNIT, rest);
    hide Trim, FullOid, RowOf;
  }

  method ReadRecord(before: bytes, remainder: bytes) returns (r: Result<Row, Failure>)
    ensures r == RecordOf(before, remainder)
  {
    hide Trim, FullOid, SplitOnce, Lines, Stripped;
    var record := SplitOnce(remainder, UNIT);
    if record.None? {
      return Err(InvalidRecord);
    }
    var oid := Trim(record.value.0);
    if !FullOid(oid) {
      return Err(InvalidOid);
    }
    var lines := Lines(Stripped(before));
    if lines == [] {
      return Ok(Row(oid, [], []));
    }
    return Ok(Row(oid, lines[|lines| - 1], lines[..|lines| - 1]));
  }

  method Parse(text: bytes) returns (r: Outcome)
    ensures r == if Utf8.Valid(text) then ParseRecords(text) else Err(InvalidText)
  {
    hide *;
    if !Utf8.Valid(text) {
      return Err(InvalidText);
    }
    var result: seq<Row> := [];
    var prefixStart := 0;
    Start(text);
    while true
      invariant 0 <= prefixStart <= |text|
      invariant Reached(text, prefixStart, result)
      decreases |text| - prefixStart
    {
      Turn(text, prefixStart, result);
      if !Boundary(text, prefixStart) {
        return Err(NotBoundary);
      }
      var found := SplitOnce(text[prefixStart..], RECORD);
      if found.None? {
        return Ok(result);
      }
      var (before, remainder) := found.value;
      var row := ReadRecord(before, remainder);
      if row.Err? {
        return Err(row.error);
      }
      prefixStart := prefixStart + |before| + 1 + |row.value.oid| + 1;
      result := result + [row.value];
    }
  }

  /** The loop invariant: `rows` and what the specification reads from `start` on make up the outcome. */
  ghost predicate Reached(text: bytes, start: nat, rows: seq<Row>) {
    start <= |text| && Prepended(rows, ParseRecords(text[start..])) == ParseRecords(text)
  }

  lemma Start(text: bytes)
    ensures Reached(text, 0, [])
  {
    assert text[0..] == text;
    PrependNothing(ParseRecords(text));
  }

  /** What one turn of the loop may rely on. */
  lemma Turn(text: bytes, start: nat, rows: seq<Row>)
    requires start <= |text| && Reached(text, start, rows)
    ensures !Boundary(text, start) ==> ParseRecords(text) == Err(NotBoundary)
    ensures Boundary(text, start) ==>
      match SplitOnce(text[start..], RECORD)
      case None => ParseRecords(text) == Ok(rows)
      case Some((before, remainder)) =>
        match RecordOf(before, remainder)
        case Err(error) => ParseRecords(text) == Err(error)
        case Ok(row) =>
          var next := start + |before| + 1 + |row.oid| + 1;
          next <= |text| && Reached(text, next, rows + [row])
  {
    hide *;
    var rest := text[start..];
    TurnEnds(text, start, rows, rest);
    var found := SplitOnce(rest, RECORD);
    if found.Some? && RecordOf(found.value.0, found.value.1).Ok? && Boundary(rest, 0) {
      TurnRow(text, start, rows, rest, found.value.0, found.value.1, RecordOf(found.value.0, found.value.1).value);
    }
  }

  lemma TurnEnds(text: bytes, start: nat, rows: seq<Row>, rest: bytes)
    requires start <= |text| && rest == text[start..] && Reached(text, start, rows)
    ensures Boundary(rest, 0) == Boundary(text, start)
    ensures !Boundary(rest, 0) ==> ParseRecords(text) == Err(NotBoundary)
    ensures Boundary(rest, 0) && SplitOnce(rest, RECORD).None? ==> ParseRecords(text) == Ok(rows)
    ensures Boundary(rest, 0) && SplitOnce(rest, RECORD).Some? ==>
      var record := RecordOf(SplitOnce(rest, RECORD).value.0, SplitOnce(rest, RECORD).value.1);
      record.Err? ==> ParseRecords(text) == Err(record.error)
  {
    hide SplitOnce, RecordOf, Prepended, FullOid, ParseRecords;
    var outcome := ParseRecords(rest);
    PrependEnds(rows, outcome);
    Ends(rest);
  }

  lemma Ends(rest: bytes)
    ensures !Boundary(rest, 0) ==> ParseRecords(rest) == Err(NotBoundary)
    ensures Boundary(rest, 0) && SplitOnce(rest, RECORD).None? ==> ParseRecords(rest) == Ok([])
    ensures Boundary(rest, 0) && SplitOnce(rest, RECORD).Some? ==>
      var record := RecordOf(SplitOnce(rest, RECORD).value.0, SplitOnce(rest, RECORD).value.1);
      record.Err? ==> ParseRecords(rest) == Err(record.error)
  {
    hide SplitOnce, RecordOf, Prepended, FullOid, Boundary;
  }

  lemma TurnRow(text: bytes, start: nat, rows: seq<Row>, rest: bytes, before: bytes, remainder: bytes, row: Row)
    requires start <= |text| && rest == text[start..] && Reached(text, start, rows) && Boundary(rest, 0)
    requires SplitOnce(rest, RECORD) == Some((before, remainder)) && RecordOf(before, remainder) == Ok(row)
    ensures var next := start + |before| + 1 + |row.oid| + 1;
      next <= |text| && Reached(text, next, rows + [row])
  {
    hide SplitOnce, RecordOf, Prepended, FullOid, Boundary;
    var more := ParseRecords(remainder[|row.oid| + 1..]);
    assert ParseRecords(rest) == Prepended([row], more);
    PrependTwice(rows, row, more);
    Advance(text, start, before, RECORD, remainder, |row.oid| + 1);
  }

  lemma Advance(text: bytes, start: nat, before: bytes, mark: byte, remainder: bytes, skip: nat)
    requires start <= |text| && text[start..] == before + [mark] + remainder && skip <= |remainder|
    ensures start + |before| + 1 + skip <= |text|
    ensures text[start + |before| + 1 + skip..] == remainder[skip..]
  {
    assert text[start + |before| + 1 + skip..] == text[start..][|before| + 1 + skip..];
  }

  lemma PrependNothing(rest: Outcome)
    ensures Prepended([], rest) == rest
  {
    if rest.Ok? {
      assert [] + rest.value == rest.value;
    }
  }

  lemma PrependEnds(rows: seq<Row>, rest: Outcome)
    ensures rest == Ok([]) ==> Prepended(rows, rest) == Ok(rows)
    ensures rest.Err? ==> Prepended(rows, rest) == rest
  {
    assert rows + [] == rows;
  }

  lemma PrependTwice(rows: seq<Row>, row: Row, rest: Outcome)
    ensures Prepended(rows, Prepended([row], rest)) == Prepended(rows + [row], rest)
  {
    if rest.Ok? {
      assert rows + ([row] + rest.value) == rows + [row] + rest.value;
    }
  }

  /** Whatever the text, every commit in an accepted log has a full object name: the names go on to the
      command line of the next `git`. */
  lemma {:induction false} OidsFull(text: bytes)
    ensures var r := ParseRecords(text); r.Ok? ==> forall i | 0 <= i < |r.value| :: FullOid(r.value[i].oid)
    decreases |text|
  {
    hide FullOid, RowOf, Trim;
    var found := SplitOnce(text, RECORD);
    if found.Some? && RecordOf(found.value.0, found.value.1).Ok? {
      var row := RecordOf(found.value.0, found.value.1).value;
      OidsFull(found.value.1[|row.oid| + 1..]);
    }
  }

  /* What git prints. */

  /** The graph lines of a row: its continuations, then the start of its own line. */
  function GraphText(row: Row): bytes {
    Join<byte>(row.continuations + [row.graph], '\n')
  }

  /** The text between the previous record, if there is one, and the mark of this one: `format:` puts a
      newline between two records. */
  function Before(row: Row, first: bool): bytes {
    if first then GraphText(row) else ['\n'] + GraphText(row)
  }

  /** The whole output: the records, then whatever graph follows the last one. */
  function Printed(rows: seq<Row>, first: bool, tail: bytes): bytes {
    if rows == [] then tail
    else Before(rows[0], first) + [RECORD] + rows[0].oid + [UNIT] + Printed(rows[1..], false, tail)
  }

  predicate GoodLine(line: bytes) {
    Utf8.Valid(line) && '\n' !in line && RECORD !in line
  }

  predicate GoodRow(row: Row) {
    FullOid(row.oid) && GoodLine(row.graph) && forall i | 0 <= i < |row.continuations| :: GoodLine(row.continuations[i])
  }

  predicate GoodRows(rows: seq<Row>) {
    forall i | 0 <= i < |rows| :: GoodRow(rows[i])
  }

  /** The rows whose cells survive: an empty graph cell stands only under no graph at all, and the graph
      of the first row does not open with an empty line. */
  predicate Kept(row: Row, first: bool) {
    && (row.graph == [] ==> row.continuations == [])
    && (first && row.continuations != [] ==> row.continuations[0] != [])
  }

  predicate AllKept(rows: seq<Row>) {
    forall i | 0 <= i < |rows| :: Kept(rows[i], i == 0)
  }

  /** The rows that come back. */
  function Seen(rows: seq<Row>, first: bool): (seen: seq<Row>)
    ensures |seen| == |rows|
  {
    if rows == [] then [] else [RowOf(rows[0].oid, Before(rows[0], first))] + Seen(rows[1..], false)
  }

  /** A printed log always parses, commit by commit and in order, and comes back unchanged exactly when
      every row is `Kept`. */
  lemma LogRoundTrip(rows: seq<Row>, tail: bytes)
    requires GoodRows(rows) && Utf8.Valid(tail) && RECORD !in tail
    ensures Utf8.Valid(Printed(rows, true, tail))
    ensures var r := ParseRecords(Printed(rows, true, tail));
      && r.Ok? && |r.value| == |rows|
      && (forall i | 0 <= i < |rows| :: r.value[i].oid == rows[i].oid)
      && (r.value == rows <==> AllKept(rows))
  {
    hide *;
    PrintedValid(rows, true, tail);
    PrintedRead(rows, true, tail);
    SeenKept(rows);
  }

  lemma SeenKept(rows: seq<Row>)
    requires GoodRows(rows)
    ensures Seen(rows, true) == rows <==> AllKept(rows)
    ensures forall i | 0 <= i < |rows| :: Seen(rows, true)[i].oid == rows[i].oid
  {
    hide Seen, RowOf, Before, Kept, GoodRow;
    var seen := Seen(rows, true);
    forall i | 0 <= i < |rows|
      ensures seen[i] == rows[i] <==> Kept(rows[i], i == 0)
      ensures seen[i].oid == rows[i].oid
    {
      SeenAt(rows, true, i);
      RowReadsBack(rows[i], i == 0);
    }
    assert seen == rows <==> forall i | 0 <= i < |rows| :: seen[i] == rows[i];
  }

  lemma {:induction false} SeenAt(rows: seq<Row>, first: bool, i: nat)
    requires i < |rows|
    ensures Seen(rows, first)[i] == RowOf(rows[i].oid, Before(rows[i], first && i == 0))
  {
    hide RowOf, Before;
    if i > 0 {
      SeenAt(rows[1..], false, i - 1);
    }
  }

  lemma {:induction false} PrintedRead(rows: seq<Row>, first: bool, tail: bytes)
    requires GoodRows(rows) && Utf8.Valid(tail) && RECORD !in tail
    ensures ParseRecords(Printed(rows, first, tail)) == Ok(Seen(rows, first))
  {
    if rows == [] {
      ValidStart(tail);
      Ends(tail);
      NoSplit(tail, RECORD);
    } else {
      BeforeGood(rows[0], first);
      PrintedRead(rows[1..], false, tail);
      RecordReads(Before(rows[0], first), rows[0].oid, Printed(rows[1..], false, tail));
    }
  }

  lemma {:induction false} NoSplit(s: bytes, c: byte)
    requires c !in s
    ensures SplitOnce(s, c) == None
  {
  }

  lemma ValidStart(s: bytes)
    requires Utf8.Valid(s)
    ensures Boundary(s, 0)
  {
  }

  /** One framed record is read whole, and reading goes on right behind it. */
  lemma RecordReads(before: bytes, oid: bytes, rest: bytes)
    requires Utf8.Valid(before) && RECORD !in before && FullOid(oid)
    ensures var text := before + [RECORD] + oid + [UNIT] + rest;
      ParseRecords(text) == Prepended([RowOf(oid, before)], ParseRecords(rest))
  {
    var text := before + [RECORD] + oid + [UNIT] + rest;
    var remainder := oid + [UNIT] + rest;
    assert text == before + [RECORD] + remainder;
    SplitOnceAt(before, RECORD, remainder);
    TextStarts(before, RECORD, remainder);
    RecordOfFull(before, oid, rest);
    assert remainder[|oid| + 1..] == rest;
    hide SplitOnce, RecordOf, Boundary, Prepended, FullOid, RowOf;
  }

  lemma TextStarts(before: bytes, mark: byte, remainder: bytes)
    requires Utf8.Valid(before) && mark as int < 0x80
    ensures Boundary(before + [mark] + remainder, 0)
  {
    ValidStart(before);
    assert (before + [mark] + remainder)[0] == if before == [] then mark else before[0];
  }

  lemma RecordOfFull(before: bytes, oid: bytes, rest: bytes)
    requires FullOid(oid)
    ensures RecordOf(before, oid + [UNIT] + rest) == Ok(RowOf(oid, before))
  {
    assert UNIT !in oid;
    SplitOnceAt(oid, UNIT, rest);
    OidUntrimmed(oid);
    hide RowOf, Trim, SplitOnce;
  }

  lemma OidUntrimmed(oid: bytes)
    requires FullOid(oid)
    ensures Trim(oid) == oid
  {
    assert IsHexDigit(oid[0]) && IsHexDigit(oid[|oid| - 1]);
  }

  /** The text before a good record is a string without a record mark. */
  lemma BeforeGood(row: Row, first: bool)
    requires GoodRow(row)
    ensures Utf8.Valid(Before(row, first)) && RECORD !in Before(row, first)
  {
    var lines := row.continuations + [row.graph];
    forall i | 0 <= i < |lines| ensures GoodLine(lines[i]) {
    }
    JoinGood(lines);
    AsciiSplits([], '\n', GraphText(row));
    assert [] + ['\n'] + GraphText(row) == ['\n'] + GraphText(row);
  }

  lemma {:induction false} JoinGood(lines: seq<bytes>)
    requires |lines| > 0 && forall i | 0 <= i < |lines| :: GoodLine(lines[i])
    ensures Utf8.Valid(Join<byte>(lines, '\n')) && RECORD !in Join<byte>(lines, '\n')
  {
    if |lines| > 1 {
      JoinGood(lines[1..]);
      AsciiSplits(lines[0], '\n', Join<byte>(lines[1..], '\n'));
    }
  }

  lemma {:induction false} PrintedValid(rows: seq<Row>, first: bool, tail: bytes)
    requires GoodRows(rows) && Utf8.Valid(tail)
    ensures Utf8.Valid(Printed(rows, first, tail))
  {
    if rows == [] {
    } else {
      BeforeGood(rows[0], first);
      PrintedValid(rows[1..], false, tail);
      RecordValid(Before(rows[0], first), rows[0].oid, Printed(rows[1..], false, tail));
    }
  }

  lemma RecordValid(before: bytes, oid: bytes, rest: bytes)
    requires Utf8.Valid(before) && FullOid(oid) && Utf8.Valid(rest)
    ensures Utf8.Valid(before + [RECORD] + oid + [UNIT] + rest)
  {
    AsciiValid(oid);
    AsciiSplits(oid, UNIT, rest);
    AsciiSplits(before, RECORD, oid + [UNIT] + rest);
    assert before + [RECORD] + (oid + [UNIT] + rest) == before + [RECORD] + oid + [UNIT] + rest;
  }

  /** The cells of a row come back exactly when the row is `Kept`. */
  lemma RowReadsBack(row: Row, first: bool)
    requires GoodRow(row)
    ensures RowOf(row.oid, Before(row, first)) == row <==> Kept(row, first)
    ensures RowOf(row.oid, Before(row, first)).oid == row.oid
  {
    var lines := row.continuations + [row.graph];
    if first && row.continuations != [] && row.continuations[0] == [] {
      assert lines[1..] == row.continuations[1..] + [row.graph];
      assert GraphText(row) == ['\n'] + Join<byte>(lines[1..], '\n');
      assert Stripped(GraphText(row)) == Join<byte>(lines[1..], '\n');
      LinesOf(lines[1..]);
      LinesShort(row.oid, Before(row, first), lines[1..]);
    } else {
      GraphStripped(row, first);
      LinesOf(lines);
      RowOfLines(row, Before(row, first));
    }
  }

  lemma LinesOf(lines: seq<bytes>)
    requires |lines| > 0 && forall i | 0 <= i < |lines| :: '\n' !in lines[i]
    ensures Lines(Join<byte>(lines, '\n')) == if lines[|lines| - 1] == [] then lines[..|lines| - 1] else lines
  {
    SplitJoin<byte>(lines, '\n');
  }

  lemma LinesShort(oid: bytes, before: bytes, lines: seq<bytes>)
    requires |Lines(Stripped(before))| <= |lines|
    ensures |lines| > 0 ==> |RowOf(oid, before).continuations| < |lines|
  {
    hide Lines, Stripped;
  }

  lemma GraphStripped(row: Row, first: bool)
    requires GoodRow(row) && !(first && row.continuations != [] && row.continuations[0] == [])
    ensures Stripped(Before(row, first)) == GraphText(row)
  {
    var lines := row.continuations + [row.graph];
    assert GoodLine(lines[0]);
    if first && lines[0] != [] {
      assert GraphText(row)[0] == lines[0][0];
    }
  }

  lemma RowOfLines(row: Row, before: bytes)
    requires var lines := row.continuations + [row.graph];
      Lines(Stripped(before)) == if row.graph == [] then lines[..|lines| - 1] else lines
    ensures RowOf(row.oid, before) == row <==> (row.graph == [] ==> row.continuations == [])
  {
    hide Lines, Stripped;
    assert (row.continuations + [row.graph])[..|row.continuations|] == row.continuations;
  }
}
