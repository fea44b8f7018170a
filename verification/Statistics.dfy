/** The output of `git log -z --numstat --format=format:GILTI-STATS%x00%H%x00`: how git frames the change
    counts of each commit and how the server adds them up. */
module Statistics {
  import opened Wrappers
  import opened Bytes
  import opened Utf8
  import opened Decimal
  import opened HistoryLog

  const NUL: byte := Byte(0)
  const MARK: bytes := "GILTI-STATS"
  const MARKER: bytes := MARK + [NUL]

  const WIDTH: nat := 12

  function FindMarker(s: bytes): (r: Option<nat>)
    ensures r.Some? ==> r.value + WIDTH <= |s|
  {
    assert |MARKER| == WIDTH;
    Find(s, MARKER)
  }

  datatype Refusal = OmittedOid | InvalidUtf8 | InvalidObjectId

  datatype Totals = Totals(files: nat, additions: nat, deletions: nat)

  type Table = map<bytes, Totals>

  /** Addition of `usize` in a release build. */
  function Wrapped(n: nat): (r: nat)
    ensures r <= USIZE_MAX
  {
    n % (USIZE_MAX + 1)
  }

  predicate Countable(value: bytes) {
    value == "-" || AllDigits(value)
  }

  /** The number of lines a column stands for. */
  function Count(value: bytes): nat {
    if value == "-" then 0
    else
      match Parsed(value, USIZE_MAX)
      case None => 0
      case Some(n) => n
  }

  datatype Columns = Columns(added: bytes, deleted: bytes, path: bytes)

  /** The three columns of a field; `None` when there are fewer. */
  function ColumnsOf(field: bytes): Option<Columns> {
    match SplitOnce(Stripped(field), '\t')
    case None => None
    case Some((added, rest)) =>
      match SplitOnce(rest, '\t')
      case None => None
      case Some((deleted, path)) => Some(Columns(added, deleted, path))
  }

  /** The columns of a field that is counted as a changed file. */
  function EntryOf(field: bytes): Option<Columns> {
    var c := ColumnsOf(field);
    if c.Some? && Countable(c.value.added) && Countable(c.value.deleted) then c else None
  }

  function Plus(t: Totals, entry: Columns): Totals {
    Totals(t.files + 1, Wrapped(t.additions + Count(entry.added)), Wrapped(t.deletions + Count(entry.deleted)))
  }

  /** The totals when `fields` are still to come: an entry without a path takes the next two fields, the
      names of a rename, with it. */
  function CountFields(t: Totals, fields: seq<bytes>): Totals
    decreases |fields|
  {
    if fields == [] then t
    else
      match EntryOf(fields[0])
      case None => CountFields(t, fields[1..])
      case Some(entry) => CountFields(Plus(t, entry), fields[Taken(fields, entry)..])
  }

  function Taken(fields: seq<bytes>, entry: Columns): (n: nat)
    requires fields != []
    ensures 0 < n <= |fields|
  {
    if entry.path != [] then 1 else if |fields| < 3 then |fields| else 3
  }

  const NONE := Totals(0, 0, 0)

  /** What the loop makes of the output from `cursor` on. */
  function ParseFrom(table: Table, output: bytes): Result<Table, Refusal>
    decreases |output|
  {
    match FindMarker(output)
    case None => Ok(table)
    case Some(i) =>
      match SplitOnce(output[i + WIDTH..], NUL)
      case None => Err(OmittedOid)
      case Some((oid, body)) =>
        if !Utf8.Valid(oid) then Err(InvalidUtf8)
        else if !FullOid(oid) then Err(InvalidObjectId)
        else
          var end := Next(body);
          ParseFrom(WithRecord(table, oid, body[..end]), body[end..])
  }

  /** Where the body of a record ends. */
  function Next(body: bytes): (n: nat)
    ensures n <= |body|
  {
    match FindMarker(body)
    case None => |body|
    case Some(i) => i
  }

  method CountEntries(body: bytes) returns (totals: Totals)
    ensures totals == CountFields(NONE, Split<byte>(body, NUL))
  {
    hide CountFields, ColumnsOf, Countable, Plus;
    var fields: seq<bytes> := Split<byte>(body, NUL);
    var i := 0;
    totals := NONE;
    assert fields[0..] == fields;
    while i < |fields|
      invariant 0 <= i <= |fields|
      invariant CountFields(totals, fields[i..]) == CountFields(NONE, fields)
    {
      FieldsStep(totals, fields, i);
      var columns := ColumnsOf(fields[i]);
      i := i + 1;
      if columns.None? {
        continue;
      }
      if Countable(columns.value.added) && Countable(columns.value.deleted) {
        totals := Plus(totals, columns.value);
        if columns.value.path == [] {
          i := if i + 2 <= |fields| then i + 2 else |fields|;
        }
      }
    }
    FieldsEnd(totals, fields);
  }

  lemma FieldsEnd(t: Totals, fields: seq<bytes>)
    ensures CountFields(t, fields[|fields|..]) == t
  {
  }

  lemma FieldsStep(t: Totals, fields: seq<bytes>, i: nat)
    requires i < |fields|
    ensures EntryOf(fields[i]).None? ==> CountFields(t, fields[i..]) == CountFields(t, fields[i + 1..])
    ensures EntryOf(fields[i]).Some? ==>
      var entry := EntryOf(fields[i]).value;
      var next := if entry.path != [] then i + 1 else if |fields| < i + 3 then |fields| else i + 3;
      CountFields(t, fields[i..]) == CountFields(Plus(t, entry), fields[next..])
  {
    hide EntryOf, Plus;
    var rest := fields[i..];
    assert rest[1..] == fields[i + 1..];
    assert |rest| >= 3 ==> rest[3..] == fields[i + 3..];
    assert rest[|rest|..] == fields[|fields|..];
  }

  method Parse(output: bytes) returns (r: Result<Table, Refusal>)
    ensures r == ParseFrom(map[], output)
  {
    hide ParseFrom, FindMarker, Next, FullOid, Utf8.Valid, SplitOnce, MARKER, CountFields, Split;
    var result: Table := map[];
    var cursor := 0;
    assert output[0..] == output;
    while true
      invariant 0 <= cursor <= |output|
      invariant ParseFrom(result, output[cursor..]) == ParseFrom(map[], output)
      decreases |output| - cursor
    {
      Turn(result, output[cursor..]);
      var relative := FindMarker(output[cursor..]);
      if relative.None? {
        return Ok(result);
      }
      var start := cursor + relative.value + WIDTH;
      assert output[cursor..][relative.value + WIDTH..] == output[start..];
      var record := SplitOnce(output[start..], NUL);
      if record.None? {
        return Err(OmittedOid);
      }
      var (oid, body) := record.value;
      if !Utf8.Valid(oid) {
        return Err(InvalidUtf8);
      }
      if !FullOid(oid) {
        return Err(InvalidObjectId);
      }
      var end := Next(body);
      var totals := CountEntries(body[..end]);
      result := result[oid := totals];
      Advance(output, start, oid, NUL, body, end);
      cursor := start + |oid| + 1 + end;
    }
  }

  lemma Turn(table: Table, output: bytes)
    ensures var found := FindMarker(output);
      && (found.None? ==> ParseFrom(table, output) == Ok(table))
      && (found.Some? ==> TurnRecord(table, output, output[found.value + WIDTH..]))
  {
    hide FindMarker, SplitOnce, Utf8.Valid, FullOid, Next, CountFields, Split;
  }

  ghost predicate TurnRecord(table: Table, output: bytes, rest: bytes) {
    var record := SplitOnce(rest, NUL);
    && (record.None? ==> ParseFrom(table, output) == Err(OmittedOid))
    && (record.Some? ==>
      var oid, body := record.value.0, record.value.1;
      && (!Utf8.Valid(oid) ==> ParseFrom(table, output) == Err(InvalidUtf8))
      && (Utf8.Valid(oid) && !FullOid(oid) ==> ParseFrom(table, output) == Err(InvalidObjectId))
      && (Utf8.Valid(oid) && FullOid(oid) ==>
        ParseFrom(table, output) == ParseFrom(WithRecord(table, oid, body[..Next(body)]), body[Next(body)..])))
  }

  function WithRecord(table: Table, oid: bytes, body: bytes): Table {
    table[oid := CountFields(NONE, Split<byte>(body, NUL))]
  }
}
