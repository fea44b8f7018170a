/** What `git log -z --numstat` prints under the statistics format, and how the reader takes it apart:
    where its records end, and that names are never taken for counts. */
module StatisticsFraming {
  import opened Wrappers
  import opened Bytes
  import opened Utf8
  import opened Decimal
  import opened HistoryLog
  import opened Statistics

  /** A numstat column: the lines of a text file, or the dash of a binary one. */
  datatype Lines = Binary | Text(count: nat)

  /** One changed file. A rename leaves its path column empty and has its two names follow. */
  datatype Change =
    | Plain(added: Lines, deleted: Lines, path: bytes)
    | Renamed(added: Lines, deleted: Lines, from: bytes, to: bytes)

  /** What stands between two NULs: nothing, or a change, the first of which a newline precedes. */
  datatype Item = Blank | Changed(newline: bool, change: Change)

  datatype Commit = Commit(oid: bytes, items: seq<Item>)

  function Column(lines: Lines): bytes {
    match lines
    case Binary => ['-']
    case Text(count) => Digits(count)
  }

  function Entry(newline: bool, added: Lines, deleted: Lines, path: bytes): bytes {
    (if newline then ['\n'] else []) + Column(added) + ['\t'] + Column(deleted) + ['\t'] + path
  }

  function ItemFields(item: Item): seq<bytes> {
    match item
    case Blank => [[]]
    case Changed(newline, Plain(added, deleted, path)) => [Entry(newline, added, deleted, path)]
    case Changed(newline, Renamed(added, deleted, from, to)) => [Entry(newline, added, deleted, []), from, to]
  }

  function Fields(items: seq<Item>): seq<bytes> {
    if items == [] then [] else ItemFields(items[0]) + Fields(items[1..])
  }

  /** Every field ends with a NUL. */
  function Body(fields: seq<bytes>): bytes {
    if fields == [] then [] else fields[0] + [NUL] + Body(fields[1..])
  }

  function Printed(commits: seq<Commit>): bytes {
    if commits == [] then []
    else MARKER + commits[0].oid + [NUL] + Body(Fields(commits[0].items)) + Printed(commits[1..])
  }

  /* What the table should hold. */

  /** The lines a column adds: a number beyond `usize` counts as none. */
  function Counted(lines: Lines): nat {
    if lines.Text? && lines.count <= USIZE_MAX then lines.count else 0
  }

  function Sum(t: Totals, items: seq<Item>): Totals
    decreases |items|
  {
    if items == [] then t
    else if items[0].Blank? then Sum(t, items[1..])
    else
      Sum(With(t, items[0].change), items[1..])
  }

  function With(t: Totals, change: Change): Totals {
    Totals(t.files + 1, Wrapped(t.additions + Counted(change.added)), Wrapped(t.deletions + Counted(change.deleted)))
  }

  function Expected(table: Table, commits: seq<Commit>): Table
    decreases |commits|
  {
    if commits == [] then table
    else Expected(table[commits[0].oid := Sum(NONE, commits[0].items)], commits[1..])
  }

  /* Which output. */

  predicate GoodItem(item: Item) {
    match item
    case Blank => true
    case Changed(_, Plain(_, _, path)) => path != [] && NUL !in path
    case Changed(_, Renamed(_, _, from, to)) => NUL !in from && NUL !in to
  }

  predicate GoodItems(items: seq<Item>) {
    forall i | 0 <= i < |items| :: GoodItem(items[i])
  }

  predicate Marked(field: bytes) {
    EndsWith(field, MARK)
  }

  /* Finding the marker. */

  /** The marker is not in a field, nor at its end, unless the field ends in its text. */
  lemma {:induction false} FindPast(field: bytes, rest: bytes, mark: bytes)
    requires NUL !in field && NUL !in mark && mark != [] && !EndsWith(field, mark)
    ensures Find(field + [NUL] + rest, mark + [NUL]) == Shifted(Find(rest, mark + [NUL]), |field| + 1)
  {
    var s := field + [NUL] + rest;
    NotHere(field, rest, mark);
    if field == [] {
      assert s[1..] == rest;
    } else {
      assert s[1..] == field[1..] + [NUL] + rest;
      FindPast(field[1..], rest, mark);
    }
  }

  lemma NotHere(field: bytes, rest: bytes, mark: bytes)
    requires NUL !in field && NUL !in mark && mark != []
    ensures mark + [NUL] <= field + [NUL] + rest <==> field == mark
  {
    var s, part := field + [NUL] + rest, mark + [NUL];
    if |field| < |mark| {
      assert s[|field|] == NUL && part[|field|] == mark[|field|];
    } else if |mark| < |field| {
      assert part[|mark|] == NUL && s[|mark|] == field[|mark|];
    } else {
      assert s[..|part|] == field + [NUL];
      assert part[..|mark|] == mark && (field + [NUL])[..|mark|] == field;
    }
  }

  lemma {:induction false} FindHit(head: bytes, mark: bytes, rest: bytes)
    requires NUL !in head && NUL !in mark && mark != []
    ensures Find(head + mark + [NUL] + rest, mark + [NUL]) == Some(|head|)
  {
    var s := head + mark + [NUL] + rest;
    NotHere(head + mark, rest, mark);
    if head == [] {
      assert head + mark == mark;
    } else {
      assert s[1..] == head[1..] + mark + [NUL] + rest;
      FindHit(head[1..], mark, rest);
    }
  }

  /* The counts of one record. */

  lemma {:induction false} BodySplits(fields: seq<bytes>)
    requires forall i | 0 <= i < |fields| :: NUL !in fields[i]
    ensures Split<byte>(Body(fields), NUL) == fields + [[]]
  {
    if fields == [] {
    } else {
      BodySplits(fields[1..]);
      SplitFirst<byte>(fields[0], NUL, Body(fields[1..]));
      assert [fields[0]] + (fields[1..] + [[]]) == fields + [[]];
    }
  }

  lemma ColumnReads(lines: Lines)
    ensures Column(lines) != [] && Countable(Column(lines)) && Count(Column(lines)) == Counted(lines)
    ensures forall i | 0 <= i < |Column(lines)| :: IsDigit(Column(lines)[i]) || Column(lines)[i] == '-'
  {
    if lines.Text? {
      ParsedDigits(lines.count, USIZE_MAX);
      NumberDigits(lines.count);
    }
  }

  lemma EntryReads(newline: bool, added: Lines, deleted: Lines, path: bytes)
    ensures EntryOf(Entry(newline, added, deleted, path)) == Some(Columns(Column(added), Column(deleted), path))
  {
    ColumnReads(added);
    ColumnReads(deleted);
    hide Column, Countable, Count;
    var a, d := Column(added), Column(deleted);
    var text := a + ['\t'] + (d + ['\t'] + path);
    StrippedEntry(newline, a, d, path);
    assert '\t' !in a && '\t' !in d;
    hide IsDigit;
    SplitOnceAt(a, '\t', d + ['\t'] + path);
    SplitOnceAt(d, '\t', path);
    hide SplitOnce, Stripped;
  }

  lemma StrippedEntry(newline: bool, a: bytes, d: bytes, path: bytes)
    requires a != [] && a[0] != '\n'
    ensures Stripped((if newline then ['\n'] else []) + a + ['\t'] + d + ['\t'] + path)
         == a + ['\t'] + (d + ['\t'] + path)
  {
    assert [] + a + ['\t'] + d + ['\t'] + path == a + ['\t'] + (d + ['\t'] + path);
    assert ['\n'] + a + ['\t'] + d + ['\t'] + path == ['\n'] + (a + ['\t'] + (d + ['\t'] + path));
  }

  lemma BlankReads()
    ensures EntryOf([]) == None
  {
  }

  lemma CountSkips(t: Totals, field: bytes, rest: seq<bytes>)
    requires EntryOf(field) == None
    ensures CountFields(t, [field] + rest) == CountFields(t, rest)
  {
    hide EntryOf;
    assert ([field] + rest)[1..] == rest;
  }

  lemma CountPlain(t: Totals, field: bytes, entry: Columns, rest: seq<bytes>)
    requires EntryOf(field) == Some(entry) && entry.path != []
    ensures CountFields(t, [field] + rest) == CountFields(Plus(t, entry), rest)
  {
    hide EntryOf, Plus;
    assert ([field] + rest)[1..] == rest;
  }

  lemma CountRenamed(t: Totals, field: bytes, entry: Columns, names: seq<bytes>, rest: seq<bytes>)
    requires EntryOf(field) == Some(entry) && entry.path == [] && |names| == 2
    ensures CountFields(t, [field] + names + rest) == CountFields(Plus(t, entry), rest)
  {
    hide EntryOf, Plus;
    var fields := [field] + names + rest;
    assert fields[3..] == rest;
  }

  /** Counting the fields of a record counts its changes: the names of a rename are passed over whatever
      they look like, and so are blanks. */
  lemma {:induction false} CountsItems(t: Totals, items: seq<Item>, rest: seq<bytes>)
    requires GoodItems(items)
    ensures CountFields(t, Fields(items) + rest) == CountFields(Sum(t, items), rest)
    decreases |items|
  {
    if items == [] {
      assert Fields(items) + rest == rest;
    } else {
      hide CountFields, ItemFields, With, GoodItem;
      CountsItem(t, items[0], Fields(items[1..]) + rest);
      FieldsFirst(items, rest);
      CountsItems(if items[0].Blank? then t else With(t, items[0].change), items[1..], rest);
      hide Fields;
    }
  }

  lemma FieldsFirst(items: seq<Item>, rest: seq<bytes>)
    requires items != []
    ensures Fields(items) + rest == ItemFields(items[0]) + (Fields(items[1..]) + rest)
  {
    hide ItemFields;
  }

  /** So is the empty piece behind the last NUL. */
  lemma CountsRecord(items: seq<Item>)
    requires GoodItems(items)
    ensures CountFields(NONE, Fields(items) + [[]]) == Sum(NONE, items)
  {
    var last: seq<bytes> := [[]];
    CountsItems(NONE, items, last);
    BlankReads();
    CountSkips(Sum(NONE, items), [], []);
    CountsNothing(Sum(NONE, items));
    hide CountFields, Fields, Sum;
    assert last + [] == last;
  }

  lemma CountsNothing(t: Totals)
    ensures CountFields(t, []) == t
  {
  }

  lemma CountsItem(t: Totals, item: Item, rest: seq<bytes>)
    requires GoodItem(item)
    ensures CountFields(t, ItemFields(item) + rest)
         == CountFields(if item.Blank? then t else With(t, item.change), rest)
  {
    hide CountFields, EntryOf, Column, Entry, Counted, Count, Wrapped;
    match item
    case Blank =>
      BlankReads();
      CountSkips(t, [], rest);
    case Changed(newline, Plain(added, deleted, path)) =>
      EntryReads(newline, added, deleted, path);
      ColumnReads(added);
      ColumnReads(deleted);
      CountPlain(t, Entry(newline, added, deleted, path), Columns(Column(added), Column(deleted), path), rest);
    case Changed(newline, Renamed(added, deleted, from, to)) =>
      EntryReads(newline, added, deleted, []);
      ColumnReads(added);
      ColumnReads(deleted);
      var field := Entry(newline, added, deleted, []);
      assert [field, from, to] == [field] + [from, to];
      CountRenamed(t, field, Columns(Column(added), Column(deleted), []), [from, to], rest);
  }

  /* One record. */

  predicate NulFree(fields: seq<bytes>) {
    forall i | 0 <= i < |fields| :: NUL !in fields[i]
  }

  predicate AnyMarked(fields: seq<bytes>) {
    fields != [] && (Marked(fields[0]) || AnyMarked(fields[1..]))
  }

  /** Where the next record starts, if the output goes on. */
  predicate StartsRecord(rest: bytes) {
    rest == [] || MARKER <= rest
  }

  lemma MarkerShape()
    ensures MARKER == MARK + [NUL] && |MARKER| == WIDTH && NUL !in MARK && MARK != [] && MARKER != [] && '\t' !in MARK
    ensures !FullOid(MARK)
  {
  }

  lemma NextRecord(rest: bytes)
    requires StartsRecord(rest)
    ensures FindMarker(rest) == if rest == [] then None else Some(0)
  {
    MarkerShape();
    hide MARKER;
  }

  lemma {:induction false} BodyPast(fields: seq<bytes>, rest: bytes)
    requires NulFree(fields) && !AnyMarked(fields)
    ensures FindMarker(Body(fields) + rest) == Shifted(FindMarker(rest), |Body(fields)|)
  {
    if fields == [] {
      assert Body(fields) + rest == rest;
    } else {
      MarkerShape();
      hide MARK, MARKER, Find;
      assert Body(fields) + rest == fields[0] + [NUL] + (Body(fields[1..]) + rest);
      FindPast(fields[0], Body(fields[1..]) + rest, MARK);
      BodyPast(fields[1..], rest);
    }
  }

  lemma BodyEnds(fields: seq<bytes>, rest: bytes)
    requires NulFree(fields) && !AnyMarked(fields) && StartsRecord(rest)
    ensures Next(Body(fields) + rest) == |Body(fields)|
  {
    BodyPast(fields, rest);
    NextRecord(rest);
    hide FindMarker;
  }

  /** The marker, a name and a NUL open a record, which goes on to the next marker. */
  lemma HeadReads(table: Table, oid: bytes, body: bytes)
    requires FullOid(oid)
    ensures ParseFrom(table, MARKER + oid + [NUL] + body)
         == ParseFrom(WithRecord(table, oid, body[..Next(body)]), body[Next(body)..])
  {
    var tail := oid + [NUL] + body;
    assert MARKER + oid + [NUL] + body == MARKER + tail;
    MarkerHere(tail);
    OidReads(oid, body);
    Statistics.Turn(table, MARKER + tail);
    hide FindMarker, SplitOnce, FullOid, Utf8.Valid, WithRecord, Next, ParseFrom, MARKER;
  }

  lemma MarkerHere(tail: bytes)
    ensures FindMarker(MARKER + tail) == Some(0) && (MARKER + tail)[WIDTH..] == tail
  {
    MarkerShape();
    NextRecord(MARKER + tail);
    hide MARKER;
  }

  lemma OidReads(oid: bytes, body: bytes)
    requires FullOid(oid)
    ensures SplitOnce(oid + [NUL] + body, NUL) == Some((oid, body)) && Utf8.Valid(oid)
  {
    SplitOnceAt(oid, NUL, body);
    AsciiValid(oid);
  }

  /** The text behind a marker does not open with an object name. */
  predicate Refused(tail: bytes) {
    match SplitOnce(tail, NUL)
    case None => true
    case Some((oid, _)) => !FullOid(oid)
  }

  lemma HeadRefused(table: Table, tail: bytes)
    requires Refused(tail)
    ensures ParseFrom(table, MARKER + tail).Err?
  {
    MarkerHere(tail);
    Statistics.Turn(table, MARKER + tail);
    hide FindMarker, SplitOnce, FullOid, Utf8.Valid, WithRecord, Next, ParseFrom, MARKER;
  }

  /** Why a record is refused: its object name has no end, is ill-encoded, or is none. */
  lemma RecordRefused(table: Table, oid: bytes, body: bytes)
    requires NUL !in oid
    ensures ParseFrom(table, MARKER + oid) == Err(OmittedOid)
    ensures !Utf8.Valid(oid) ==> ParseFrom(table, MARKER + (oid + [NUL] + body)) == Err(InvalidUtf8)
    ensures Utf8.Valid(oid) && !FullOid(oid) ==> ParseFrom(table, MARKER + (oid + [NUL] + body)) == Err(InvalidObjectId)
  {
    SplitOnceAt(oid, NUL, body);
    MarkerHere(oid);
    MarkerHere(oid + [NUL] + body);
    assert SplitOnce(oid, NUL) == None;
    Statistics.Turn(table, MARKER + oid);
    Statistics.Turn(table, MARKER + (oid + [NUL] + body));
    hide FindMarker, SplitOnce, FullOid, Utf8.Valid, WithRecord, Next, ParseFrom, MARKER;
  }

  lemma RecordReads(table: Table, oid: bytes, fields: seq<bytes>, rest: bytes)
    requires FullOid(oid) && NulFree(fields) && !AnyMarked(fields) && StartsRecord(rest)
    ensures ParseFrom(table, MARKER + oid + [NUL] + Body(fields) + rest)
         == ParseFrom(table[oid := CountFields(NONE, fields + [[]])], rest)
  {
    var body := Body(fields) + rest;
    assert MARKER + oid + [NUL] + Body(fields) + rest == MARKER + oid + [NUL] + body;
    HeadReads(table, oid, body);
    BodyEnds(fields, rest);
    BodySplits(fields);
    assert body[..|Body(fields)|] == Body(fields) && body[|Body(fields)|..] == rest;
    hide ParseFrom, Next, CountFields, Split, FullOid, Body, MARKER, AnyMarked, StartsRecord;
  }

  lemma CutHere(field: bytes, after: bytes)
    requires NUL !in field && Marked(field)
    ensures var n := |field| - |MARK|;
      0 <= n < |field| && FindMarker(field + [NUL] + after) == Some(n) && (field + [NUL] + after)[n..] == MARKER + after
  {
    MarkerShape();
    hide MARK, MARKER, Find;
    var n := |field| - |MARK|;
    assert field == field[..n] + MARK;
    FindHit(field[..n], MARK, after);
    assert field[..n] + MARK + [NUL] + after == field[..n] + (MARKER + after);
  }

  /* The names of the changes. */

  lemma {:induction false} AnyMarkedAppend(a: seq<bytes>, b: seq<bytes>)
    ensures AnyMarked(a + b) <==> AnyMarked(a) || AnyMarked(b)
  {
    if a == [] {
      assert a + b == b;
    } else {
      assert (a + b)[1..] == a[1..] + b;
      AnyMarkedAppend(a[1..], b);
    }
  }

  lemma MarkedSuffix(front: bytes, c: byte, path: bytes, mark: bytes)
    requires c !in mark
    ensures EndsWith(front + [c] + path, mark) <==> EndsWith(path, mark)
  {
    var s := front + [c] + path;
    if |mark| <= |path| {
      assert s[|s| - |mark|..] == path[|path| - |mark|..];
    } else if |mark| <= |s| {
      assert s[|s| - |mark|..][|mark| - |path| - 1] == c;
    }
  }

  /** A counts field ends in the marker just when its path does; it holds no NUL and is no object name. */
  lemma EntryShape(newline: bool, added: Lines, deleted: Lines, path: bytes)
    requires NUL !in path
    ensures var field := Entry(newline, added, deleted, path);
      NUL !in field && !FullOid(field) && (Marked(field) <==> Marked(path))
  {
    var front := (if newline then ['\n'] else []) + Column(added) + ['\t'] + Column(deleted);
    ColumnReads(added);
    ColumnReads(deleted);
    assert NUL !in front;
    assert Entry(newline, added, deleted, path) == front + ['\t'] + path;
    hide *;
    FieldShape(front, path);
  }

  lemma FieldShape(front: bytes, path: bytes)
    requires NUL !in front && NUL !in path
    ensures var field := front + ['\t'] + path;
      NUL !in field && !FullOid(field) && (Marked(field) <==> Marked(path))
  {
    MarkerShape();
    MarkedSuffix(front, '\t', path, MARK);
    hide MARK;
    assert (front + ['\t'] + path)[|front|] == '\t';
  }

  lemma EmptyUnmarked()
    ensures !Marked([]) && !FullOid([])
  {
  }

  lemma OneMarked(field: bytes)
    ensures AnyMarked([field]) <==> Marked(field)
  {
  }

  /* The whole output. */

  lemma PrintedStarts(commits: seq<Commit>)
    ensures StartsRecord(Printed(commits))
  {
    hide MARKER;
  }

  lemma NextAt(body: bytes, end: nat)
    requires FindMarker(body) == Some(end)
    ensures Next(body) == end
  {
  }

  predicate Distinct(commits: seq<Commit>) {
    forall i, j | 0 <= i < j < |commits| :: commits[i].oid != commits[j].oid
  }

  /** With distinct object names the expected table is one entry per commit and nothing else. */
  lemma {:induction false} ExpectedEntries(table: Table, commits: seq<Commit>)
    requires Distinct(commits)
    ensures var m := Expected(table, commits);
      && (forall i | 0 <= i < |commits| :: commits[i].oid in m && m[commits[i].oid] == Sum(NONE, commits[i].items))
      && (forall oid | oid in m :: oid in table || exists i | 0 <= i < |commits| :: commits[i].oid == oid)
      && (forall oid | oid in table :: oid in m)
      && (forall oid | oid in table && (forall i | 0 <= i < |commits| :: commits[i].oid != oid) :: m[oid] == table[oid])
    decreases |commits|
  {
    if commits == [] {
    } else {
      hide Sum;
      var c := commits[0];
      ExpectedEntries(table[c.oid := Sum(NONE, c.items)], commits[1..]);
      assert forall i | 1 <= i < |commits| :: commits[i] == commits[1..][i - 1];
    }
  }
}
