/** How the statistics of printed commits are read, whatever the names of the changed files. */
module StatisticsReading {
  import opened Wrappers
  import opened Bytes
  import opened Statistics
  import opened StatisticsFraming

  /** A name of the change ends in the marker. */
  predicate MarkedName(item: Item) {
    match item
    case Blank => false
    case Changed(_, Plain(_, _, path)) => Marked(path)
    case Changed(_, Renamed(_, _, from, to)) => Marked(from) || Marked(to)
  }

  /** A rename whose two names, side by side, read like the start of another record. */
  predicate Disguised(item: Item) {
    item.Changed? && item.change.Renamed? && Marked(item.change.from) && FullOid(item.change.to)
  }

  /** The first change with the marker in a name, or the number of items. */
  function MarkedAt(items: seq<Item>): (n: nat)
    ensures n <= |items|
    ensures n < |items| ==> MarkedName(items[n])
    ensures forall j | 0 <= j < n :: !MarkedName(items[j])
  {
    if items == [] || MarkedName(items[0]) then 0
    else
      var n := MarkedAt(items[1..]);
      assert forall j | 1 <= j <= n :: items[j] == items[1..][j - 1];
      n + 1
  }

  /** What a record adds to the table: at a disguised rename it ends, and a record of the new name goes on
      with the rest; any other name with the marker makes the output unreadable. */
  function ReadItems(table: Table, oid: bytes, items: seq<Item>): Option<Table>
    decreases |items|
  {
    var j := MarkedAt(items);
    if j == |items| then Some(table[oid := Sum(NONE, items)])
    else if !Disguised(items[j]) then None
    else ReadItems(table[oid := Sum(NONE, items[..j + 1])], items[j].change.to, items[j + 1..])
  }

  function ReadCommits(table: Table, commits: seq<Commit>): Option<Table>
    decreases |commits|
  {
    if commits == [] then Some(table)
    else
      match ReadItems(table, commits[0].oid, commits[0].items)
      case None => None
      case Some(t) => ReadCommits(t, commits[1..])
  }

  predicate GoodCommit(c: Commit) {
    FullOid(c.oid) && GoodItems(c.items)
  }

  predicate GoodCommits(commits: seq<Commit>) {
    forall i | 0 <= i < |commits| :: GoodCommit(commits[i])
  }

  /* Sequences. */

  lemma {:induction false} FieldsAppend(a: seq<Item>, b: seq<Item>)
    ensures Fields(a + b) == Fields(a) + Fields(b)
  {
    hide ItemFields;
    if a == [] {
      assert a + b == b;
    } else {
      assert (a + b)[1..] == a[1..] + b;
      FieldsAppend(a[1..], b);
    }
  }

  lemma {:induction false} BodyAppend(a: seq<bytes>, b: seq<bytes>)
    ensures Body(a + b) == Body(a) + Body(b)
  {
    if a == [] {
      assert a + b == b;
    } else {
      assert (a + b)[1..] == a[1..] + b;
      BodyAppend(a[1..], b);
    }
  }

  lemma {:induction false} SumAppend(t: Totals, a: seq<Item>, b: seq<Item>)
    ensures Sum(t, a + b) == Sum(Sum(t, a), b)
    decreases |a|
  {
    hide With;
    if a == [] {
      assert a + b == b;
    } else {
      assert (a + b)[1..] == a[1..] + b;
      SumAppend(if a[0].Blank? then t else With(t, a[0].change), a[1..], b);
    }
  }

  /** The body up to somewhere inside a field. */
  lemma {:induction false} OpenBodySplits(fields: seq<bytes>, head: bytes)
    requires NulFree(fields) && NUL !in head
    ensures Split<byte>(Body(fields) + head, NUL) == fields + [head]
  {
    if fields == [] {
      assert Body(fields) + head == head;
      SplitNone<byte>(head, NUL);
    } else {
      OpenBodySplits(fields[1..], head);
      var rest := Body(fields[1..]) + head;
      assert Body(fields) + head == fields[0] + [NUL] + rest;
      SplitFirst<byte>(fields[0], NUL, rest);
      hide Split;
      assert [fields[0]] + (fields[1..] + [head]) == fields + [head];
    }
  }

  /* The fields of unmarked changes. */

  lemma ItemClean(item: Item)
    requires GoodItem(item) && !MarkedName(item)
    ensures NulFree(ItemFields(item)) && !AnyMarked(ItemFields(item))
  {
    hide Entry, Marked;
    EmptyUnmarked();
    match item
    case Blank =>
      OneMarked([]);
    case Changed(newline, Plain(added, deleted, path)) =>
      EntryShape(newline, added, deleted, path);
      OneMarked(Entry(newline, added, deleted, path));
    case Changed(newline, Renamed(added, deleted, from, to)) =>
      var field := Entry(newline, added, deleted, []);
      EntryShape(newline, added, deleted, []);
      assert [field, from, to] == [field] + ([from] + [to]);
      OneMarked(field);
      OneMarked(from);
      OneMarked(to);
      AnyMarkedAppend([from], [to]);
      AnyMarkedAppend([field], [from] + [to]);
  }

  lemma {:induction false} FieldsClean(items: seq<Item>)
    requires GoodItems(items) && forall j | 0 <= j < |items| :: !MarkedName(items[j])
    ensures NulFree(Fields(items)) && !AnyMarked(Fields(items))
  {
    if items == [] {
    } else {
      ItemClean(items[0]);
      FieldsClean(items[1..]);
      AnyMarkedAppend(ItemFields(items[0]), Fields(items[1..]));
      hide ItemFields, AnyMarked, GoodItem, MarkedName;
    }
  }

  lemma CleanAnd(fields: seq<bytes>, field: bytes)
    requires NulFree(fields) && !AnyMarked(fields) && NUL !in field && !Marked(field)
    ensures NulFree(fields + [field]) && !AnyMarked(fields + [field])
  {
    hide Marked;
    OneMarked(field);
    AnyMarkedAppend(fields, [field]);
  }

  /** The first field behind a whole number of changes is no object name. */
  lemma RefusedBehind(items: seq<Item>, rest: bytes)
    requires GoodItems(items) && StartsRecord(rest)
    ensures Refused(Body(Fields(items)) + rest)
  {
    MarkerShape();
    if items == [] {
      assert Body(Fields(items)) + rest == rest;
      MarkerRefused(rest);
    } else {
      var first, fields := ItemFields(items[0])[0], Fields(items);
      FirstField(items[0]);
      hide ItemFields, FullOid, MARKER, MARK;
      assert fields[0] == first;
      var more := Body(fields[1..]) + rest;
      assert Body(fields) + rest == first + [NUL] + more;
      SplitOnceAt(first, NUL, more);
    }
  }

  lemma FirstField(item: Item)
    requires GoodItem(item)
    ensures ItemFields(item) != [] && NUL !in ItemFields(item)[0] && !FullOid(ItemFields(item)[0])
  {
    hide Entry, FullOid, Marked;
    EmptyUnmarked();
    match item
    case Blank =>
    case Changed(newline, Plain(added, deleted, path)) => EntryShape(newline, added, deleted, path);
    case Changed(newline, Renamed(added, deleted, from, to)) => EntryShape(newline, added, deleted, []);
  }

  lemma MarkerRefused(rest: bytes)
    requires StartsRecord(rest)
    ensures Refused(rest)
  {
    MarkerShape();
    hide MARK, FullOid;
    if rest == [] {
    } else {
      var more := rest[WIDTH..];
      assert rest == MARK + [NUL] + more;
      SplitOnceAt(MARK, NUL, more);
    }
  }

  /* Cutting a record. */

  /** A field that ends in the marker cuts the record short there, and starts another. */
  lemma CutAtField(table: Table, oid: bytes, fields: seq<bytes>, name: bytes, after: bytes) returns (head: bytes)
    requires FullOid(oid) && NulFree(fields) && !AnyMarked(fields) && NUL !in name && Marked(name)
    ensures NUL !in head
    ensures ParseFrom(table, MARKER + oid + [NUL] + (Body(fields) + (name + [NUL] + after)))
         == ParseFrom(table[oid := CountFields(NONE, fields + [head])], MARKER + after)
  {
    hide FindMarker, ParseFrom, Body, MARKER, AnyMarked, NulFree, FullOid, Marked, CountFields, Split, Next, WithRecord;
    var rest := name + [NUL] + after;
    var body := Body(fields) + rest;
    var n := |name| - |MARK|;
    CutHere(name, after);
    head := name[..n];
    BodyPast(fields, rest);
    NextAt(body, |Body(fields)| + n);
    HeadReads(table, oid, body);
    OpenBodySplits(fields, head);
    CutParts(Body(fields), name, after, n);
    WithRecordIs(table, oid, Body(fields) + head);
  }

  lemma CutParts(front: bytes, name: bytes, after: bytes, n: nat)
    requires n <= |name|
    ensures var body := front + (name + [NUL] + after);
      body[..|front| + n] == front + name[..n] && body[|front| + n..] == (name + [NUL] + after)[n..]
  {
  }

  lemma WithRecordIs(table: Table, oid: bytes, body: bytes)
    ensures WithRecord(table, oid, body) == table[oid := CountFields(NONE, Split<byte>(body, NUL))]
  {
  }

  /** The text of a record whose items are `front`, one changed file, and `back`. */
  lemma SplitBody(front: seq<Item>, item: Item, back: seq<Item>)
    ensures Body(Fields(front + [item] + back)) == Body(Fields(front)) + (Body(ItemFields(item)) + Body(Fields(back)))
  {
    FieldsAppend(front + [item], back);
    FieldsAppend(front, [item]);
    assert Fields([item]) == ItemFields(item) + [] == ItemFields(item) by {
      assert [item][1..] == [];
    }
    hide Fields, Body, ItemFields;
    BodyAppend(Fields(front) + ItemFields(item), Fields(back));
    BodyAppend(Fields(front), ItemFields(item));
    Regroup3(Body(Fields(front)), Body(ItemFields(item)), Body(Fields(back)));
  }

  lemma Regroup3(a: bytes, b: bytes, c: bytes)
    ensures a + b + c == a + (b + c)
  {
  }

  lemma BodyOfOne(a: bytes)
    ensures Body([a]) == a + [NUL]
  {
    assert [a][1..] == [];
  }

  lemma BodyOfTwo(a: bytes, b: bytes)
    ensures Body([a, b]) == a + [NUL] + (b + [NUL])
  {
    assert [a, b][1..] == [b];
    BodyOfOne(b);
  }

  /** A plain change with the marker in its name. */
  lemma PlainRefused(table: Table, oid: bytes, front: seq<bytes>, field: bytes, back: seq<Item>, rest: bytes)
    requires FullOid(oid) && NulFree(front) && !AnyMarked(front) && NUL !in field && Marked(field)
    requires GoodItems(back) && StartsRecord(rest)
    ensures ParseFrom(table, MARKER + oid + [NUL] + (Body(front) + (field + [NUL] + (Body(Fields(back)) + rest)))).Err?
  {
    hide *;
    var after := Body(Fields(back)) + rest;
    var head := CutAtField(table, oid, front, field, after);
    RefusedBehind(back, rest);
    HeadRefused(table[oid := CountFields(NONE, front + [head])], after);
  }

  /** A rename from a name with the marker: its new name is taken for an object name. */
  lemma RenamedCut(table: Table, oid: bytes, front: seq<bytes>, from: bytes, to: bytes, rest: bytes)
      returns (head: bytes)
    requires FullOid(oid) && NulFree(front) && !AnyMarked(front) && NUL !in from && NUL !in to && Marked(from)
    ensures NUL !in head
    ensures var r := ParseFrom(table, MARKER + oid + [NUL] + (Body(front) + (from + [NUL] + (to + [NUL] + rest))));
      && (!FullOid(to) ==> r.Err?)
      && r == ParseFrom(table[oid := CountFields(NONE, front + [head])], MARKER + (to + [NUL] + rest))
  {
    hide *;
    var after := to + [NUL] + rest;
    head := CutAtField(table, oid, front, from, after);
    if !FullOid(to) {
      NameRefused(to, rest);
      HeadRefused(table[oid := CountFields(NONE, front + [head])], after);
    }
  }

  lemma NameRefused(name: bytes, rest: bytes)
    requires NUL !in name && !FullOid(name)
    ensures Refused(name + [NUL] + rest)
  {
    SplitOnceAt(name, NUL, rest);
    hide SplitOnce, FullOid;
  }

  /** The counts of a record that is cut at a disguised rename include the rename. */
  lemma CutCounts(front: seq<Item>, newline: bool, change: Change, head: bytes)
    requires GoodItems(front) && change.Renamed?
    ensures CountFields(NONE, Fields(front) + [Entry(newline, change.added, change.deleted, [])] + [head])
         == Sum(NONE, front + [Changed(newline, change)])
  {
    var field := Entry(newline, change.added, change.deleted, []);
    var t := Sum(NONE, front);
    CountsItems(NONE, front, [field, head]);
    SumAppend(NONE, front, [Changed(newline, change)]);
    SumOne(t, Changed(newline, change));
    LastEntryCounts(t, newline, change, head);
    hide CountFields, Entry, Fields, Sum;
    assert Fields(front) + [field] + [head] == Fields(front) + [field, head];
  }

  lemma SumOne(t: Totals, item: Item)
    ensures Sum(t, [item]) == if item.Blank? then t else With(t, item.change)
  {
    assert [item][1..] == [];
  }

  lemma LastEntryCounts(t: Totals, newline: bool, change: Change, head: bytes)
    requires change.Renamed?
    ensures CountFields(t, [Entry(newline, change.added, change.deleted, []), head]) == With(t, change)
  {
    var field := Entry(newline, change.added, change.deleted, []);
    EntryReads(newline, change.added, change.deleted, []);
    ColumnReads(change.added);
    ColumnReads(change.deleted);
    hide EntryOf, Entry, Column, Count, Counted, Wrapped;
    assert [field, head][2..] == [];
  }

  /* Reading a record. */

  function Record(oid: bytes, items: seq<Item>, rest: bytes): bytes {
    MARKER + oid + [NUL] + (Body(Fields(items)) + rest)
  }

  lemma PlainText(f: bytes, e: bytes, n: bytes, b: bytes, r: bytes)
    ensures f + ((e + n) + b) + r == f + (e + n + (b + r))
  {
  }

  lemma RenamedText(f: bytes, e: bytes, n: bytes, a: bytes, t: bytes, b: bytes, r: bytes)
    ensures f + ((e + n + (a + n + (t + n))) + b) + r == f + (e + n) + (a + n + (t + n + (b + r)))
    ensures f + ((e + n + (a + n + (t + n))) + b) + r == f + (e + n) + (a + n) + (t + n + (b + r))
  {
    var x := t + n + (b + r);
    assert (e + n + (a + n + (t + n))) + b + r == e + n + (a + n + x);
    assert f + (e + n) + (a + n) + x == f + (e + n + (a + n + x));
    assert f + (e + n) + (a + n + x) == f + (e + n + (a + n + x));
    assert f + ((e + n + (a + n + (t + n))) + b) + r == f + ((e + n + (a + n + (t + n))) + b + r);
  }

  lemma BodyAnd(fields: seq<bytes>, field: bytes)
    ensures Body(fields + [field]) == Body(fields) + (field + [NUL])
  {
    BodyAppend(fields, [field]);
    BodyOfOne(field);
  }

  lemma PlainReads(table: Table, oid: bytes, front: seq<Item>, item: Item, back: seq<Item>, rest: bytes)
    requires FullOid(oid) && GoodItems(front) && GoodItem(item) && GoodItems(back) && StartsRecord(rest)
    requires (forall j | 0 <= j < |front| :: !MarkedName(front[j])) && MarkedName(item) && item.change.Plain?
    ensures ParseFrom(table, Record(oid, front + [item] + back, rest)).Err?
  {
    var c := item.change;
    var field := Entry(item.newline, c.added, c.deleted, c.path);
    EntryShape(item.newline, c.added, c.deleted, c.path);
    assert ItemFields(item) == [field];
    BodyOfOne(field);
    FieldsClean(front);
    SplitBody(front, item, back);
    PlainRefused(table, oid, Fields(front), field, back, rest);
    hide ParseFrom, Body, Fields, ItemFields, Entry, MARKER;
    PlainText(Body(Fields(front)), field, [NUL], Body(Fields(back)), rest);
  }

  /** The text of a record around a rename. */
  lemma RenamedBody(front: seq<Item>, item: Item, back: seq<Item>, rest: bytes, field: bytes)
    requires item.Changed? && item.change.Renamed?
    requires field == Entry(item.newline, item.change.added, item.change.deleted, [])
    ensures var from, to := item.change.from, item.change.to;
      var text := Body(Fields(front + [item] + back)) + rest;
      var more := Body(Fields(back)) + rest;
      && text == Body(Fields(front) + [field]) + (from + [NUL] + (to + [NUL] + more))
      && text == Body(Fields(front) + [field] + [from]) + (to + [NUL] + more)
  {
    var from, to := item.change.from, item.change.to;
    assert ItemFields(item) == [field] + [from, to];
    hide *;
    SplitBody(front, item, back);
    BodyAppend([field], [from, to]);
    BodyOfOne(field);
    BodyOfTwo(from, to);
    BodyAnd(Fields(front), field);
    BodyAnd(Fields(front) + [field], from);
    RenamedText(Body(Fields(front)), field, [NUL], from, to, Body(Fields(back)), rest);
  }

  lemma RenamedReads(table: Table, oid: bytes, front: seq<Item>, item: Item, back: seq<Item>, rest: bytes)
    requires FullOid(oid) && GoodItems(front) && GoodItem(item) && GoodItems(back) && StartsRecord(rest)
    requires (forall j | 0 <= j < |front| :: !MarkedName(front[j])) && MarkedName(item) && item.change.Renamed?
    ensures var r := ParseFrom(table, Record(oid, front + [item] + back, rest));
      && (!Disguised(item) ==> r.Err?)
      && (Disguised(item) ==>
            r == ParseFrom(table[oid := Sum(NONE, front + [item])], Record(item.change.to, back, rest)))
  {
    var c := item.change;
    var field := Entry(item.newline, c.added, c.deleted, []);
    RenamedBody(front, item, back, rest, field);
    RenamedFields(front, item, field);
    hide ParseFrom, Body, Fields, Entry, Marked, AnyMarked, NulFree, FullOid, GoodItems, Sum, StartsRecord;
    if Marked(c.from) {
      CutCounted(table, oid, front, item, Body(Fields(back)) + rest, field);
    } else {
      CleanAnd(Fields(front) + [field], c.from);
      PlainRefused(table, oid, Fields(front) + [field] + [c.from], c.to, back, rest);
    }
  }

  lemma RenamedFields(front: seq<Item>, item: Item, field: bytes)
    requires GoodItems(front) && (forall j | 0 <= j < |front| :: !MarkedName(front[j])) && GoodItem(item)
    requires item.Changed? && item.change.Renamed?
    requires field == Entry(item.newline, item.change.added, item.change.deleted, [])
    ensures NulFree(Fields(front) + [field]) && !AnyMarked(Fields(front) + [field])
    ensures NUL !in item.change.from && NUL !in item.change.to
  {
    EntryShape(item.newline, item.change.added, item.change.deleted, []);
    EmptyUnmarked();
    FieldsClean(front);
    hide Fields, Entry, Marked, AnyMarked, MarkedName, NulFree, GoodItems;
    CleanAnd(Fields(front), field);
  }

  lemma CutCounted(table: Table, oid: bytes, front: seq<Item>, item: Item, rest: bytes, field: bytes)
    requires FullOid(oid) && GoodItems(front) && item.Changed? && item.change.Renamed?
    requires field == Entry(item.newline, item.change.added, item.change.deleted, [])
    requires NulFree(Fields(front) + [field]) && !AnyMarked(Fields(front) + [field])
    requires NUL !in item.change.from && NUL !in item.change.to && Marked(item.change.from)
    ensures var from, to := item.change.from, item.change.to;
      var text := Body(Fields(front) + [field]) + (from + [NUL] + (to + [NUL] + rest));
      var r := ParseFrom(table, MARKER + oid + [NUL] + text);
      && (!FullOid(to) ==> r.Err?)
      && r == ParseFrom(table[oid := Sum(NONE, front + [item])], MARKER + to + [NUL] + rest)
  {
    var to := item.change.to;
    assert Changed(item.newline, item.change) == item;
    hide *;
    var head := RenamedCut(table, oid, Fields(front) + [field], item.change.from, to, rest);
    CutCounts(front, item.newline, item.change, head);
    MarkerText(MARKER, to, [NUL], rest);
  }

  lemma MarkerText(m: bytes, a: bytes, n: bytes, r: bytes)
    ensures m + (a + n + r) == m + a + n + r
  {
  }

  /** A record is read as `ReadItems` has it, whatever its names. */
  lemma {:induction false} RecordReadsItems(table: Table, oid: bytes, items: seq<Item>, rest: bytes)
    requires FullOid(oid) && GoodItems(items) && StartsRecord(rest)
    ensures var r := ParseFrom(table, Record(oid, items, rest));
      match ReadItems(table, oid, items)
      case None => r.Err?
      case Some(t) => r == ParseFrom(t, rest)
    decreases |items|
  {
    var j := MarkedAt(items);
    if j == |items| {
      UnmarkedReads(table, oid, items, rest);
      hide ParseFrom, Record, Sum, FullOid, MarkedAt;
    } else {
      var front, item, back := items[..j], items[j], items[j + 1..];
      assert items == front + [item] + back;
      assert items[..j + 1] == front + [item];
      hide ParseFrom, Record, Sum, FullOid, GoodItem, MarkedAt, Marked, MarkedName;
      MarkedReads(table, oid, front, item, back, rest);
      if Disguised(item) {
        RecordReadsItems(table[oid := Sum(NONE, front + [item])], item.change.to, back, rest);
      }
    }
  }

  lemma MarkedReads(table: Table, oid: bytes, front: seq<Item>, item: Item, back: seq<Item>, rest: bytes)
    requires FullOid(oid) && GoodItems(front) && GoodItem(item) && GoodItems(back) && StartsRecord(rest)
    requires (forall j | 0 <= j < |front| :: !MarkedName(front[j])) && MarkedName(item)
    ensures var r := ParseFrom(table, Record(oid, front + [item] + back, rest));
      && (!Disguised(item) ==> r.Err?)
      && (Disguised(item) ==>
            FullOid(item.change.to)
            && r == ParseFrom(table[oid := Sum(NONE, front + [item])], Record(item.change.to, back, rest)))
  {
    hide ParseFrom, Record, Sum, FullOid, GoodItems, Marked, StartsRecord;
    if item.change.Plain? {
      PlainReads(table, oid, front, item, back, rest);
    } else {
      RenamedReads(table, oid, front, item, back, rest);
    }
  }

  lemma UnmarkedReads(table: Table, oid: bytes, items: seq<Item>, rest: bytes)
    requires FullOid(oid) && GoodItems(items) && StartsRecord(rest)
    requires forall j | 0 <= j < |items| :: !MarkedName(items[j])
    ensures ParseFrom(table, Record(oid, items, rest)) == ParseFrom(table[oid := Sum(NONE, items)], rest)
  {
    FieldsClean(items);
    CountsRecord(items);
    RecordReads(table, oid, Fields(items), rest);
    hide ParseFrom, Fields, Body, Sum, CountFields, MARKER;
    Regroup3(MARKER + oid + [NUL], Body(Fields(items)), rest);
  }

  lemma PrintedFirst(commits: seq<Commit>)
    requires commits != []
    ensures Printed(commits) == Record(commits[0].oid, commits[0].items, Printed(commits[1..]))
  {
    hide MARKER, Fields, Body;
    Regroup3(MARKER + commits[0].oid + [NUL], Body(Fields(commits[0].items)), Printed(commits[1..]));
  }

  /** Any printed output is read as `ReadCommits` has it: no name of a file is excluded. */
  lemma {:induction false} PrintedReads(table: Table, commits: seq<Commit>)
    requires GoodCommits(commits)
    ensures match ReadCommits(table, commits)
            case None => ParseFrom(table, Printed(commits)).Err?
            case Some(t) => ParseFrom(table, Printed(commits)) == Ok(t)
    decreases |commits|
  {
    if commits == [] {
      NextRecord([]);
    } else {
      var c := commits[0];
      assert GoodCommit(c);
      hide ParseFrom, Printed, Record, ReadItems;
      PrintedFirst(commits);
      PrintedStarts(commits[1..]);
      RecordReadsItems(table, c.oid, c.items, Printed(commits[1..]));
      match ReadItems(table, c.oid, c.items)
      case None =>
      case Some(t) => PrintedReads(t, commits[1..]);
    }
  }
}
