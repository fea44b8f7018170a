/** For commits with distinct object names: the exact outputs whose table is the one printed, with no name
    of a changed file excluded. */
module StatisticsExact {
  import opened Wrappers
  import opened Bytes
  import opened Statistics
  import opened StatisticsFraming
  import opened StatisticsReading
  import opened StatisticsRoundTrip

  predicate AllBlank(items: seq<Item>) {
    forall j | 0 <= j < |items| :: items[j].Blank?
  }

  /** The only name with the marker is that of a disguised rename, and it is the last change. */
  predicate Late(c: Commit) {
    var j := MarkedAt(c.items);
    j < |c.items| && Disguised(c.items[j]) && AllBlank(c.items[j + 1..])
  }

  /** The new name of that rename, which the reader takes for a commit without changes. */
  function Planted(c: Commit): bytes
    requires Late(c)
  {
    c.items[MarkedAt(c.items)].change.to
  }

  predicate Tame(c: Commit) {
    MarkedAt(c.items) == |c.items| || Late(c)
  }

  predicate AllTame(commits: seq<Commit>) {
    forall i | 0 <= i < |commits| :: Tame(commits[i])
  }

  /** The planted name is that of another commit, which comes later or has no changes to lose. */
  predicate Harmless(commits: seq<Commit>, i: nat)
    requires i < |commits|
  {
    Late(commits[i]) && exists m | 0 <= m < |commits| ::
      m != i && commits[m].oid == Planted(commits[i]) && (m > i || AllBlank(commits[m].items))
  }

  /* Counting changed files. */

  function Files(items: seq<Item>): nat {
    if items == [] then 0 else (if items[0].Blank? then 0 else 1) + Files(items[1..])
  }

  lemma {:induction false} FilesCounted(t: Totals, items: seq<Item>)
    ensures Sum(t, items).files == t.files + Files(items)
    decreases |items|
  {
    hide Wrapped, Counted;
    if items == [] {
    } else {
      FilesCounted(if items[0].Blank? then t else With(t, items[0].change), items[1..]);
    }
  }

  lemma {:induction false} FilesAppend(a: seq<Item>, b: seq<Item>)
    ensures Files(a + b) == Files(a) + Files(b)
  {
    if a == [] {
      assert a + b == b;
    } else {
      assert (a + b)[1..] == a[1..] + b;
      FilesAppend(a[1..], b);
    }
  }

  lemma {:induction false} NoFiles(items: seq<Item>)
    ensures Files(items) == 0 <==> AllBlank(items)
  {
    if items == [] {
    } else {
      NoFiles(items[1..]);
      assert forall j | 1 <= j < |items| :: items[j] == items[1..][j - 1];
    }
  }

  lemma {:induction false} BlankSum(t: Totals, items: seq<Item>)
    requires AllBlank(items)
    ensures Sum(t, items) == t && MarkedAt(items) == |items|
    decreases |items|
  {
    if items == [] {
    } else {
      BlankSum(t, items[1..]);
      hide Marked;
    }
  }

  /** A commit has no totals exactly when it changes nothing. */
  lemma NothingSummed(items: seq<Item>)
    ensures Sum(NONE, items) == NONE <==> AllBlank(items)
  {
    FilesCounted(NONE, items);
    NoFiles(items);
    if AllBlank(items) {
      BlankSum(NONE, items);
    }
    hide Sum, Files, AllBlank;
  }

  lemma MarkedChanges(items: seq<Item>, j: nat)
    requires j < |items| && MarkedName(items[j])
    ensures Files(items) == Files(items[..j + 1]) + Files(items[j + 1..]) && 1 <= Files(items[..j + 1])
  {
    assert items == items[..j + 1] + items[j + 1..];
    assert items[..j + 1] == items[..j] + [items[j]];
    FilesAppend(items[..j + 1], items[j + 1..]);
    FilesAppend(items[..j], [items[j]]);
    assert Files([items[j]]) == 1 by {
      assert [items[j]][1..] == [];
    }
    hide Files, Marked;
  }

  /* One commit. */

  /** What reading a tame commit does to the table. */
  function AfterTame(table: Table, c: Commit): Table {
    var t := table[c.oid := Sum(NONE, c.items)];
    if Late(c) then t[Planted(c) := NONE] else t
  }

  lemma TameReads(table: Table, c: Commit)
    requires Tame(c)
    ensures ReadItems(table, c.oid, c.items) == Some(AfterTame(table, c))
  {
    var j := MarkedAt(c.items);
    if j < |c.items| {
      var front, back := c.items[..j + 1], c.items[j + 1..];
      assert c.items == front + back;
      SumAppend(NONE, front, back);
      BlankSum(Sum(NONE, front), back);
      BlankSum(NONE, back);
      var t := table[c.oid := Sum(NONE, front)];
      hide Sum, MarkedAt, Marked, FullOid, MarkedName, AllBlank;
      assert ReadItems(t, c.items[j].change.to, back) == Some(t[c.items[j].change.to := NONE]);
    }
    hide Sum, MarkedAt, Marked, FullOid, MarkedName;
  }

  /** Reading a record leaves the other entries alone or puts fewer files in their place. */
  lemma {:induction false} EntryShrinks(table: Table, oid: bytes, items: seq<Item>, k: bytes)
    requires ReadItems(table, oid, items).Some? && k in table
    ensures var t := ReadItems(table, oid, items).value;
      k in t && (t[k] == table[k] || t[k].files <= Files(items))
    decreases |items|
  {
    var j := MarkedAt(items);
    if j == |items| {
      FilesCounted(NONE, items);
      hide Sum, Files, MarkedAt;
    } else {
      var front, back := items[..j + 1], items[j + 1..];
      FilesCounted(NONE, front);
      MarkedChanges(items, j);
      hide Sum, Files, MarkedAt, MarkedName, Marked, FullOid;
      EntryShrinks(table[oid := Sum(NONE, front)], items[j].change.to, back, k);
    }
  }

  /** A marked commit keeps its totals only if nothing is changed behind its disguised rename. */
  lemma KeptIsLate(table: Table, c: Commit)
    requires MarkedAt(c.items) < |c.items| && ReadItems(table, c.oid, c.items).Some?
    requires var t := ReadItems(table, c.oid, c.items).value;
      c.oid in t && t[c.oid] == Sum(NONE, c.items)
    ensures Late(c)
  {
    var j := MarkedAt(c.items);
    var front, back := c.items[..j + 1], c.items[j + 1..];
    var t := table[c.oid := Sum(NONE, front)];
    FilesCounted(NONE, front);
    FilesCounted(NONE, c.items);
    MarkedChanges(c.items, j);
    NoFiles(back);
    hide Sum, Files, MarkedAt, MarkedName, Marked, FullOid, AllBlank;
    EntryShrinks(t, c.items[j].change.to, back, c.oid);
  }

  /* A run of tame commits. */

  predicate HasOid(commits: seq<Commit>, k: bytes) {
    exists i | 0 <= i < |commits| :: commits[i].oid == k
  }

  predicate PlantsLate(commits: seq<Commit>, k: bytes) {
    exists i | 0 <= i < |commits| :: Late(commits[i]) && Planted(commits[i]) == k
  }

  /** What tame commits do to an entry that none of them owns. */
  lemma {:induction false} TameKeeps(table: Table, commits: seq<Commit>, k: bytes)
    requires AllTame(commits) && k in table && !HasOid(commits, k)
    ensures ReadCommits(table, commits).Some?
    ensures var t := ReadCommits(table, commits).value;
      k in t && t[k] == if PlantsLate(commits, k) then NONE else table[k]
    decreases |commits|
  {
    hide ReadItems, Late, Sum;
    if commits == [] {
    } else {
      var c, rest := commits[0], commits[1..];
      assert Tame(c);
      TameReads(table, c);
      assert forall i | 1 <= i < |commits| :: commits[i] == rest[i - 1];
      assert HasOid(commits, k) <==> c.oid == k || HasOid(rest, k);
      assert PlantsLate(commits, k) <==> (Late(c) && Planted(c) == k) || PlantsLate(rest, k);
      hide Tame, HasOid, PlantsLate;
      TameKeeps(AfterTame(table, c), rest, k);
    }
  }

  lemma {:induction false} ReadSplit(table: Table, a: seq<Commit>, b: seq<Commit>)
    ensures ReadCommits(table, a + b)
         == match ReadCommits(table, a)
            case None => None
            case Some(t) => ReadCommits(t, b)
    decreases |a|
  {
    hide ReadItems;
    if a == [] {
      assert a + b == b;
    } else {
      assert (a + b)[1..] == a[1..] + b;
      match ReadItems(table, a[0].oid, a[0].items)
      case None =>
      case Some(t) => ReadSplit(t, a[1..], b);
    }
  }

  /** The table behind commit `i`, from which the rest is read. */
  lemma {:induction false} ReadAround(table: Table, commits: seq<Commit>, i: nat) returns (behind: Table)
    requires i < |commits| && AllTame(commits) && ReadCommits(table, commits).Some?
    ensures ReadCommits(behind, commits[i + 1..]) == ReadCommits(table, commits)
    ensures var c := commits[i];
      && c.oid in behind
      && (Late(c) ==> Planted(c) in behind && behind[Planted(c)] == NONE)
      && (!(Late(c) && Planted(c) == c.oid) ==> behind[c.oid] == Sum(NONE, c.items))
    ensures AllTame(commits[i + 1..])
  {
    var front, c, back := commits[..i], commits[i], commits[i + 1..];
    assert commits == front + ([c] + back);
    assert ([c] + back)[0] == c && ([c] + back)[1..] == back;
    assert Tame(c);
    assert forall n | 0 <= n < |back| :: back[n] == commits[i + 1 + n];
    ReadSplit(table, front, [c] + back);
    var before := ReadCommits(table, front).value;
    TameReads(before, c);
    behind := AfterTame(before, c);
    hide ReadItems, Late, Sum, Tame;
  }

  /** If every commit keeps its totals, every commit is tame: proved from the last commit backwards. */
  lemma {:induction false} KeptAreTame(table: Table, commits: seq<Commit>, end: Table)
    requires Distinct(commits) && ReadCommits(table, commits) == Some(end)
    requires forall i | 0 <= i < |commits| ::
      commits[i].oid in end && end[commits[i].oid] == Sum(NONE, commits[i].items)
    ensures AllTame(commits)
    decreases |commits|
  {
    hide ReadItems, Sum, Tame;
    if commits == [] {
    } else {
      var c, rest := commits[0], commits[1..];
      var t := ReadItems(table, c.oid, c.items).value;
      assert forall i | 1 <= i < |commits| :: commits[i] == rest[i - 1];
      KeptAreTame(t, rest, end);
      ItemsKeys(table, c.oid, c.items, c.oid);
      assert !HasOid(rest, c.oid);
      TameKeeps(t, rest, c.oid);
      FirstTame(table, c, end);
    }
  }

  lemma FirstTame(table: Table, c: Commit, end: Table)
    requires ReadItems(table, c.oid, c.items).Some?
    requires c.oid in end && end[c.oid] == Sum(NONE, c.items)
    requires var t := ReadItems(table, c.oid, c.items).value;
      c.oid in t && (end[c.oid] == t[c.oid] || end[c.oid] == NONE)
    ensures Tame(c)
  {
    var j := MarkedAt(c.items);
    if j < |c.items| {
      NothingSummed(c.items);
      assert !AllBlank(c.items) by {
        assert MarkedName(c.items[j]);
      }
      hide Sum, ReadItems, MarkedAt, Late, AllBlank;
      KeptIsLate(table, c);
    }
  }

  /* The theorem. */

  /** The printed table, entry by entry. */
  predicate Holds(end: Table, commits: seq<Commit>) {
    && (forall i | 0 <= i < |commits| ::
          commits[i].oid in end && end[commits[i].oid] == Sum(NONE, commits[i].items))
    && (forall k | k in end :: HasOid(commits, k))
  }

  lemma {:induction false} HoldsExpected(end: Table, commits: seq<Commit>)
    requires Distinct(commits)
    ensures end == Expected(map[], commits) <==> Holds(end, commits)
  {
    var m := Expected(map[], commits);
    ExpectedEntries(map[], commits);
    hide Expected, Sum;
    assert Holds(m, commits);
    if Holds(end, commits) {
      forall k | k in end || k in m
        ensures k in end && k in m && end[k] == m[k]
      {
        assert HasOid(commits, k);
        var i :| 0 <= i < |commits| && commits[i].oid == k;
        assert commits[i].oid in end && commits[i].oid in m;
      }
      assert end == m;
    }
  }

  /** Forward: in a table that is the printed one, a planted name is another commit's, and harmless. */
  lemma {:induction false} HeldIsHarmless(commits: seq<Commit>, end: Table, i: nat)
    requires Distinct(commits) && AllTame(commits) && ReadCommits(map[], commits) == Some(end)
    requires Holds(end, commits) && i < |commits| && Late(commits[i])
    ensures Harmless(commits, i)
  {
    var c, back := commits[i], commits[i + 1..];
    var name := Planted(c);
    hide Sum, ReadCommits, Late, Tame;
    var behind := ReadAround(map[], commits, i);
    assert forall n | 0 <= n < |back| :: back[n] == commits[i + 1 + n];
    if HasOid(back, name) {
      var n :| 0 <= n < |back| && back[n].oid == name;
      assert commits[i + 1 + n].oid == name;
    } else {
      TameKeeps(behind, back, name);
      assert name in end && end[name] == NONE;
      assert HasOid(commits, name);
      var m :| 0 <= m < |commits| && commits[m].oid == name;
      NothingSummed(commits[m].items);
      LateChanges(c);
      NothingSummed(c.items);
      assert m != i;
    }
  }

  lemma LateChanges(c: Commit)
    requires Late(c)
    ensures !AllBlank(c.items)
  {
    hide Marked, FullOid, MarkedAt;
  }

  /** Backward: with only harmless names planted, every commit keeps its totals. */
  lemma {:induction false} HarmlessIsHeld(commits: seq<Commit>, end: Table, m: nat)
    requires Distinct(commits) && AllTame(commits) && ReadCommits(map[], commits) == Some(end)
    requires forall i | 0 <= i < |commits| && Late(commits[i]) :: Harmless(commits, i)
    requires m < |commits|
    ensures commits[m].oid in end && end[commits[m].oid] == Sum(NONE, commits[m].items)
  {
    var c, back := commits[m], commits[m + 1..];
    hide Sum, ReadCommits, Late, Tame;
    var behind := ReadAround(map[], commits, m);
    assert forall n | 0 <= n < |back| :: back[n] == commits[m + 1 + n];
    assert !HasOid(back, c.oid);
    if Late(c) {
      assert Harmless(commits, m);
    }
    TameKeeps(behind, back, c.oid);
    if PlantsLate(back, c.oid) {
      var n :| 0 <= n < |back| && Late(back[n]) && Planted(back[n]) == c.oid;
      assert back[n] == commits[m + 1 + n];
      assert Harmless(commits, m + 1 + n);
      NothingSummed(c.items);
    }
  }

  lemma {:induction false} HarmlessKeys(commits: seq<Commit>, end: Table)
    requires AllTame(commits) && ReadCommits(map[], commits) == Some(end)
    requires forall i | 0 <= i < |commits| && Late(commits[i]) :: Harmless(commits, i)
    ensures forall k | k in end :: HasOid(commits, k)
  {
    hide ReadCommits, Late;
    forall k | k in end ensures HasOid(commits, k) {
      CommitsKeys(map[], commits, k);
      assert Named(commits, k);
      var i :| 0 <= i < |commits| && (commits[i].oid == k || Plants(commits[i].items, k));
      if commits[i].oid != k {
        assert Tame(commits[i]);
        PlantsOne(commits[i], k);
        assert Harmless(commits, i);
      }
    }
  }

  /** A tame commit has one disguised rename at most. */
  lemma PlantsOne(c: Commit, k: bytes)
    requires Tame(c) && Plants(c.items, k)
    ensures Late(c) && Planted(c) == k
  {
    var j := MarkedAt(c.items);
    assert forall n | j < n < |c.items| :: c.items[n] == c.items[j + 1..][n - j - 1];
    DisguisedIsMarked(c.items);
    hide Marked, FullOid, MarkedName, MarkedAt;
    var n :| 0 <= n < |c.items| && Disguised(c.items[n]) && c.items[n].change.to == k;
    assert n == j;
  }

  /** The statistics of distinct commits read back as printed exactly when every name with the marker is that
      of a rename that ends its record and leads to the name of a later commit, or of an earlier one without
      changes. */
  lemma {:induction false} StatisticsExactly(commits: seq<Commit>)
    requires GoodCommits(commits) && Distinct(commits)
    ensures ParseFrom(map[], Printed(commits)) == Ok(Expected(map[], commits))
       <==> forall i | 0 <= i < |commits| :: Unmarked(commits[i].items) || Harmless(commits, i)
  {
    PrintedReads(map[], commits);
    hide ParseFrom, Printed, Expected, ReadCommits, Late, Marked, FullOid, MarkedName;
    if forall i | 0 <= i < |commits| :: Unmarked(commits[i].items) || Harmless(commits, i) {
      HarmlessRead(commits);
    } else if ReadCommits(map[], commits) == Some(Expected(map[], commits)) {
      HoldsExpected(Expected(map[], commits), commits);
      ReadIsHarmless(commits, Expected(map[], commits));
    }
  }

  lemma {:induction false} ReadIsHarmless(commits: seq<Commit>, end: Table)
    requires Distinct(commits) && ReadCommits(map[], commits) == Some(end) && Holds(end, commits)
    ensures forall i | 0 <= i < |commits| :: Unmarked(commits[i].items) || Harmless(commits, i)
  {
    KeptAreTame(map[], commits, end);
    hide ReadCommits, Late, Sum, MarkedName, Harmless;
    forall i | 0 <= i < |commits| ensures Unmarked(commits[i].items) || Harmless(commits, i) {
      assert Tame(commits[i]);
      if Late(commits[i]) {
        HeldIsHarmless(commits, end, i);
      }
    }
  }

  lemma {:induction false} HarmlessRead(commits: seq<Commit>)
    requires Distinct(commits)
    requires forall i | 0 <= i < |commits| :: Unmarked(commits[i].items) || Harmless(commits, i)
    ensures ReadCommits(map[], commits) == Some(Expected(map[], commits))
  {
    forall i | 0 <= i < |commits|
      ensures Tame(commits[i]) && (Late(commits[i]) ==> Harmless(commits, i))
    {
      UnmarkedTame(commits[i]);
      assert Unmarked(commits[i].items) || Harmless(commits, i);
    }
    hide ReadCommits, Late, Sum, MarkedName, Harmless, Expected, Tame, Unmarked;
    TameAccepted(map[], commits);
    var end := ReadCommits(map[], commits).value;
    HarmlessKeys(commits, end);
    forall m | 0 <= m < |commits|
      ensures commits[m].oid in end && end[commits[m].oid] == Sum(NONE, commits[m].items)
    {
      HarmlessIsHeld(commits, end, m);
    }
    HoldsExpected(end, commits);
  }

  lemma UnmarkedTame(c: Commit)
    requires Unmarked(c.items) || Late(c)
    ensures Tame(c) && (Late(c) ==> !Unmarked(c.items))
  {
    hide Marked, FullOid, MarkedName;
  }

  lemma {:induction false} TameAccepted(table: Table, commits: seq<Commit>)
    requires AllTame(commits)
    ensures ReadCommits(table, commits).Some?
    decreases |commits|
  {
    hide ReadItems, Late, Tame;
    if commits == [] {
    } else {
      var c := commits[0];
      assert Tame(c);
      TameReads(table, c);
      assert forall i | 1 <= i < |commits| :: commits[i] == commits[1..][i - 1];
      TameAccepted(AfterTame(table, c), commits[1..]);
    }
  }
}
