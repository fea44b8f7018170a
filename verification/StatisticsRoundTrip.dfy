/** Exactly when the statistics of printed commits are accepted, and when the table is the one printed. */
module StatisticsRoundTrip {
  import opened Wrappers
  import opened Bytes
  import opened Statistics
  import opened StatisticsFraming
  import opened StatisticsReading

  predicate Unmarked(items: seq<Item>) {
    forall j | 0 <= j < |items| :: !MarkedName(items[j])
  }

  /** Every name with the marker belongs to a disguised rename. */
  predicate OnlyDisguised(items: seq<Item>) {
    forall j | 0 <= j < |items| :: MarkedName(items[j]) ==> Disguised(items[j])
  }

  /* When an output is accepted. */

  lemma {:induction false} ItemsAccepted(table: Table, oid: bytes, items: seq<Item>)
    ensures ReadItems(table, oid, items).Some? <==> OnlyDisguised(items)
    decreases |items|
  {
    var j := MarkedAt(items);
    hide Sum, MarkedName, Marked, FullOid, MarkedAt;
    if j == |items| {
    } else if Disguised(items[j]) {
      ItemsAccepted(table[oid := Sum(NONE, items[..j + 1])], items[j].change.to, items[j + 1..]);
      assert forall k | j < k < |items| :: items[k] == items[j + 1..][k - j - 1];
    }
  }

  lemma {:induction false} CommitsAccepted(table: Table, commits: seq<Commit>)
    ensures ReadCommits(table, commits).Some?
       <==> forall i | 0 <= i < |commits| :: OnlyDisguised(commits[i].items)
    decreases |commits|
  {
    hide ReadItems, OnlyDisguised;
    if commits == [] {
    } else {
      var c := commits[0];
      ItemsAccepted(table, c.oid, c.items);
      assert forall i | 1 <= i < |commits| :: commits[i] == commits[1..][i - 1];
      match ReadItems(table, c.oid, c.items)
      case None =>
      case Some(t) => CommitsAccepted(t, commits[1..]);
    }
  }

  /** An output is accepted exactly when every name with the marker is that of a disguised rename. */
  lemma StatisticsAccepted(table: Table, commits: seq<Commit>)
    requires GoodCommits(commits)
    ensures ParseFrom(table, Printed(commits)).Ok?
       <==> forall i | 0 <= i < |commits| :: OnlyDisguised(commits[i].items)
  {
    PrintedReads(table, commits);
    CommitsAccepted(table, commits);
    hide ParseFrom, Printed, ReadCommits, OnlyDisguised;
  }

  /* Which names the table holds. */

  predicate Plants(items: seq<Item>, name: bytes) {
    exists j | 0 <= j < |items| :: Disguised(items[j]) && items[j].change.to == name
  }

  lemma {:induction false} ItemsKeys(table: Table, oid: bytes, items: seq<Item>, k: bytes)
    requires ReadItems(table, oid, items).Some?
    ensures k in ReadItems(table, oid, items).value <==> k in table || k == oid || Plants(items, k)
    decreases |items|
  {
    var j := MarkedAt(items);
    DisguisedIsMarked(items);
    hide Sum, MarkedName, Marked, FullOid, MarkedAt;
    if j == |items| {
    } else {
      ItemsKeys(table[oid := Sum(NONE, items[..j + 1])], items[j].change.to, items[j + 1..], k);
      assert forall n | j < n < |items| :: items[n] == items[j + 1..][n - j - 1];
    }
  }

  lemma DisguisedIsMarked(items: seq<Item>)
    ensures forall j | 0 <= j < |items| && Disguised(items[j]) :: MarkedName(items[j])
  {
    hide Marked, FullOid;
  }

  ghost predicate Named(commits: seq<Commit>, k: bytes) {
    exists i | 0 <= i < |commits| :: commits[i].oid == k || Plants(commits[i].items, k)
  }

  lemma {:induction false} CommitsKeys(table: Table, commits: seq<Commit>, k: bytes)
    requires ReadCommits(table, commits).Some?
    ensures k in ReadCommits(table, commits).value <==> k in table || Named(commits, k)
    decreases |commits|
  {
    hide ReadItems, Plants;
    if commits == [] {
    } else {
      var c := commits[0];
      ItemsKeys(table, c.oid, c.items, k);
      assert forall i | 1 <= i < |commits| :: commits[i] == commits[1..][i - 1];
      CommitsKeys(ReadItems(table, c.oid, c.items).value, commits[1..], k);
      assert Named(commits, k) <==> c.oid == k || Plants(c.items, k) || Named(commits[1..], k);
    }
  }

  /** A disguised rename anywhere in an accepted output is reported under its new name. */
  lemma DisguisedRename(table: Table, commits: seq<Commit>, i: nat, j: nat)
    requires GoodCommits(commits) && i < |commits| && j < |commits[i].items| && Disguised(commits[i].items[j])
    ensures var r := ParseFrom(table, Printed(commits));
      r.Ok? ==> commits[i].items[j].change.to in r.value
  {
    PrintedReads(table, commits);
    hide ParseFrom, Printed, ReadCommits, Disguised;
    var name := commits[i].items[j].change.to;
    assert Plants(commits[i].items, name);
    if ReadCommits(table, commits).Some? {
      CommitsKeys(table, commits, name);
    }
  }

  /* Reading back, when no disguised name is a name that the table should hold. */

  lemma {:induction false} UnmarkedRead(table: Table, commits: seq<Commit>)
    requires forall i | 0 <= i < |commits| :: Unmarked(commits[i].items)
    ensures ReadCommits(table, commits) == Some(Expected(table, commits))
    decreases |commits|
  {
    hide Sum, MarkedName;
    if commits == [] {
    } else {
      var c := commits[0];
      assert MarkedAt(c.items) == |c.items|;
      assert forall i | 1 <= i < |commits| :: commits[i] == commits[1..][i - 1];
      UnmarkedRead(table[c.oid := Sum(NONE, c.items)], commits[1..]);
    }
  }

  lemma {:induction false} ExpectedKeys(table: Table, commits: seq<Commit>, k: bytes)
    ensures k in Expected(table, commits) <==> k in table || exists i | 0 <= i < |commits| :: commits[i].oid == k
    decreases |commits|
  {
    hide Sum;
    if commits == [] {
    } else {
      var c := commits[0];
      ExpectedKeys(table[c.oid := Sum(NONE, c.items)], commits[1..], k);
      assert forall i | 1 <= i < |commits| :: commits[i] == commits[1..][i - 1];
      assert commits[0].oid == c.oid;
    }
  }

  /** The table is the printed one exactly when no name of a changed file ends in the marker, as long as
      no disguised rename leads to a name of the table or of a printed commit. */
  lemma StatisticsRoundTrip(table: Table, commits: seq<Commit>, names: set<bytes>)
    requires GoodCommits(commits)
    requires table.Keys <= names && forall i | 0 <= i < |commits| :: commits[i].oid in names
    requires forall name | name in names :: forall i | 0 <= i < |commits| :: !Plants(commits[i].items, name)
    ensures ParseFrom(table, Printed(commits)) == Ok(Expected(table, commits))
       <==> forall i | 0 <= i < |commits| :: Unmarked(commits[i].items)
  {
    PrintedReads(table, commits);
    CommitsAccepted(table, commits);
    hide ParseFrom, Printed, ReadCommits, Expected, Marked, FullOid, MarkedName;
    if forall i | 0 <= i < |commits| :: Unmarked(commits[i].items) {
      UnmarkedRead(table, commits);
    } else if ReadCommits(table, commits).Some? {
      var i :| 0 <= i < |commits| && !Unmarked(commits[i].items);
      assert OnlyDisguised(commits[i].items);
      var j :| 0 <= j < |commits[i].items| && Disguised(commits[i].items[j]);
      var name := commits[i].items[j].change.to;
      assert Plants(commits[i].items, name);
      CommitsKeys(table, commits, name);
      ExpectedKeys(table, commits, name);
    }
  }
}
