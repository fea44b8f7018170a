/** The side-by-side view of a hunk: removals left, additions right, everything else on both sides. */
module SideRows {
  import opened Wrappers

  datatype Line = Line(origin: char, content: string)

  datatype Row = Row(left: Option<Line>, right: Option<Line>)

  predicate IsChange(line: Line) {
    line.origin == '-' || line.origin == '+'
  }

  /** The lines of one origin. */
  function Of(lines: seq<Line>, origin: char): seq<Line> {
    if lines == [] then []
    else (if lines[0].origin == origin then [lines[0]] else []) + Of(lines[1..], origin)
  }

  /** The lines of every other origin. */
  function Without(lines: seq<Line>, origin: char): seq<Line> {
    if lines == [] then []
    else (if lines[0].origin != origin then [lines[0]] else []) + Without(lines[1..], origin)
  }

  function At(lines: seq<Line>, i: nat): Option<Line> {
    if i < |lines| then Some(lines[i]) else None
  }

  /** The rows of one block of changes from its `i`-th on: the i-th removal beside the i-th addition. */
  function Paired(removed: seq<Line>, added: seq<Line>, i: nat): seq<Row>
    decreases |removed| + |added| - i
  {
    if i >= |removed| && i >= |added| then []
    else [Row(At(removed, i), At(added, i))] + Paired(removed, added, i + 1)
  }

  /** The rows of a hunk whose pending block of changes is `block`. */
  function Rows(block: seq<Line>, lines: seq<Line>): seq<Row>
    decreases |lines|
  {
    if lines == [] then Paired(Of(block, '-'), Of(block, '+'), 0)
    else if IsChange(lines[0]) then Rows(block + [lines[0]], lines[1..])
    else Paired(Of(block, '-'), Of(block, '+'), 0) + [Row(Some(lines[0]), Some(lines[0]))] + Rows([], lines[1..])
  }

  method Flush(rows: seq<Row>, removed: seq<Line>, added: seq<Line>) returns (rows': seq<Row>)
    ensures rows' == rows + Paired(removed, added, 0)
  {
    var count := if |removed| > |added| then |removed| else |added|;
    rows' := rows;
    for i := 0 to count
      invariant rows' + Paired(removed, added, i) == rows + Paired(removed, added, 0)
    {
      rows' := rows' + [Row(At(removed, i), At(added, i))];
    }
  }

  method Build(lines: seq<Line>) returns (rows: seq<Row>)
    ensures rows == Rows([], lines)
  {
    hide Rows, Paired;
    rows := [];
    var removed: seq<Line>, added: seq<Line> := [], [];
    ghost var block: seq<Line> := [];
    assert lines[0..] == lines;
    assert Of([], '-') == [] && Of([], '+') == [];
    hide Of;
    for i := 0 to |lines|
      invariant removed == Of(block, '-') && added == Of(block, '+')
      invariant rows + Rows(block, lines[i..]) == Rows([], lines)
    {
      RowsAt(block, lines, i);
      OfAppend(block, lines[i], '-');
      OfAppend(block, lines[i], '+');
      match lines[i].origin {
        case '-' =>
          removed := removed + [lines[i]];
          block := block + [lines[i]];
        case '+' =>
          added := added + [lines[i]];
          block := block + [lines[i]];
        case _ =>
          rows := Flush(rows, removed, added);
          rows := rows + [Row(Some(lines[i]), Some(lines[i]))];
          removed, added, block := [], [], [];
      }
    }
    RowsAt(block, lines, |lines|);
    rows := Flush(rows, removed, added);
  }

  lemma RowsAt(block: seq<Line>, lines: seq<Line>, i: nat)
    requires i <= |lines|
    ensures i == |lines| ==> Rows(block, lines[i..]) == Paired(Of(block, '-'), Of(block, '+'), 0)
    ensures i < |lines| && IsChange(lines[i]) ==> Rows(block, lines[i..]) == Rows(block + [lines[i]], lines[i + 1..])
    ensures i < |lines| && !IsChange(lines[i]) ==>
      Rows(block, lines[i..])
      == Paired(Of(block, '-'), Of(block, '+'), 0) + [Row(Some(lines[i]), Some(lines[i]))] + Rows([], lines[i + 1..])
  {
    if i < |lines| {
      assert lines[i..][1..] == lines[i + 1..];
    }
  }

  lemma {:induction false} OfAppend(lines: seq<Line>, line: Line, origin: char)
    ensures Of(lines + [line], origin) == Of(lines, origin) + (if line.origin == origin then [line] else [])
    ensures Without(lines + [line], origin) == Without(lines, origin) + (if line.origin != origin then [line] else [])
  {
    if lines == [] {
      assert lines + [line] == [line];
      assert [line][1..] == [];
    } else {
      assert (lines + [line])[1..] == lines[1..] + [line];
      OfAppend(lines[1..], line, origin);
    }
  }

  /* What a reader sees. */

  /** One column without its gaps. */
  function Column(rows: seq<Row>, left: bool): seq<Line> {
    if rows == [] then [] else Cell(rows[0], left) + Column(rows[1..], left)
  }

  lemma {:induction false} ColumnAppend(a: seq<Row>, b: seq<Row>, left: bool)
    ensures Column(a + b, left) == Column(a, left) + Column(b, left)
  {
    if a == [] {
      assert a + b == b;
    } else {
      ColumnAppend(a[1..], b, left);
      ColumnFirst(a, left);
      ColumnFirst(a + b, left);
      hide Column;
      assert (a + b)[1..] == a[1..] + b;
      Regrouped(Cell(a[0], left), Column(a[1..], left), Column(b, left));
    }
  }

  function Cell(row: Row, left: bool): seq<Line> {
    var cell := if left then row.left else row.right;
    if cell.Some? then [cell.value] else []
  }

  lemma ColumnFirst(rows: seq<Row>, left: bool)
    requires rows != []
    ensures Column(rows, left) == Cell(rows[0], left) + Column(rows[1..], left)
  {
  }

  lemma {:induction false} PairedColumn(removed: seq<Line>, added: seq<Line>, i: nat, left: bool)
    ensures var lines := if left then removed else added;
      Column(Paired(removed, added, i), left) == if i <= |lines| then lines[i..] else []
    decreases |removed| + |added| - i
  {
    if i < |removed| || i < |added| {
      var rest := Paired(removed, added, i + 1);
      PairedColumn(removed, added, i + 1, left);
      assert ([Row(At(removed, i), At(added, i))] + rest)[1..] == rest;
      var lines := if left then removed else added;
      if i < |lines| {
        assert [lines[i]] + lines[i + 1..] == lines[i..];
      }
    }
  }

  /** Row `k` of a block shows the k-th removal and the k-th addition; only the shorter side has gaps,
      and only after its last line. */
  lemma {:induction false} PairedAt(removed: seq<Line>, added: seq<Line>, i: nat, k: nat)
    ensures var rows := Paired(removed, added, i);
      && |rows| == (if |removed| > |added| then if |removed| > i then |removed| - i else 0
                    else if |added| > i then |added| - i else 0)
      && (k < |rows| ==> rows[k] == Row(At(removed, i + k), At(added, i + k)))
    decreases |removed| + |added| - i
  {
    if i < |removed| || i < |added| {
      PairedAt(removed, added, i + 1, if k > 0 then k - 1 else 0);
    }
  }

  predicate AllChanges(lines: seq<Line>) {
    forall i | 0 <= i < |lines| :: IsChange(lines[i])
  }

  lemma {:induction false} ChangesSplit(block: seq<Line>)
    requires AllChanges(block)
    ensures Of(block, '-') == Without(block, '+') && Of(block, '+') == Without(block, '-')
  {
    if block == [] {
    } else {
      ChangesSplit(block[1..]);
    }
  }

  /** The column of a pending block is what a reader of that side sees of it. */
  lemma BlockColumn(block: seq<Line>, left: bool)
    requires AllChanges(block)
    ensures Column(Paired(Of(block, '-'), Of(block, '+'), 0), left) == Without(block, if left then '+' else '-')
  {
    ChangesSplit(block);
    PairedColumn(Of(block, '-'), Of(block, '+'), 0, left);
  }

  /** Nothing is lost, repeated or reordered: without its gaps the left column is the old text and the
      right column the new. */
  lemma {:induction false} ColumnsConserved(block: seq<Line>, lines: seq<Line>, left: bool)
    requires AllChanges(block)
    ensures Column(Rows(block, lines), left) == Without(block + lines, if left then '+' else '-')
    decreases |lines|
  {
    var origin := if left then '+' else '-';
    BlockColumn(block, left);
    if lines == [] {
      assert block + lines == block;
    } else if IsChange(lines[0]) {
      assert block + lines == block + [lines[0]] + lines[1..];
      ColumnsConserved(block + [lines[0]], lines[1..], left);
    } else {
      var row := Row(Some(lines[0]), Some(lines[0]));
      var rows, rest := Paired(Of(block, '-'), Of(block, '+'), 0), Rows([], lines[1..]);
      assert Rows(block, lines) == rows + [row] + rest;
      assert Without(lines, origin) == [lines[0]] + Without(lines[1..], origin);
      hide *;
      RowColumn(row, left);
      ColumnsConserved([], lines[1..], left);
      assert [] + lines[1..] == lines[1..];
      ColumnAround(rows, row, rest, left);
      WithoutAppend(block, lines, origin);
      Regrouped(Without(block, origin), [lines[0]], Without(lines[1..], origin));
    }
  }

  lemma ColumnAround(a: seq<Row>, row: Row, b: seq<Row>, left: bool)
    requires row.left.Some? && row.left == row.right
    ensures Column(a + [row] + b, left) == Column(a, left) + [row.left.value] + Column(b, left)
  {
    hide Column;
    RowColumn(row, left);
    ColumnAppend(a + [row], b, left);
    ColumnAppend(a, [row], left);
  }

  lemma Regrouped(a: seq<Line>, b: seq<Line>, c: seq<Line>)
    ensures a + (b + c) == a + b + c
  {
  }

  lemma RowColumn(row: Row, left: bool)
    requires row.left.Some? && row.left == row.right
    ensures Column([row], left) == [row.left.value]
    ensures AllChanges([])
  {
    assert [row][1..] == [];
  }

  lemma {:induction false} WithoutAppend(a: seq<Line>, b: seq<Line>, origin: char)
    ensures Without(a + b, origin) == Without(a, origin) + Without(b, origin)
  {
    if a == [] {
      assert a + b == b;
    } else {
      assert (a + b)[1..] == a[1..] + b;
      WithoutAppend(a[1..], b, origin);
    }
  }

  /** A hunk that starts with a block of changes followed by a context line or the end shows exactly the
      pairing of that block, then that line on both sides, then the rest. */
  lemma {:induction false} BlockRows(block: seq<Line>, rest: seq<Line>)
    requires AllChanges(block) && (rest == [] || !IsChange(rest[0]))
    ensures Rows([], block + rest)
         == Paired(Of(block, '-'), Of(block, '+'), 0)
            + (if rest == [] then [] else [Row(Some(rest[0]), Some(rest[0]))] + Rows([], rest[1..]))
  {
    BlockTaken([], block, rest);
    assert [] + block == block;
  }

  lemma {:induction false} BlockTaken(front: seq<Line>, block: seq<Line>, rest: seq<Line>)
    requires AllChanges(block) && (rest == [] || !IsChange(rest[0]))
    ensures Rows(front, block + rest)
         == Paired(Of(front + block, '-'), Of(front + block, '+'), 0)
            + (if rest == [] then [] else [Row(Some(rest[0]), Some(rest[0]))] + Rows([], rest[1..]))
    decreases |block|
  {
    if block == [] {
      assert front + block == front && block + rest == rest;
    } else {
      assert (block + rest)[1..] == block[1..] + rest;
      assert front + block == front + [block[0]] + block[1..];
      BlockTaken(front + [block[0]], block[1..], rest);
    }
  }
}
