/** What INSERT puts into a row, and when the vector of an accepted one describes it. */
module InsertFootprint {
  import opened Common
  import opened Ast
  import opened TableNames
  import opened Columns
  import opened Vectors
  import opened WriteParser
  import opened Relational
  import opened SelectFootprint
  import opened WriteFootprint

  /** The columns the values of a row go to: those listed, or without a list the first ones of
      the table in its own order. */
  function FilledColumns(ins: InsertStmt, order: seq<string>): seq<string> {
    if ins.cols == [] then order else ItemNames(ins.cols)
  }

  function DefaultOf(ops: Ops, rel: Relation, order: seq<string>, c: string): Value {
    if c in order then ops.default(Locate(rel), c) else Null
  }

  /** The cell a new row gets in a column: the literal given for it, or its default. */
  ghost function NewCell(ops: Ops, ins: InsertStmt, order: seq<string>, items: seq<Node>, c: string): Value {
    var filled := FilledColumns(ins, order);
    if i: nat :| i < |filled| && i < |items| && filled[i] == c && items[i].AConst? then items[i].value
    else DefaultOf(ops, ins.rel, order, c)
  }

  /** Only columns among `cols` are given a value: those of a column list are all listed, and
      without a list the literals stand for the first columns of the table. */
  predicate FillsOnly(ins: InsertStmt, order: seq<string>, items: seq<Node>, cols: set<string>) {
    ins.cols != [] || forall i | 0 <= i < |order| && i < |items| && items[i].AConst? :: order[i] in cols
  }

  lemma ListedColumnsFilled(ins: InsertStmt, g: Groups, vecs: seq<Vector>, i: nat)
    requires InsertGroups(ins) == Ok(g) && Renders(vecs, OpInsert, g) && i < |ins.cols|
    ensures ItemName(ins.cols[i]) in ListedFor(vecs, FullName(ins.rel))
  {
    InsertHasOneVector(ins, g, vecs);
    assert vecs[0] in vecs && ItemNames(ins.cols)[i] in AllColumns(vecs[0]);
  }

  /** The vector covers what an INSERT returns without a name, the keys of its conflict clause and
      the columns that clause may set. */
  lemma InsertIsCovered(ins: InsertStmt, g: Groups, vecs: seq<Vector>)
    requires InsertGroups(ins) == Ok(g) && Renders(vecs, OpInsert, g)
    ensures UnnamedReturning(ins.returning) ==> ReturningIn(ListedFor(vecs, FullName(ins.rel)), ins.returning)
    ensures ins.onConflict.Some? ==>
      && (forall t | t in ins.onConflict.value.inferElems :: ItemName(t) in ListedFor(vecs, FullName(ins.rel)))
      && (forall t | t in ins.onConflict.value.targets :: ItemName(t) in ListedFor(vecs, FullName(ins.rel)))
  {
    var table := FullName(ins.rel);
    InsertColumnsListed(ins, g, vecs);
    if UnnamedReturning(ins.returning) {
      assert forall c | c in Collect(ins.returning, ItemWalk(table)).value :: c in InsertColumns(ins).value;
      ReturningIsCovered(ins.returning, table, ListedFor(vecs, table));
    }
    InsertHasOneVector(ins, g, vecs);
    assert vecs[0] in vecs;
    if ins.onConflict.Some? {
      var conflict := ins.onConflict.value;
      assert forall n | n in ItemNames(conflict.inferElems) || n in ItemNames(conflict.targets) ::
          n in AllColumns(vecs[0]);
      ItemsAreNamed(conflict.inferElems);
      ItemsAreNamed(conflict.targets);
    }
  }

  lemma InsertColumnsListed(ins: InsertStmt, g: Groups, vecs: seq<Vector>)
    requires InsertGroups(ins) == Ok(g) && Renders(vecs, OpInsert, g)
    ensures AllIn(ListedFor(vecs, FullName(ins.rel)), InsertColumns(ins).value)
  {
    OneGroup(ins.rel, {FullName(ins.rel)}, InsertColumns(ins).value, vecs, OpInsert);
    ListedInOneVector(vecs, OpInsert, ins.rel, InsertColumns(ins).value);
  }

  lemma ItemsAreNamed(ts: seq<TargetNode>)
    ensures forall t | t in ts :: ItemName(t) in ItemNames(ts)
  {
    forall t | t in ts
      ensures ItemName(t) in ItemNames(ts)
    {
      var i :| 0 <= i < |ts| && ts[i] == t;
      assert ItemNames(ts)[i] == ItemName(t);
    }
  }

  lemma FilledCells(ops: Ops, ins: InsertStmt, g: Groups, vecs: seq<Vector>, order: seq<string>, items: seq<Node>,
                    cols: set<string>, c: string)
    requires InsertGroups(ins) == Ok(g) && Renders(vecs, OpInsert, g) && ListedFor(vecs, FullName(ins.rel)) <= cols
    requires FillsOnly(ins, order, items, cols) && c !in cols
    ensures NewCell(ops, ins, order, items, c) == DefaultOf(ops, ins.rel, order, c)
  {
    forall i | 0 <= i < |ins.cols|
      ensures ItemName(ins.cols[i]) != c
    {
      ListedColumnsFilled(ins, g, vecs, i);
    }
  }

  /** Operations under which a column of a table has a given default. */
  function OpsWithDefault(v: Value): Ops {
    Ops((_, _, _, _) => Null, (_, _, _, _) => Null, (_, _) => Null, (_, _, _) => Null, _ => Null,
        (_, _, _) => false, (_, _) => 0, (_, _) => v, (_, _) => Null, _ => [], (_, _) => None, (_, _, _) => Null)
  }

  lemma FilledCell(ops: Ops, ins: InsertStmt, order: seq<string>, items: seq<Node>, i: nat)
    requires ins.cols == [] && Distinct(order) && i < |order| && i < |items| && items[i].AConst?
    ensures NewCell(ops, ins, order, items, order[i]) == items[i].value
  {
  }

  /** An accepted INSERT leaves every column outside `cols`, a set that holds the listed columns,
      at its default, if and only if it has a column list or each literal of the row stands for
      a column in `cols`. */
  lemma InsertFillsExactly(ins: InsertStmt, g: Groups, vecs: seq<Vector>, order: seq<string>, items: seq<Node>,
                           cols: set<string>)
    requires InsertGroups(ins) == Ok(g) && Renders(vecs, OpInsert, g) && ListedFor(vecs, FullName(ins.rel)) <= cols
    requires Distinct(order)
    ensures (forall ops: Ops, c | c !in cols :: NewCell(ops, ins, order, items, c) == DefaultOf(ops, ins.rel, order, c))
            <==> FillsOnly(ins, order, items, cols)
  {
    if FillsOnly(ins, order, items, cols) {
      forall ops: Ops, c | c !in cols
        ensures NewCell(ops, ins, order, items, c) == DefaultOf(ops, ins.rel, order, c)
      {
        FilledCells(ops, ins, g, vecs, order, items, cols, c);
      }
    } else {
      var i :| 0 <= i < |order| && i < |items| && items[i].AConst? && order[i] !in cols;
      var ops := OpsWithDefault(OtherThan(items[i].value));
      FilledCell(ops, ins, order, items, i);
      assert DefaultOf(ops, ins.rel, order, order[i]) == OtherThan(items[i].value);
    }
  }

  // ---- The effect on a database -------------------------------------------------------------

  ghost function NewRow(ops: Ops, ins: InsertStmt, order: seq<string>, items: seq<Node>): Row {
    map c | c in order :: NewCell(ops, ins, order, items, c)
  }

  /** The value lists of a statement, one a row; DEFAULT VALUES is one row without values. */
  function ValueLists(ins: InsertStmt): seq<seq<Node>> {
    if ins.source.SelectSource? then
      seq(|ins.source.sel.values|, i requires 0 <= i < |ins.source.sel.values| =>
        if ins.source.sel.values[i].RowList? then ins.source.sel.values[i].items else [])
    else [[]]
  }

  /** The cells ON CONFLICT DO UPDATE sets in an existing row. */
  function ConflictCells(ops: Ops, targets: seq<TargetNode>, existing: Row, rejected: Row): Row {
    if targets == [] then map[]
    else
      var t := targets[|targets| - 1];
      var front := ConflictCells(ops, targets[..|targets| - 1], existing, rejected);
      if t.ResTarget? then front[ItemName(t) := ops.resolve(existing, rejected, t.val)] else front
  }

  /** A new row is added unless it clashes with a row under ON CONFLICT: then it is dropped, and
      the other row updated if the statement says so. */
  function InsertOne(ops: Ops, ins: InsertStmt, rows: seq<Row>, row: Row): (r: seq<Row>)
    ensures |r| >= |rows|
  {
    match ins.onConflict
    case None => rows + [row]
    case Some(conflict) =>
      match ops.clash(rows, row)
      case None => rows + [row]
      case Some(k) =>
        if k < |rows| && conflict.action.ConflictUpdate?
        then rows[k := rows[k] + ConflictCells(ops, conflict.targets, rows[k], row)] else rows
  }

  ghost function InsertRows(ops: Ops, ins: InsertStmt, order: seq<string>, rows: seq<Row>,
                            lists: seq<seq<Node>>): (r: seq<Row>)
    ensures |r| >= |rows|
  {
    if lists == [] then rows
    else
      InsertOne(ops, ins, InsertRows(ops, ins, order, rows, lists[..|lists| - 1]),
                NewRow(ops, ins, order, lists[|lists| - 1]))
  }

  ghost function AfterInsert(ops: Ops, db: Database, ins: InsertStmt, order: seq<string>): Database {
    if Locate(ins.rel) in db
    then db[Locate(ins.rel) := InsertRows(ops, ins, order, RowsOf(db, ins.rel), ValueLists(ins))] else db
  }

  lemma {:induction false} ConflictSetsListed(ops: Ops, targets: seq<TargetNode>, table: string, existing: Row,
                                              rejected: Row, cols: set<string>)
    requires Collect(targets, ItemWalk(table)).Ok? && AllIn(cols, Collect(targets, ItemWalk(table)).value)
    ensures ConflictCells(ops, targets, existing, rejected).Keys <= cols
  {
    if targets != [] {
      var front, last := targets[..|targets| - 1], targets[|targets| - 1];
      ConflictSetsListed(ops, front, table, existing, rejected, cols);
      if last.ResTarget? {
        var found := ItemColumns(last, table).value;
        assert |found| == 1 && found[0].column == ItemName(last) && found[0] in found;
      }
    }
  }

  /** What a conflict clause may set is among `cols`. */
  predicate ConflictIn(ins: InsertStmt, cols: set<string>) {
    ins.onConflict.Some? ==>
      && Collect(ins.onConflict.value.targets, ItemWalk(FullName(ins.rel))).Ok?
      && AllIn(cols, Collect(ins.onConflict.value.targets, ItemWalk(FullName(ins.rel))).value)
  }

  lemma ConflictIsCollected(ins: InsertStmt)
    requires InsertColumns(ins).Ok? && ins.onConflict.Some?
    ensures Collect(ins.onConflict.value.targets, ItemWalk(FullName(ins.rel))).Ok?
    ensures forall c | c in Collect(ins.onConflict.value.targets, ItemWalk(FullName(ins.rel))).value ::
              c in InsertColumns(ins).value
  {
    var table := FullName(ins.rel);
    var keys := Collect(ins.onConflict.value.inferElems, ItemWalk(table)).value;
    var targets := Collect(ins.onConflict.value.targets, ItemWalk(table)).value;
    assert ConflictColumns(ins.onConflict, table) == Ok(keys + targets);
    assert forall c | c in targets :: c in keys + targets;
  }

  lemma ConflictIsCovered(ins: InsertStmt, g: Groups, vecs: seq<Vector>, cols: set<string>)
    requires InsertGroups(ins) == Ok(g) && Renders(vecs, OpInsert, g) && ListedFor(vecs, FullName(ins.rel)) <= cols
    ensures ConflictIn(ins, cols)
  {
    InsertColumnsListed(ins, g, vecs);
    if ins.onConflict.Some? {
      ConflictIsCollected(ins);
    }
  }

  /** Rows that were there keep their cells outside `cols`, and new ones have the default there. */
  ghost predicate Filled(ops: Ops, ins: InsertStmt, order: seq<string>, cols: set<string>, before: seq<Row>,
                         after: seq<Row>) {
    && |after| >= |before|
    && (forall i | 0 <= i < |before| :: SameOutside(cols, before[i], after[i]))
    && (forall i | |before| <= i < |after| :: DefaultOutside(ops, ins, order, cols, after[i]))
  }

  ghost predicate SameOutside(cols: set<string>, a: Row, b: Row) {
    forall c | c !in cols :: Cell(a, c) == Cell(b, c)
  }

  ghost predicate DefaultOutside(ops: Ops, ins: InsertStmt, order: seq<string>, cols: set<string>, row: Row) {
    forall c | c !in cols :: Cell(row, c) == DefaultOf(ops, ins.rel, order, c)
  }

  lemma InsertOneFills(ops: Ops, ins: InsertStmt, order: seq<string>, cols: set<string>, before: seq<Row>,
                       rows: seq<Row>, row: Row)
    requires Filled(ops, ins, order, cols, before, rows) && DefaultOutside(ops, ins, order, cols, row)
             && ConflictIn(ins, cols)
    ensures Filled(ops, ins, order, cols, before, InsertOne(ops, ins, rows, row))
  {
    if ins.onConflict.Some? && ops.clash(rows, row).Some? && ops.clash(rows, row).value < |rows| {
      ConflictSetsListed(ops, ins.onConflict.value.targets, FullName(ins.rel), rows[ops.clash(rows, row).value], row,
                         cols);
    }
  }

  lemma {:induction false} InsertRowsFill(ops: Ops, ins: InsertStmt, g: Groups, vecs: seq<Vector>, order: seq<string>,
                                          cols: set<string>,
                                          rows: seq<Row>, lists: seq<seq<Node>>)
    requires InsertGroups(ins) == Ok(g) && Renders(vecs, OpInsert, g) && ListedFor(vecs, FullName(ins.rel)) <= cols
    requires forall items | items in lists :: FillsOnly(ins, order, items, cols)
    ensures Filled(ops, ins, order, cols, rows, InsertRows(ops, ins, order, rows, lists))
  {
    if lists != [] {
      var front, items := lists[..|lists| - 1], lists[|lists| - 1];
      InsertRowsFill(ops, ins, g, vecs, order, cols, rows, front);
      ConflictIsCovered(ins, g, vecs, cols);
      forall c | c !in cols
        ensures Cell(NewRow(ops, ins, order, items), c) == DefaultOf(ops, ins.rel, order, c)
      {
        FilledCells(ops, ins, g, vecs, order, items, cols, c);
      }
      InsertOneFills(ops, ins, order, cols, rows, InsertRows(ops, ins, order, rows, front),
                     NewRow(ops, ins, order, items));
    }
  }

  /** An accepted INSERT changes only its table. If it fills only columns in `cols`, the rows that
      were there keep their cells outside `cols`, conflict clause or not, and the new rows have
      the default there. */
  lemma InsertWritesFootprint(ops: Ops, db: Database, ins: InsertStmt, g: Groups, vecs: seq<Vector>, order: seq<string>,
                              cols: set<string>)
    requires InsertGroups(ins) == Ok(g) && Renders(vecs, OpInsert, g) && ListedFor(vecs, FullName(ins.rel)) <= cols
    ensures UnchangedElsewhere(db, AfterInsert(ops, db, ins, order), Locate(ins.rel))
    ensures (forall items | items in ValueLists(ins) :: FillsOnly(ins, order, items, cols)) ==>
              Filled(ops, ins, order, cols, RowsOf(db, ins.rel), RowsOf(AfterInsert(ops, db, ins, order), ins.rel))
  {
    if forall items | items in ValueLists(ins) :: FillsOnly(ins, order, items, cols) {
      InsertRowsFill(ops, ins, g, vecs, order, cols, RowsOf(db, ins.rel), ValueLists(ins));
    }
  }

  /** Without a conflict clause the rows that were there stay as they are, and there is one new
      row for each value list. */
  lemma {:induction false} InsertAppends(ops: Ops, ins: InsertStmt, order: seq<string>, rows: seq<Row>,
                                         lists: seq<seq<Node>>)
    requires ins.onConflict.None?
    ensures var after := InsertRows(ops, ins, order, rows, lists);
            && |after| == |rows| + |lists| && after[..|rows|] == rows
            && forall i | 0 <= i < |lists| :: after[|rows| + i] == NewRow(ops, ins, order, lists[i])
  {
    if lists != [] {
      var front, items := lists[..|lists| - 1], lists[|lists| - 1];
      InsertAppends(ops, ins, order, rows, front);
      var before, row := InsertRows(ops, ins, order, rows, front), NewRow(ops, ins, order, items);
      assert InsertRows(ops, ins, order, rows, lists) == before + [row];
      assert (before + [row])[..|rows|] == before[..|rows|];
    }
  }
}
