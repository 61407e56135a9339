/** What UPDATE and DELETE do to a database, and how far the vector of an accepted one
    describes it: what is written, and what the writing and the returned rows depend on. */
module WriteFootprint {
  import opened Common
  import opened Ast
  import opened TableNames
  import opened Columns
  import opened Predicates
  import opened Vectors
  import opened WriteParser
  import opened Relational
  import opened SelectFootprint

  // ---- Meaning ------------------------------------------------------------------------------

  ghost predicate Selected(ops: Ops, rel: Relation, where: Node, row: Row) {
    Holds(ops, [rel], [Some(row)], where)
  }

  ghost function EvalIn(ops: Ops, rel: Relation, row: Row, n: Node): Value {
    if n.SetToDefault? then Null else Eval(ops, [rel], [Some(row)], n)
  }

  ghost function NewValue(ops: Ops, rel: Relation, row: Row, t: TargetNode): Value
    requires t.ResTarget?
  {
    if t.val.SetToDefault? then ops.default(Locate(rel), t.name) else EvalIn(ops, rel, row, t.val)
  }

  /** The cells a SET list computes from the old row. */
  ghost function Assigned(ops: Ops, rel: Relation, row: Row, targets: seq<TargetNode>): Row {
    if targets == [] then map[]
    else
      var front := Assigned(ops, rel, row, targets[..|targets| - 1]);
      var t := targets[|targets| - 1];
      if t.ResTarget? then front[t.name := NewValue(ops, rel, row, t)] else front
  }

  ghost function UpdateRow(ops: Ops, upd: UpdateStmt, row: Row): Row {
    if Selected(ops, upd.rel, upd.where, row) then row + Assigned(ops, upd.rel, row, upd.targets) else row
  }

  ghost function UpdateRows(ops: Ops, upd: UpdateStmt, rows: seq<Row>): (rows': seq<Row>)
    ensures |rows'| == |rows| && forall i | 0 <= i < |rows| :: rows'[i] == UpdateRow(ops, upd, rows[i])
  {
    seq(|rows|, i requires 0 <= i < |rows| => UpdateRow(ops, upd, rows[i]))
  }

  ghost function DeleteRows(ops: Ops, del: DeleteStmt, rows: seq<Row>): seq<Row> {
    if rows == [] then []
    else DeleteRows(ops, del, rows[..|rows| - 1])
         + (if Selected(ops, del.rel, del.where, rows[|rows| - 1]) then [] else [rows[|rows| - 1]])
  }

  ghost function ReturnedRow(ops: Ops, rel: Relation, row: Row, returning: seq<TargetNode>): seq<Value> {
    if returning == [] then []
    else
      var t := returning[|returning| - 1];
      ReturnedRow(ops, rel, row, returning[..|returning| - 1])
          + [if t.ResTarget? then EvalIn(ops, rel, row, t.val) else Null]
  }

  ghost function UpdateReturns(ops: Ops, upd: UpdateStmt, rows: seq<Row>): seq<seq<Value>> {
    if rows == [] then []
    else
      var row := rows[|rows| - 1];
      UpdateReturns(ops, upd, rows[..|rows| - 1])
      + (if Selected(ops, upd.rel, upd.where, row)
         then [ReturnedRow(ops, upd.rel, UpdateRow(ops, upd, row), upd.returning)] else [])
  }

  ghost function DeleteReturns(ops: Ops, del: DeleteStmt, rows: seq<Row>): seq<seq<Value>> {
    if rows == [] then []
    else
      var row := rows[|rows| - 1];
      DeleteReturns(ops, del, rows[..|rows| - 1])
      + (if Selected(ops, del.rel, del.where, row) then [ReturnedRow(ops, del.rel, row, del.returning)] else [])
  }

  ghost function AfterUpdate(ops: Ops, db: Database, upd: UpdateStmt): Database {
    if Locate(upd.rel) in db then db[Locate(upd.rel) := UpdateRows(ops, upd, RowsOf(db, upd.rel))] else db
  }

  ghost function AfterDelete(ops: Ops, db: Database, del: DeleteStmt): Database {
    if Locate(del.rel) in db then db[Locate(del.rel) := DeleteRows(ops, del, RowsOf(db, del.rel))] else db
  }

  predicate UnchangedElsewhere(before: Database, after: Database, t: TableId) {
    before.Keys == after.Keys && forall u | u in before && u != t :: after[u] == before[u]
  }

  /** A condition selects the same rows of a table in two databases. */
  ghost predicate SameSelected(ops: Ops, a: Database, b: Database, rel: Relation, where: Node) {
    && |RowsOf(a, rel)| == |RowsOf(b, rel)|
    && forall i | 0 <= i < |RowsOf(a, rel)| ::
         Selected(ops, rel, where, RowsOf(a, rel)[i]) <==> Selected(ops, rel, where, RowsOf(b, rel)[i])
  }

  predicate UnnamedReturning(returning: seq<TargetNode>) {
    forall t | t in returning && t.ResTarget? :: t.name == ""
  }

  // ---- What the columns cover ---------------------------------------------------------------

  predicate AllIn(cols: set<string>, refs: seq<Column>) {
    forall c | c in refs :: c.column in cols
  }

  lemma SameEval(ops: Ops, rel: Relation, cols: set<string>, a: Row, b: Row, n: Node)
    requires SameRow(cols, a, b) && AllIn(cols, Refs(n))
    ensures EvalIn(ops, rel, a, n) == EvalIn(ops, rel, b, n)
    ensures Holds(ops, [rel], [Some(a)], n) <==> Holds(ops, [rel], [Some(b)], n)
  {
    var fp: Footprint := map[rel := cols];
    assert SameTuple([rel], fp, [Some(a)], [Some(b)]);
    forall c | c in Refs(n)
      ensures Covered([rel], fp, c)
    {
    }
    EvalReadsRefs(ops, [rel], fp, [Some(a)], [Some(b)], n);
  }

  /** Every written column is among `cols`, and so is every column an assigned value reads. */
  predicate AssignmentsIn(cols: set<string>, targets: seq<TargetNode>) {
    forall t | t in targets && t.ResTarget? :: t.name in cols && AllIn(cols, Refs(t.val))
  }

  lemma {:induction false} AssignedIn(ops: Ops, rel: Relation, row: Row, cols: set<string>, targets: seq<TargetNode>)
    requires AssignmentsIn(cols, targets)
    ensures Assigned(ops, rel, row, targets).Keys <= cols
  {
    if targets != [] {
      AssignedIn(ops, rel, row, cols, targets[..|targets| - 1]);
    }
  }

  lemma {:induction false} SameAssigned(ops: Ops, rel: Relation, cols: set<string>, a: Row, b: Row,
                                        targets: seq<TargetNode>)
    requires SameRow(cols, a, b) && AssignmentsIn(cols, targets)
    ensures Assigned(ops, rel, a, targets) == Assigned(ops, rel, b, targets)
  {
    if targets != [] {
      var t := targets[|targets| - 1];
      SameAssigned(ops, rel, cols, a, b, targets[..|targets| - 1]);
      if t.ResTarget? {
        SameEval(ops, rel, cols, a, b, t.val);
      }
    }
  }

  lemma SameUpdateRow(ops: Ops, upd: UpdateStmt, cols: set<string>, a: Row, b: Row)
    requires SameRow(cols, a, b) && AssignmentsIn(cols, upd.targets) && AllIn(cols, Refs(upd.where))
    ensures Selected(ops, upd.rel, upd.where, a) <==> Selected(ops, upd.rel, upd.where, b)
    ensures SameRow(cols, UpdateRow(ops, upd, a), UpdateRow(ops, upd, b))
  {
    SameEval(ops, upd.rel, cols, a, b, upd.where);
    SameAssigned(ops, upd.rel, cols, a, b, upd.targets);
  }

  lemma UpdateKeepsOtherColumns(ops: Ops, upd: UpdateStmt, cols: set<string>, row: Row, c: string)
    requires AssignmentsIn(cols, upd.targets) && c !in cols
    ensures Cell(UpdateRow(ops, upd, row), c) == Cell(row, c)
  {
    AssignedIn(ops, upd.rel, row, cols, upd.targets);
  }

  /** A value determined by the columns it refers to: plain references, constants and
      operators, but no function call and no subquery. */
  predicate Traceable(n: Node) {
    match n
    case ColumnRef(fields) => PlainRef(fields)
    case AExpr(_, _, l, r) => Traceable(l) && Traceable(r)
    case BoolExpr(_, args) => forall arg | arg in args :: Traceable(arg)
    case NullTest(_, arg) => Traceable(arg)
    case NodeList(items) => forall item | item in items :: Traceable(item)
    case FuncCall(_, _, _, _, _, _) => false
    case OtherNode => false
    case _ => true
  }

  /** Every returned value is determined by columns among `cols`. */
  predicate ReturningIn(cols: set<string>, returning: seq<TargetNode>) {
    forall t | t in returning && t.ResTarget? :: Traceable(t.val) && AllIn(cols, Refs(t.val))
  }

  lemma {:induction false} SameReturned(ops: Ops, rel: Relation, cols: set<string>, a: Row, b: Row,
                                        returning: seq<TargetNode>)
    requires SameRow(cols, a, b) && ReturningIn(cols, returning)
    ensures ReturnedRow(ops, rel, a, returning) == ReturnedRow(ops, rel, b, returning)
  {
    if returning != [] {
      var t := returning[|returning| - 1];
      SameReturned(ops, rel, cols, a, b, returning[..|returning| - 1]);
      if t.ResTarget? {
        SameEval(ops, rel, cols, a, b, t.val);
      }
    }
  }

  lemma {:induction false} SameUpdateReturns(ops: Ops, upd: UpdateStmt, cols: set<string>, a: seq<Row>, b: seq<Row>)
    requires SameRows(cols, a, b) && ReturningIn(cols, upd.returning)
    requires AssignmentsIn(cols, upd.targets) && AllIn(cols, Refs(upd.where))
    ensures UpdateReturns(ops, upd, a) == UpdateReturns(ops, upd, b)
  {
    if a != [] {
      var n := |a| - 1;
      SameUpdateReturns(ops, upd, cols, a[..n], b[..n]);
      SameUpdateRow(ops, upd, cols, a[n], b[n]);
      SameReturned(ops, upd.rel, cols, UpdateRow(ops, upd, a[n]), UpdateRow(ops, upd, b[n]), upd.returning);
    }
  }

  lemma {:induction false} SameDeleteRows(ops: Ops, del: DeleteStmt, cols: set<string>, a: seq<Row>, b: seq<Row>)
    requires SameRows(cols, a, b) && AllIn(cols, Refs(del.where))
    ensures SameRows(cols, DeleteRows(ops, del, a), DeleteRows(ops, del, b))
  {
    if a != [] {
      var n := |a| - 1;
      SameDeleteRows(ops, del, cols, a[..n], b[..n]);
      SameEval(ops, del.rel, cols, a[n], b[n], del.where);
    }
  }

  lemma {:induction false} SameDeleteReturns(ops: Ops, del: DeleteStmt, cols: set<string>, a: seq<Row>, b: seq<Row>)
    requires SameRows(cols, a, b) && ReturningIn(cols, del.returning) && AllIn(cols, Refs(del.where))
    ensures DeleteReturns(ops, del, a) == DeleteReturns(ops, del, b)
  {
    if a != [] {
      var n := |a| - 1;
      SameDeleteReturns(ops, del, cols, a[..n], b[..n]);
      SameEval(ops, del.rel, cols, a[n], b[n], del.where);
      SameReturned(ops, del.rel, cols, a[n], b[n], del.returning);
    }
  }

  /** A DELETE removes exactly the selected rows: the others stay, in order. */
  lemma {:induction false} DeleteRemovesSelected(ops: Ops, del: DeleteStmt, rows: seq<Row>, row: Row)
    ensures multiset(DeleteRows(ops, del, rows))[row]
         == if Selected(ops, del.rel, del.where, row) then 0 else multiset(rows)[row]
  {
    if rows != [] {
      var front, last := rows[..|rows| - 1], rows[|rows| - 1];
      DeleteRemovesSelected(ops, del, front, row);
      assert rows == front + [last];
    }
  }

  // ---- The vector covers the statement --------------------------------------------------------

  lemma ListedInOneVector(vecs: seq<Vector>, op: Op, rel: Relation, cols: seq<Column>)
    requires OneVector(vecs, op, rel, cols)
    ensures AllIn(ListedFor(vecs, FullName(rel)), cols)
  {
    var v := NewVector(op, FullName(rel), Names(cols));
    assert v in vecs;
    forall c | c in cols
      ensures c.column in ListedFor(vecs, FullName(rel))
    {
      var k :| 0 <= k < |cols| && cols[k] == c;
      assert Names(cols)[k] == c.column;
      assert c.column in AllColumns(v);
    }
  }

  lemma OneVectorLists(vecs: seq<Vector>, op: Op, rel: Relation, c: Column)
    requires OneVector(vecs, op, rel, [c])
    ensures ListedFor(vecs, FullName(rel)) == {c.column}
  {
    ListedInOneVector(vecs, op, rel, [c]);
    assert Names([c]) == [c.column];
    assert c in [c];
  }

  lemma ItemIsCovered(t: TargetNode, table: string)
    requires ItemColumns(t, table).Ok? && t.ResTarget? && t.name == ""
    ensures Refs(t.val) == ItemColumns(t, table).value && Traceable(t.val)
  {
  }

  lemma ReturningIsCovered(returning: seq<TargetNode>, table: string, cols: set<string>)
    requires Collect(returning, ItemWalk(table)).Ok? && UnnamedReturning(returning)
    requires AllIn(cols, Collect(returning, ItemWalk(table)).value)
    ensures ReturningIn(cols, returning)
  {
    forall t | t in returning && t.ResTarget?
      ensures Traceable(t.val) && AllIn(cols, Refs(t.val))
    {
      var i :| 0 <= i < |returning| && returning[i] == t;
      CollectHas(returning, ItemWalk(table), i);
      ItemIsCovered(t, table);
    }
  }

  lemma AssignmentsAreCovered(targets: seq<TargetNode>, table: string, cols: set<string>)
    requires Collect(targets, SetWalk(table)).Ok?
    requires AllIn(cols, Collect(targets, SetWalk(table)).value)
    ensures AssignmentsIn(cols, targets)
  {
    forall t | t in targets && t.ResTarget?
      ensures t.name in cols && AllIn(cols, Refs(t.val))
    {
      var i :| 0 <= i < |targets| && targets[i] == t;
      CollectHas(targets, SetWalk(table), i);
      AssignmentIsCovered(t, table);
      assert Column([table], t.name) in SetColumns(t, table).value;
    }
  }

  lemma AssignmentIsCovered(t: TargetNode, table: string)
    requires t.ResTarget? && SetColumns(t, table).Ok?
    ensures SetColumns(t, table).value == [Column([table], t.name)] + Refs(t.val)
  {
    if t.val.AExpr? {
      ExpressionWhitelist(t.val);
    }
  }

  /** The vector covers what an UPDATE writes and reads, and what it returns without a name. */
  lemma UpdateIsCovered(upd: UpdateStmt, vecs: seq<Vector>)
    requires UpdateGroups(upd).Ok? && Renders(vecs, OpUpdate, UpdateGroups(upd).value)
    ensures var cols := ListedFor(vecs, FullName(upd.rel));
            && AssignmentsIn(cols, upd.targets)
            && AllIn(cols, Refs(upd.where))
            && (UnnamedReturning(upd.returning) ==> ReturningIn(cols, upd.returning))
  {
    var table := FullName(upd.rel);
    var cols := ListedFor(vecs, table);
    var found := UpdateColumns(upd).value;
    OneGroup(upd.rel, {}, found, vecs, OpUpdate);
    if found != [] {
      ListedInOneVector(vecs, OpUpdate, upd.rel, found);
    }
    AssignmentsAreCovered(upd.targets, table, cols);
    ConditionWhitelist(upd.where);
    if UnnamedReturning(upd.returning) {
      ReturningIsCovered(upd.returning, table, cols);
    }
  }

  lemma DeleteIsCovered(del: DeleteStmt, vecs: seq<Vector>)
    requires DeleteGroups(del).Ok? && Renders(vecs, OpDelete, DeleteGroups(del).value)
    ensures var cols := ListedFor(vecs, FullName(del.rel));
            && AllIn(cols, Refs(del.where))
            && (UnnamedReturning(del.returning) ==> ReturningIn(cols, del.returning))
  {
    var table := FullName(del.rel);
    OneGroup(del.rel, {table}, DeleteColumns(del).value, vecs, OpDelete);
    ListedInOneVector(vecs, OpDelete, del.rel, DeleteColumns(del).value);
    ConditionWhitelist(del.where);
    if UnnamedReturning(del.returning) {
      ReturningIsCovered(del.returning, table, ListedFor(vecs, table));
    }
  }

  /** An accepted UPDATE writes only its table, adds and removes no row there, and changes no
      cell outside the columns its vector lists. */
  lemma UpdateWritesFootprint(ops: Ops, db: Database, upd: UpdateStmt, g: Groups, vecs: seq<Vector>)
    requires UpdateGroups(upd) == Ok(g) && Renders(vecs, OpUpdate, g)
    ensures var after := AfterUpdate(ops, db, upd);
            var rows, rows' := RowsOf(db, upd.rel), RowsOf(after, upd.rel);
            && UnchangedElsewhere(db, after, Locate(upd.rel))
            && |rows'| == |rows|
            && forall i, c | 0 <= i < |rows| && c !in ListedFor(vecs, FullName(upd.rel)) ::
                Cell(rows'[i], c) == Cell(rows[i], c)
  {
    var rows, rows' := RowsOf(db, upd.rel), RowsOf(AfterUpdate(ops, db, upd), upd.rel);
    var cols := ListedFor(vecs, FullName(upd.rel));
    UpdateIsCovered(upd, vecs);
    forall i, c | 0 <= i < |rows| && c !in cols
      ensures Cell(rows'[i], c) == Cell(rows[i], c)
    {
      UpdateKeepsOtherColumns(ops, upd, cols, rows[i], c);
    }
  }

  /** In databases that agree on columns holding everything an UPDATE refers to, it selects the
      same rows, returns the same values and leaves databases that still agree. */
  lemma UpdateReadsColumns(ops: Ops, a: Database, b: Database, upd: UpdateStmt, cols: set<string>)
    requires AssignmentsIn(cols, upd.targets) && AllIn(cols, Refs(upd.where))
    requires SameRows(cols, RowsOf(a, upd.rel), RowsOf(b, upd.rel))
    ensures SameRows(cols, RowsOf(AfterUpdate(ops, a, upd), upd.rel), RowsOf(AfterUpdate(ops, b, upd), upd.rel))
    ensures SameSelected(ops, a, b, upd.rel, upd.where)
    ensures ReturningIn(cols, upd.returning) ==>
              UpdateReturns(ops, upd, RowsOf(a, upd.rel)) == UpdateReturns(ops, upd, RowsOf(b, upd.rel))
  {
    var ra, rb := RowsOf(a, upd.rel), RowsOf(b, upd.rel);
    forall i | 0 <= i < |ra|
      ensures SameRow(cols, UpdateRow(ops, upd, ra[i]), UpdateRow(ops, upd, rb[i]))
      ensures Selected(ops, upd.rel, upd.where, ra[i]) <==> Selected(ops, upd.rel, upd.where, rb[i])
    {
      SameUpdateRow(ops, upd, cols, ra[i], rb[i]);
    }
    assert RowsOf(AfterUpdate(ops, a, upd), upd.rel) == UpdateRows(ops, upd, ra);
    assert RowsOf(AfterUpdate(ops, b, upd), upd.rel) == UpdateRows(ops, upd, rb);
    if ReturningIn(cols, upd.returning) {
      SameUpdateReturns(ops, upd, cols, ra, rb);
    }
  }

  /** The columns its vector lists are such columns. */
  lemma UpdateReadsFootprint(ops: Ops, a: Database, b: Database, upd: UpdateStmt, vecs: seq<Vector>)
    requires UpdateGroups(upd).Ok? && Renders(vecs, OpUpdate, UpdateGroups(upd).value)
    requires SameRows(ListedFor(vecs, FullName(upd.rel)), RowsOf(a, upd.rel), RowsOf(b, upd.rel))
    ensures SameRows(ListedFor(vecs, FullName(upd.rel)),
                     RowsOf(AfterUpdate(ops, a, upd), upd.rel), RowsOf(AfterUpdate(ops, b, upd), upd.rel))
    ensures SameSelected(ops, a, b, upd.rel, upd.where)
    ensures ReturningIn(ListedFor(vecs, FullName(upd.rel)), upd.returning) ==>
              UpdateReturns(ops, upd, RowsOf(a, upd.rel)) == UpdateReturns(ops, upd, RowsOf(b, upd.rel))
  {
    UpdateIsCovered(upd, vecs);
    UpdateReadsColumns(ops, a, b, upd, ListedFor(vecs, FullName(upd.rel)));
  }

  /** In databases that agree on columns holding everything a DELETE refers to, it removes the
      same rows, returns the same values and leaves databases that still agree. */
  lemma DeleteReadsColumns(ops: Ops, a: Database, b: Database, del: DeleteStmt, cols: set<string>)
    requires AllIn(cols, Refs(del.where))
    requires SameRows(cols, RowsOf(a, del.rel), RowsOf(b, del.rel))
    ensures SameRows(cols, RowsOf(AfterDelete(ops, a, del), del.rel), RowsOf(AfterDelete(ops, b, del), del.rel))
    ensures SameSelected(ops, a, b, del.rel, del.where)
    ensures ReturningIn(cols, del.returning) ==>
              DeleteReturns(ops, del, RowsOf(a, del.rel)) == DeleteReturns(ops, del, RowsOf(b, del.rel))
  {
    var ra, rb := RowsOf(a, del.rel), RowsOf(b, del.rel);
    SameDeleteRows(ops, del, cols, ra, rb);
    assert RowsOf(AfterDelete(ops, a, del), del.rel) == DeleteRows(ops, del, ra);
    assert RowsOf(AfterDelete(ops, b, del), del.rel) == DeleteRows(ops, del, rb);
    forall i | 0 <= i < |ra|
      ensures Selected(ops, del.rel, del.where, ra[i]) <==> Selected(ops, del.rel, del.where, rb[i])
    {
      SameEval(ops, del.rel, cols, ra[i], rb[i], del.where);
    }
    if ReturningIn(cols, del.returning) {
      SameDeleteReturns(ops, del, cols, ra, rb);
    }
  }

  /** An accepted DELETE writes only its table; in databases that agree on the columns the
      vector lists it removes the same rows, returns the same values and leaves databases
      that still agree. */
  lemma DeleteFootprint(ops: Ops, a: Database, b: Database, del: DeleteStmt, vecs: seq<Vector>)
    requires DeleteGroups(del).Ok? && Renders(vecs, OpDelete, DeleteGroups(del).value)
    requires SameRows(ListedFor(vecs, FullName(del.rel)), RowsOf(a, del.rel), RowsOf(b, del.rel))
    ensures UnchangedElsewhere(a, AfterDelete(ops, a, del), Locate(del.rel))
    ensures SameRows(ListedFor(vecs, FullName(del.rel)),
                     RowsOf(AfterDelete(ops, a, del), del.rel), RowsOf(AfterDelete(ops, b, del), del.rel))
    ensures SameSelected(ops, a, b, del.rel, del.where)
    ensures ReturningIn(ListedFor(vecs, FullName(del.rel)), del.returning) ==>
              DeleteReturns(ops, del, RowsOf(a, del.rel)) == DeleteReturns(ops, del, RowsOf(b, del.rel))
  {
    DeleteIsCovered(del, vecs);
    DeleteReadsColumns(ops, a, b, del, ListedFor(vecs, FullName(del.rel)));
  }

  // ---- Exactly when the returned rows are covered ------------------------------------------------

  /** Every returned item is a column of the table, under whatever name. */
  predicate ReturnsColumns(rel: Relation, returning: seq<TargetNode>) {
    forall t | t in returning :: t.ResTarget? && ReadsColumn(rel, t.val)
  }

  predicate ReadsColumn(rel: Relation, n: Node) {
    n.ColumnRef? && PlainRef(n.fields) && Binds([rel], Denoted(n.fields).table, 0)
  }

  lemma ColumnIsRead(ops: Ops, rel: Relation, row: Row, n: Node)
    requires ReadsColumn(rel, n)
    ensures EvalIn(ops, rel, row, n) == ValueAt(ops, row, Denoted(n.fields).column)
  {
    assert Bind([rel], Denoted(n.fields).table) == Some(0);
  }

  lemma {:induction false} ReturnedAt(ops: Ops, rel: Relation, row: Row, returning: seq<TargetNode>, i: nat)
    requires i < |returning| && returning[i].ResTarget?
    ensures |ReturnedRow(ops, rel, row, returning)| == |returning|
    ensures ReturnedRow(ops, rel, row, returning)[i] == EvalIn(ops, rel, row, returning[i].val)
  {
    ReturnedLength(ops, rel, row, returning);
    ReturnedLength(ops, rel, row, returning[..|returning| - 1]);
    if i < |returning| - 1 {
      ReturnedAt(ops, rel, row, returning[..|returning| - 1], i);
    }
  }

  lemma {:induction false} ReturnedLength(ops: Ops, rel: Relation, row: Row, returning: seq<TargetNode>)
    ensures |ReturnedRow(ops, rel, row, returning)| == |returning|
  {
    if returning != [] {
      ReturnedLength(ops, rel, row, returning[..|returning| - 1]);
    }
  }

  /** Rows that differ in a returned column are returned differently. */
  lemma ReturnedTellsApart(ops: Ops, rel: Relation, a: Row, b: Row, returning: seq<TargetNode>, i: nat)
    requires i < |returning| && returning[i].ResTarget? && ReadsColumn(rel, returning[i].val)
    requires var c := Denoted(returning[i].val.fields).column;
             ValueAt(ops, a, c) != ValueAt(ops, b, c)
    ensures ReturnedRow(ops, rel, a, returning) != ReturnedRow(ops, rel, b, returning)
  {
    ReturnedAt(ops, rel, a, returning, i);
    ReturnedAt(ops, rel, b, returning, i);
    ColumnIsRead(ops, rel, a, returning[i].val);
    ColumnIsRead(ops, rel, b, returning[i].val);
  }

  /** An item that reads a column outside `cols`, if not every returned item is covered. */
  lemma UncoveredItem(rel: Relation, cols: set<string>, returning: seq<TargetNode>) returns (i: nat)
    requires ReturnsColumns(rel, returning) && !ReturningIn(cols, returning)
    ensures i < |returning| && returning[i].ResTarget? && ReadsColumn(rel, returning[i].val)
    ensures Denoted(returning[i].val.fields).column !in cols
  {
    var t :| t in returning && t.ResTarget? && !(Traceable(t.val) && AllIn(cols, Refs(t.val)));
    i :| 0 <= i < |returning| && returning[i] == t;
  }

  function OtherThan(v: Value): (w: Value)
    ensures w != v
  {
    if v == Null then Bool(true) else Null
  }

  predicate HasColumns(cols: set<string>, row: Row) {
    forall c | c in cols :: c in row
  }

  /** The same row but for one column, which holds anything but `v`. */
  function Altered(row: Row, c: string, v: Value): (r: Row)
    ensures c in r && r[c] != v
    ensures forall cols: set<string> | c !in cols && HasColumns(cols, row) :: SameRow(cols, row, r)
  {
    row[c := OtherThan(v)]
  }

  lemma DeleteReturnsOne(ops: Ops, del: DeleteStmt, row: Row)
    requires Selected(ops, del.rel, del.where, row)
    ensures DeleteReturns(ops, del, [row]) == [ReturnedRow(ops, del.rel, row, del.returning)]
  {
    assert [row][..0] == [];
  }

  lemma UpdateReturnsOne(ops: Ops, upd: UpdateStmt, row: Row)
    requires Selected(ops, upd.rel, upd.where, row)
    ensures UpdateReturns(ops, upd, [row]) == [ReturnedRow(ops, upd.rel, UpdateRow(ops, upd, row), upd.returning)]
  {
    assert [row][..0] == [];
  }

  lemma OneReturned(x: seq<Value>, y: seq<Value>)
    requires x != y
    ensures [x] != [y]
  {
    assert [x][0] != [y][0];
  }

  /** Where a DELETE removes a row with the listed columns and returns columns, what it returns depends only on the
      listed columns if and only if every returned column is listed. */
  lemma DeleteReturnsExactly(ops: Ops, del: DeleteStmt, g: Groups, vecs: seq<Vector>, row: Row)
    requires DeleteGroups(del) == Ok(g) && Renders(vecs, OpDelete, g)
    requires ReturnsColumns(del.rel, del.returning) && Selected(ops, del.rel, del.where, row)
    requires HasColumns(ListedFor(vecs, FullName(del.rel)), row)
    ensures var cols := ListedFor(vecs, FullName(del.rel));
            (forall other | SameRow(cols, row, other) ::
             DeleteReturns(ops, del, [other]) == DeleteReturns(ops, del, [row]))
            <==> ReturningIn(cols, del.returning)
  {
    var cols := ListedFor(vecs, FullName(del.rel));
    DeleteIsCovered(del, vecs);
    if ReturningIn(cols, del.returning) {
      forall other | SameRow(cols, row, other)
        ensures DeleteReturns(ops, del, [other]) == DeleteReturns(ops, del, [row])
      {
        SameDeleteReturns(ops, del, cols, [row], [other]);
      }
    } else {
      var i := UncoveredItem(del.rel, cols, del.returning);
      var c := Denoted(del.returning[i].val.fields).column;
      var other := Altered(row, c, ValueAt(ops, row, c));
      SameEval(ops, del.rel, cols, row, other, del.where);
      ReturnedTellsApart(ops, del.rel, row, other, del.returning, i);
      DeleteReturnsOne(ops, del, row);
      DeleteReturnsOne(ops, del, other);
      OneReturned(ReturnedRow(ops, del.rel, row, del.returning), ReturnedRow(ops, del.rel, other, del.returning));
    }
  }

  /** The same for an UPDATE: an unlisted column is returned as it was. */
  lemma UpdateReturnsExactly(ops: Ops, upd: UpdateStmt, g: Groups, vecs: seq<Vector>, row: Row)
    requires UpdateGroups(upd) == Ok(g) && Renders(vecs, OpUpdate, g)
    requires ReturnsColumns(upd.rel, upd.returning) && Selected(ops, upd.rel, upd.where, row)
    requires HasColumns(ListedFor(vecs, FullName(upd.rel)), row)
    ensures var cols := ListedFor(vecs, FullName(upd.rel));
            (forall other | SameRow(cols, row, other) ::
             UpdateReturns(ops, upd, [other]) == UpdateReturns(ops, upd, [row]))
            <==> ReturningIn(cols, upd.returning)
  {
    var cols := ListedFor(vecs, FullName(upd.rel));
    UpdateIsCovered(upd, vecs);
    if ReturningIn(cols, upd.returning) {
      forall other | SameRow(cols, row, other)
        ensures UpdateReturns(ops, upd, [other]) == UpdateReturns(ops, upd, [row])
      {
        SameUpdateReturns(ops, upd, cols, [row], [other]);
      }
    } else {
      var i := UncoveredItem(upd.rel, cols, upd.returning);
      var c := Denoted(upd.returning[i].val.fields).column;
      var other := Altered(row, c, ValueAt(ops, UpdateRow(ops, upd, row), c));
      SameEval(ops, upd.rel, cols, row, other, upd.where);
      AssignedIn(ops, upd.rel, other, cols, upd.targets);
      ReturnedTellsApart(ops, upd.rel, UpdateRow(ops, upd, row), UpdateRow(ops, upd, other), upd.returning, i);
      UpdateReturnsOne(ops, upd, row);
      UpdateReturnsOne(ops, upd, other);
      OneReturned(ReturnedRow(ops, upd.rel, UpdateRow(ops, upd, row), upd.returning),
                  ReturnedRow(ops, upd.rel, UpdateRow(ops, upd, other), upd.returning));
    }
  }

  /** `DELETE FROM t RETURNING column AS name`. */
  function NamedReturning(rel: Relation, column: string, name: string): DeleteStmt {
    DeleteStmt(rel, false, false, Nil, [ResTarget(name, false, ColumnRef([Name(column)]))])
  }

  lemma NamedReturningAccepted(rel: Relation, column: string, name: string)
    requires rel.name != "" && name != ""
    ensures DeleteGroups(NamedReturning(rel, column, name)) == Ok(map[FullName(rel) := [Column([FullName(rel)], name)]])
    ensures DeleteColumns(NamedReturning(rel, column, name)) == Ok([Column([FullName(rel)], name)])
  {
    var del, table := NamedReturning(rel, column, name), FullName(rel);
    var t, cols := del.returning[0], [Column([table], name)];
    assert del.returning == [t] && [t][..0] == [];
    assert ItemWalk(table)(t) == Ok(cols);
    assert [] + cols == cols && cols + [] == cols;
    assert Collect([t], ItemWalk(table)) == Ok(cols);
    OwnNameIsKey(rel);
    assert TableOf(cols[0]) == table;
    OneSourceGroups(rel, cols);
  }

  lemma NamedReturningCovered(rel: Relation, column: string, name: string)
    ensures ReturnsColumns(rel, NamedReturning(rel, column, name).returning)
    ensures ReturningIn({name}, NamedReturning(rel, column, name).returning) <==> column == name
  {
    var t := NamedReturning(rel, column, name).returning[0];
    assert Denoted([Name(column)]) == Column([], column);
    assert Refs(t.val) == [Column([], column)] && Column([], column) in Refs(t.val);
    assert t in NamedReturning(rel, column, name).returning;
  }

  /** Such a statement is accepted with a vector that lists only the name, so what it returns
      depends on an unlisted column unless the name is the column's own. */
  lemma NamedReturningEscapes(ops: Ops, rel: Relation, column: string, name: string, vecs: seq<Vector>, row: Row)
    requires rel.name != "" && name != "" && name in row
    requires Renders(vecs, OpDelete, map[FullName(rel) := [Column([FullName(rel)], name)]])
    ensures DeleteGroups(NamedReturning(rel, column, name)) == Ok(map[FullName(rel) := [Column([FullName(rel)], name)]])
    ensures (exists other | SameRow({name}, row, other) ::
               DeleteReturns(ops, NamedReturning(rel, column, name),
                             [other]) != DeleteReturns(ops, NamedReturning(rel, column, name), [row]))
            <==> column != name
  {
    var del := NamedReturning(rel, column, name);
    NamedReturningAccepted(rel, column, name);
    OneGroup(rel, {FullName(rel)}, [Column([FullName(rel)], name)], vecs, OpDelete);
    OneVectorLists(vecs, OpDelete, rel, Column([FullName(rel)], name));
    NamedReturningCovered(rel, column, name);
    DeleteReturnsExactly(ops, del, map[FullName(rel) := [Column([FullName(rel)], name)]], vecs, row);
  }
}
