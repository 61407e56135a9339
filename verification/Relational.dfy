/** What the database does with an accepted statement: name binding, three-valued
    conditions, outer joins, grouping, aggregates, ordering and row limits. Operators,
    functions and the ordering of values are arbitrary, so a theorem about this meaning
    holds for every choice of them. A qualifier the database cannot bind makes it reject the
    statement whatever the data; here it reads null. A name that is no column of the row it is
    bound to may make the database reject the statement, or may mean the whole row or a
    function of it; here it reads an arbitrary function of the row. */
module Relational {
  import opened Common
  import opened Ast
  import opened Columns
  import opened Predicates

  type Row = map<string, Value>

  datatype TableId = TableId(catalog: string, schema: string, name: string)

  type Database = map<TableId, seq<Row>>

  /** One row per source of the FROM tree; `None` is the null row of an outer join. */
  type Tuple = seq<Option<Row>>

  datatype Ops = Ops(
    binary: (ExprKind, string, Value, Value) -> Value,
    inList: (ExprKind, string, Value, seq<Value>) -> Value,
    scalar: (string, seq<Value>) -> Value,
    aggregate: (string, bool, seq<seq<Value>>) -> Value,
    wholeRow: Option<Row> -> Value,
    before: (seq<SortDir>, seq<Value>, seq<Value>) -> bool,
    rowCount: (Database, nat) -> nat,
    default: (TableId, string) -> Value,
    absent: (Row, string) -> Value,
    order: TableId -> seq<string>,
    clash: (seq<Row>, Row) -> Option<nat>,
    resolve: (Row, Row, Node) -> Value)

  const SEARCH_PATH := "public"

  function SchemaOf(rel: Relation): string {
    if rel.schema == "" then SEARCH_PATH else rel.schema
  }

  function Locate(rel: Relation): TableId {
    TableId(rel.catalog, SchemaOf(rel), rel.name)
  }

  function TableRows(db: Database, id: TableId): seq<Row> {
    if id in db then db[id] else []
  }

  function RowsOf(db: Database, rel: Relation): seq<Row> {
    TableRows(db, Locate(rel))
  }

  function Cell(row: Row, column: string): Value {
    if column in row then row[column] else Null
  }

  // ---- Column lists of aliases -----------------------------------------------------------------

  function IndexOf(xs: seq<string>, x: string): (i: nat)
    ensures i <= |xs| && (i < |xs| ==> xs[i] == x) && (i == |xs| ==> x !in xs)
  {
    if xs == [] || xs[0] == x then 0 else 1 + IndexOf(xs[1..], x)
  }

  /** The column of a table that goes by the name `c` when its first columns are renamed. */
  function Origin(order: seq<string>, names: seq<string>, c: string): Option<string> {
    var i := IndexOf(names, c);
    if i < |names| then (if i < |order| then Some(order[i]) else None)
    else if exists j | |names| <= j < |order| :: order[j] == c then Some(c) else None
  }

  function Renamed(order: seq<string>, names: seq<string>, row: Row): Row {
    map c | c in names + order && Origin(order, names, c).Some? && Origin(order, names, c).value in row ::
      row[Origin(order, names, c).value]
  }

  /** The rows of a source as the statement sees them. */
  function ShownRows(ops: Ops, rel: Relation, rows: seq<Row>): (shown: seq<Row>)
    ensures |shown| == |rows|
  {
    if rel.columns == [] then rows
    else seq(|rows|, i requires 0 <= i < |rows| => Renamed(ops.order(Locate(rel)), rel.columns, rows[i]))
  }

  predicate NoneRenamed(rels: seq<Relation>) {
    forall rel | rel in rels :: rel.columns == []
  }

  // ---- Binding ----------------------------------------------------------------------------

  /** Whether the database knows a source by the qualifier `tokens`: an alias hides every
      other name. */
  predicate KnownAs(rel: Relation, tokens: seq<string>) {
    if rel.alias != "" then tokens == [rel.alias]
    else
      || tokens == [rel.name]
      || tokens == [SchemaOf(rel), rel.name]
      || (rel.catalog != "" && rel.schema != "" && tokens == [rel.catalog, rel.schema, rel.name])
  }

  /** `i` is the one source a qualifier can mean; no qualifier means the only source. */
  predicate Binds(scope: seq<Relation>, tokens: seq<string>, i: nat) {
    && i < |scope|
    && if tokens == [] then |scope| == 1
       else KnownAs(scope[i], tokens) && forall j | 0 <= j < |scope| && j != i :: !KnownAs(scope[j], tokens)
  }

  ghost function Bind(scope: seq<Relation>, tokens: seq<string>): (r: Option<nat>)
    ensures r.Some? ==> Binds(scope, tokens, r.value)
  {
    if i: nat :| Binds(scope, tokens, i) then Some(i) else None
  }

  ghost function BoundRow(scope: seq<Relation>, t: Tuple, c: Column): Option<Row> {
    match Bind(scope, c.table)
    case Some(i) => if i < |t| then t[i] else None
    case None => None
  }

  /** What a column name means in a row. */
  function ValueAt(ops: Ops, row: Row, column: string): Value {
    if column in row then row[column] else ops.absent(row, column)
  }

  ghost function Read(ops: Ops, scope: seq<Relation>, t: Tuple, c: Column): Value {
    match BoundRow(scope, t, c)
    case Some(row) => ValueAt(ops, row, c.column)
    case None => Null
  }

  // ---- Expressions ------------------------------------------------------------------------

  function Combine(op: BoolOp, vals: seq<Value>): Value {
    match op
    case And => if Bool(false) in vals then Bool(false)
                else if forall v | v in vals :: v == Bool(true) then Bool(true) else Null
    case Or => if Bool(true) in vals then Bool(true)
               else if forall v | v in vals :: v == Bool(false) then Bool(false) else Null
    case Not => if |vals| == 1 && vals[0].Bool? then Bool(!vals[0].b) else Null
  }

  ghost function Eval(ops: Ops, scope: seq<Relation>, t: Tuple, n: Node): Value
    decreases n
  {
    match n
    case ColumnRef(fields) => Read(ops, scope, t, Denoted(fields))
    case AConst(v) => v
    case AExpr(kind, name, l, NodeList(items)) =>
      ops.inList(kind, OperatorName(name), Eval(ops, scope, t, l), EvalAll(ops, scope, t, items))
    case AExpr(kind, name, l, r) =>
      ops.binary(kind, OperatorName(name), Eval(ops, scope, t, l), Eval(ops, scope, t, r))
    case BoolExpr(op, args) => Combine(op, EvalAll(ops, scope, t, args))
    case NullTest(isNull, arg) => Bool((Eval(ops, scope, t, arg) == Null) == isNull)
    case _ => Null
  }

  ghost function EvalAll(ops: Ops, scope: seq<Relation>, t: Tuple, ns: seq<Node>): seq<Value>
    decreases ns
  {
    if ns == [] then []
    else EvalAll(ops, scope, t, ns[..|ns| - 1]) + [Eval(ops, scope, t, ns[|ns| - 1])]
  }

  function OperatorName(name: seq<NameNode>): string {
    if |name| > 0 && name[0].NameString? then name[0].s else ""
  }

  /** A row passes a condition that is absent or evaluates to true: null does not pass. */
  ghost predicate Holds(ops: Ops, scope: seq<Relation>, t: Tuple, n: Node) {
    n.Nil? || Eval(ops, scope, t, n) == Bool(true)
  }

  // ---- Agreement --------------------------------------------------------------------------

  /** The columns that may be read from each source of a statement. */
  type Footprint = map<Relation, set<string>>

  function Readable(fp: Footprint, rel: Relation): set<string> {
    if rel in fp then fp[rel] else {}
  }

  /** Two rows have all of some columns, and are equal in them. */
  predicate SameRow(cols: set<string>, a: Row, b: Row) {
    forall c | c in cols :: c in a && c in b && a[c] == b[c]
  }

  predicate SameRows(cols: set<string>, a: seq<Row>, b: seq<Row>) {
    |a| == |b| && forall i | 0 <= i < |a| :: SameRow(cols, a[i], b[i])
  }

  /** Two databases hold as many rows in each source, equal in the readable columns. */
  predicate Agree(scope: seq<Relation>, fp: Footprint, a: Database, b: Database) {
    forall rel | rel in scope :: SameRows(Readable(fp, rel), RowsOf(a, rel), RowsOf(b, rel))
  }

  predicate SameTuple(scope: seq<Relation>, fp: Footprint, a: Tuple, b: Tuple) {
    && |a| == |b| == |scope|
    && forall i | 0 <= i < |a| ::
         match (a[i], b[i])
         case (Some(x), Some(y)) => SameRow(Readable(fp, scope[i]), x, y)
         case (x, y) => x == y
  }

  predicate SameTuples(scope: seq<Relation>, fp: Footprint, a: seq<Tuple>, b: seq<Tuple>) {
    |a| == |b| && forall i | 0 <= i < |a| :: SameTuple(scope, fp, a[i], b[i])
  }

  /** A reference that reads only what the footprint allows. */
  ghost predicate Covered(scope: seq<Relation>, fp: Footprint, c: Column) {
    forall i: nat | Binds(scope, c.table, i) :: c.column in Readable(fp, scope[i])
  }

  ghost predicate AllCovered(scope: seq<Relation>, fp: Footprint, cols: seq<Column>) {
    forall c | c in cols :: Covered(scope, fp, c)
  }

  /** The value of a tree depends only on the cells its references read. */
  lemma {:induction false} EvalReadsRefs(ops: Ops, scope: seq<Relation>, fp: Footprint, a: Tuple, b: Tuple, n: Node)
    requires SameTuple(scope, fp, a, b) && AllCovered(scope, fp, Refs(n))
    ensures Eval(ops, scope, a, n) == Eval(ops, scope, b, n)
    decreases n
  {
    match n
    case ColumnRef(fields) =>
      assert Covered(scope, fp, Denoted(fields));
    case AExpr(_, _, l, r) =>
      EvalReadsRefs(ops, scope, fp, a, b, l);
      if r.NodeList? {
        assert Refs(r) == RefsOfAll(r.items);
        EvalAllReadsRefs(ops, scope, fp, a, b, r.items);
      } else {
        EvalReadsRefs(ops, scope, fp, a, b, r);
      }
    case BoolExpr(_, args) => EvalAllReadsRefs(ops, scope, fp, a, b, args);
    case NullTest(_, arg) => EvalReadsRefs(ops, scope, fp, a, b, arg);
    case _ =>
  }

  lemma {:induction false} EvalAllReadsRefs(ops: Ops, scope: seq<Relation>, fp: Footprint, a: Tuple, b: Tuple,
                                            ns: seq<Node>)
    requires SameTuple(scope, fp, a, b) && AllCovered(scope, fp, RefsOfAll(ns))
    ensures EvalAll(ops, scope, a, ns) == EvalAll(ops, scope, b, ns)
    decreases ns
  {
    if ns != [] {
      EvalAllReadsRefs(ops, scope, fp, a, b, ns[..|ns| - 1]);
      EvalReadsRefs(ops, scope, fp, a, b, ns[|ns| - 1]);
    }
  }

  // ---- Joins ------------------------------------------------------------------------------

  function NullTuple(n: nat): (t: Tuple)
    ensures |t| == n
  {
    seq(n, i => None)
  }

  ghost function MatchesOf(ops: Ops, scope: seq<Relation>, on: Node, l: Tuple, rs: seq<Tuple>): seq<Tuple> {
    if rs == [] then []
    else
      var t := l + rs[|rs| - 1];
      MatchesOf(ops, scope, on, l, rs[..|rs| - 1]) + (if Holds(ops, scope, t, on) then [t] else [])
  }

  /** A left row with its matches, or with a null row if it has none and is to be kept. */
  ghost function LeftRow(ops: Ops, scope: seq<Relation>, on: Node, keep: bool, pad: nat, l: Tuple,
                         rs: seq<Tuple>): seq<Tuple> {
    var ms := MatchesOf(ops, scope, on, l, rs);
    if ms == [] && keep then [l + NullTuple(pad)] else ms
  }

  ghost function LeftPart(ops: Ops, scope: seq<Relation>, on: Node, keep: bool, pad: nat, ls: seq<Tuple>,
                          rs: seq<Tuple>): seq<Tuple> {
    if ls == [] then []
    else
      LeftPart(ops, scope, on, keep, pad, ls[..|ls| - 1], rs)
      + LeftRow(ops, scope, on, keep, pad, ls[|ls| - 1], rs)
  }

  ghost predicate AnyMatch(ops: Ops, scope: seq<Relation>, on: Node, ls: seq<Tuple>, r: Tuple) {
    exists i | 0 <= i < |ls| :: Holds(ops, scope, ls[i] + r, on)
  }

  /** The right rows without a match, each with a null row on its left. */
  ghost function RightPart(ops: Ops, scope: seq<Relation>, on: Node, pad: nat, ls: seq<Tuple>,
                           rs: seq<Tuple>): seq<Tuple> {
    if rs == [] then []
    else
      var r := rs[|rs| - 1];
      RightPart(ops, scope, on, pad, ls, rs[..|rs| - 1])
      + (if AnyMatch(ops, scope, on, ls, r) then [] else [NullTuple(pad) + r])
  }

  ghost function JoinTuples(ops: Ops, kind: JoinKind, left: seq<Relation>, right: seq<Relation>, on: Node,
                            ls: seq<Tuple>, rs: seq<Tuple>): seq<Tuple> {
    LeftPart(ops, left + right, on, kind.LeftJoin? || kind.FullJoin?, |right|, ls, rs)
    + (if kind.RightJoin? || kind.FullJoin? then RightPart(ops, left + right, on, |left|, ls, rs) else [])
  }

  lemma SameBeside(left: seq<Relation>, right: seq<Relation>, fp: Footprint, l: Tuple, l': Tuple, r: Tuple, r': Tuple)
    requires SameTuple(left, fp, l, l') && SameTuple(right, fp, r, r')
    ensures SameTuple(left + right, fp, l + r, l' + r')
  {
  }

  lemma SameConcat(scope: seq<Relation>, fp: Footprint, a: seq<Tuple>, a': seq<Tuple>, b: seq<Tuple>, b': seq<Tuple>)
    requires SameTuples(scope, fp, a, a') && SameTuples(scope, fp, b, b')
    ensures SameTuples(scope, fp, a + b, a' + b')
  {
  }

  lemma SameHolds(ops: Ops, scope: seq<Relation>, fp: Footprint, a: Tuple, b: Tuple, on: Node)
    requires SameTuple(scope, fp, a, b) && AllCovered(scope, fp, Refs(on))
    ensures Holds(ops, scope, a, on) <==> Holds(ops, scope, b, on)
  {
    EvalReadsRefs(ops, scope, fp, a, b, on);
  }

  lemma {:induction false} SameMatches(ops: Ops, left: seq<Relation>, right: seq<Relation>, fp: Footprint, on: Node,
                                       l: Tuple, l': Tuple, rs: seq<Tuple>, rs': seq<Tuple>)
    requires SameTuple(left, fp, l, l') && SameTuples(right, fp, rs, rs')
    requires AllCovered(left + right, fp, Refs(on))
    ensures SameTuples(left + right, fp, MatchesOf(ops, left + right, on, l, rs),
                       MatchesOf(ops, left + right, on, l', rs'))
  {
    if rs != [] {
      var n := |rs| - 1;
      SameMatches(ops, left, right, fp, on, l, l', rs[..n], rs'[..n]);
      SameBeside(left, right, fp, l, l', rs[n], rs'[n]);
      SameHolds(ops, left + right, fp, l + rs[n], l' + rs'[n], on);
    }
  }

  lemma SameLeftRow(ops: Ops, left: seq<Relation>, right: seq<Relation>, fp: Footprint, on: Node, keep: bool,
                    l: Tuple, l': Tuple, rs: seq<Tuple>, rs': seq<Tuple>)
    requires SameTuple(left, fp, l, l') && SameTuples(right, fp, rs, rs')
    requires AllCovered(left + right, fp, Refs(on))
    ensures SameTuples(left + right, fp, LeftRow(ops, left + right, on, keep, |right|, l, rs),
                       LeftRow(ops, left + right, on, keep, |right|, l', rs'))
  {
    SameMatches(ops, left, right, fp, on, l, l', rs, rs');
    SameBeside(left, right, fp, l, l', NullTuple(|right|), NullTuple(|right|));
  }

  lemma {:induction false} SameLeftPart(ops: Ops, left: seq<Relation>, right: seq<Relation>, fp: Footprint, on: Node,
                                        keep: bool,
                                        ls: seq<Tuple>, ls': seq<Tuple>, rs: seq<Tuple>, rs': seq<Tuple>)
    requires SameTuples(left, fp, ls, ls') && SameTuples(right, fp, rs, rs')
    requires AllCovered(left + right, fp, Refs(on))
    ensures SameTuples(left + right, fp, LeftPart(ops, left + right, on, keep, |right|, ls, rs),
                       LeftPart(ops, left + right, on, keep, |right|, ls', rs'))
  {
    if ls != [] {
      var n := |ls| - 1;
      SameLeftPart(ops, left, right, fp, on, keep, ls[..n], ls'[..n], rs, rs');
      SameLeftRow(ops, left, right, fp, on, keep, ls[n], ls'[n], rs, rs');
      SameConcat(left + right, fp,
                 LeftPart(ops, left + right, on, keep, |right|, ls[..n], rs),
                     LeftPart(ops, left + right, on, keep, |right|, ls'[..n], rs'),
                 LeftRow(ops, left + right, on, keep, |right|, ls[n], rs),
                     LeftRow(ops, left + right, on, keep, |right|, ls'[n], rs'));
    }
  }

  lemma {:induction false} SameRightPart(ops: Ops, left: seq<Relation>, right: seq<Relation>, fp: Footprint, on: Node,
                                         ls: seq<Tuple>, ls': seq<Tuple>, rs: seq<Tuple>, rs': seq<Tuple>)
    requires SameTuples(left, fp, ls, ls') && SameTuples(right, fp, rs, rs')
    requires AllCovered(left + right, fp, Refs(on))
    ensures SameTuples(left + right, fp, RightPart(ops, left + right, on, |left|, ls, rs),
                       RightPart(ops, left + right, on, |left|, ls', rs'))
  {
    if rs != [] {
      var n := |rs| - 1;
      SameRightPart(ops, left, right, fp, on, ls, ls', rs[..n], rs'[..n]);
      SameAnyMatch(ops, left, right, fp, on, ls, ls', rs[n], rs'[n]);
      SameBeside(left, right, fp, NullTuple(|left|), NullTuple(|left|), rs[n], rs'[n]);
    }
  }

  lemma SameAnyMatch(ops: Ops, left: seq<Relation>, right: seq<Relation>, fp: Footprint, on: Node,
                     ls: seq<Tuple>, ls': seq<Tuple>, r: Tuple, r': Tuple)
    requires SameTuples(left, fp, ls, ls') && SameTuple(right, fp, r, r')
    requires AllCovered(left + right, fp, Refs(on))
    ensures AnyMatch(ops, left + right, on, ls, r) <==> AnyMatch(ops, left + right, on, ls', r')
  {
    forall i | 0 <= i < |ls|
      ensures Holds(ops, left + right, ls[i] + r, on) <==> Holds(ops, left + right, ls'[i] + r', on)
    {
      SameBeside(left, right, fp, ls[i], ls'[i], r, r');
      SameHolds(ops, left + right, fp, ls[i] + r, ls'[i] + r', on);
    }
  }

  lemma SameJoin(ops: Ops, kind: JoinKind, left: seq<Relation>, right: seq<Relation>, fp: Footprint, on: Node,
                 ls: seq<Tuple>, ls': seq<Tuple>, rs: seq<Tuple>, rs': seq<Tuple>)
    requires SameTuples(left, fp, ls, ls') && SameTuples(right, fp, rs, rs')
    requires AllCovered(left + right, fp, Refs(on))
    ensures SameTuples(left + right, fp, JoinTuples(ops, kind, left, right, on, ls, rs),
                       JoinTuples(ops, kind, left, right, on, ls', rs'))
  {
    SameLeftPart(ops, left, right, fp, on, kind.LeftJoin? || kind.FullJoin?, ls, ls', rs, rs');
    SameRightPart(ops, left, right, fp, on, ls, ls', rs, rs');
  }
}
