/** The result of a SELECT, and the lemma that it depends only on the cells its references
    read. Nothing here is specific to the analyser. */
module SelectMeaning {
  import opened Common
  import opened Ast
  import opened Columns
  import opened Predicates
  import opened Relational
  import opened SelectParser

  const AGGREGATES := {"count", "sum", "min", "max"}

  // ---- FROM and WHERE -----------------------------------------------------------------------

  function Scan(rows: seq<Row>): (ts: seq<Tuple>)
    ensures |ts| == |rows| && forall i | 0 <= i < |ts| :: ts[i] == [Some(rows[i])]
  {
    seq(|rows|, i requires 0 <= i < |rows| => [Some(rows[i])])
  }

  ghost function FromTuples(ops: Ops, db: Database, from: FromItem): seq<Tuple> {
    match from
    case RangeVar(rel) => Scan(ShownRows(ops, rel, RowsOf(db, rel)))
    case JoinExpr(kind, _, _, _, _, l, r, on) =>
      JoinTuples(ops, kind, Leaves(l), Leaves(r), on, FromTuples(ops, db, l), FromTuples(ops, db, r))
    case OtherFrom => []
  }

  ghost function Where(ops: Ops, scope: seq<Relation>, cond: Node, ts: seq<Tuple>): seq<Tuple> {
    if ts == [] then []
    else
      Where(ops, scope, cond, ts[..|ts| - 1])
      + (if Holds(ops, scope, ts[|ts| - 1], cond) then [ts[|ts| - 1]] else [])
  }

  // ---- GROUP BY -----------------------------------------------------------------------------

  ghost function KeyOf(ops: Ops, scope: seq<Relation>, group: seq<Node>, t: Tuple): seq<Value> {
    EvalAll(ops, scope, t, group)
  }

  ghost function KeepIf(ops: Ops, scope: seq<Relation>, group: seq<Node>, key: seq<Value>, keep: bool,
                        t: Tuple): (r: seq<Tuple>)
    ensures |r| <= 1
  {
    if (KeyOf(ops, scope, group, t) == key) == keep then [t] else []
  }

  /** The rows with a key, or all others. */
  ghost function WithKey(ops: Ops, scope: seq<Relation>, group: seq<Node>, key: seq<Value>, keep: bool,
                         ts: seq<Tuple>): (r: seq<Tuple>)
    ensures |r| <= |ts|
  {
    if ts == [] then []
    else WithKey(ops, scope, group, key, keep, ts[..|ts| - 1]) + KeepIf(ops, scope, group, key, keep, ts[|ts| - 1])
  }

  /** The group of the first row, and the rows outside it. */
  ghost function FirstGroup(ops: Ops, scope: seq<Relation>, group: seq<Node>, ts: seq<Tuple>): seq<Tuple>
    requires ts != []
  {
    [ts[0]] + WithKey(ops, scope, group, KeyOf(ops, scope, group, ts[0]), true, ts[1..])
  }

  ghost function OtherGroups(ops: Ops, scope: seq<Relation>, group: seq<Node>, ts: seq<Tuple>): (r: seq<Tuple>)
    requires ts != []
    ensures |r| < |ts|
  {
    WithKey(ops, scope, group, KeyOf(ops, scope, group, ts[0]), false, ts[1..])
  }

  /** The groups of equal keys, in the order of their first rows. */
  ghost function Partition(ops: Ops, scope: seq<Relation>, group: seq<Node>, ts: seq<Tuple>): seq<seq<Tuple>>
    decreases |ts|
  {
    if ts == [] then []
    else [FirstGroup(ops, scope, group, ts)] + Partition(ops, scope, group, OtherGroups(ops, scope, group, ts))
  }

  predicate IsAggregate(n: Node) {
    n.FuncCall? && |n.funcname| > 0 && n.funcname[0].NameString? && ToLower(n.funcname[0].s) in AGGREGATES
  }

  predicate Aggregates(sel: SelectStmt) {
    sel.group != [] || exists t | t in sel.targets :: t.ResTarget? && IsAggregate(t.val)
  }

  function Singles(ts: seq<Tuple>): (units: seq<seq<Tuple>>)
    ensures |units| == |ts| && forall i | 0 <= i < |ts| :: units[i] == [ts[i]]
  {
    seq(|ts|, i requires 0 <= i < |ts| => [ts[i]])
  }

  /** The rows behind each row of the result: one row, a group, or all rows. */
  ghost function Units(ops: Ops, sel: SelectStmt, scope: seq<Relation>, ts: seq<Tuple>): seq<seq<Tuple>> {
    if !Aggregates(sel) then Singles(ts)
    else if sel.group == [] then [ts]
    else Partition(ops, scope, sel.group, ts)
  }

  // ---- Target list and ORDER BY ---------------------------------------------------------------

  /** `count` without DISTINCT, which looks only at whether a row is there. */
  predicate PlainCount(n: Node)
    requires n.FuncCall?
  {
    FunctionName(n) == "count" && !n.distinct
  }

  /** A function argument. A star passes a whole row, or under a plain count its presence. */
  ghost function ArgValue(ops: Ops, scope: seq<Relation>, counted: bool, t: Tuple, arg: Node): Value {
    if arg.ColumnRef? && HasStar(arg.fields) then
      var row := BoundRow(scope, t, Denoted(arg.fields));
      if counted then (if row.Some? then Bool(true) else Null) else ops.wholeRow(row)
    else Eval(ops, scope, t, arg)
  }

  ghost function ArgValues(ops: Ops, scope: seq<Relation>, counted: bool, t: Tuple, args: seq<Node>): seq<Value> {
    if args == [] then []
    else ArgValues(ops, scope, counted, t, args[..|args| - 1]) + [ArgValue(ops, scope, counted, t, args[|args| - 1])]
  }

  ghost function ArgTable(ops: Ops, scope: seq<Relation>, counted: bool, unit: seq<Tuple>,
                          args: seq<Node>): seq<seq<Value>> {
    if unit == [] then []
    else
      ArgTable(ops, scope, counted, unit[..|unit| - 1], args)
      + [ArgValues(ops, scope, counted, unit[|unit| - 1], args)]
  }

  function FunctionName(n: Node): string
    requires n.FuncCall?
  {
    if |n.funcname| > 0 && n.funcname[0].NameString? then ToLower(n.funcname[0].s) else ""
  }

  ghost function ValueOf(ops: Ops, scope: seq<Relation>, unit: seq<Tuple>, val: Node): Value {
    if val.FuncCall? then
      var name := FunctionName(val);
      if IsAggregate(val) then ops.aggregate(name, val.distinct, ArgTable(ops, scope, PlainCount(val), unit, val.args))
      else if unit == [] then Null
      else ops.scalar(name, ArgValues(ops, scope, PlainCount(val), unit[0], val.args))
    else if unit == [] then Null
    else Eval(ops, scope, unit[0], val)
  }

  ghost function OutputRow(ops: Ops, scope: seq<Relation>, unit: seq<Tuple>,
                           targets: seq<TargetNode>): (out: seq<Value>)
    ensures |out| == |targets|
  {
    if targets == [] then []
    else
      var last := targets[|targets| - 1];
      OutputRow(ops, scope, unit, targets[..|targets| - 1])
      + [if last.ResTarget? then ValueOf(ops, scope, unit, last.val) else Null]
  }

  function OutputName(t: TargetNode): string {
    match t
    case ResTarget(name, _, val) =>
      if name != "" then name
      else if val.ColumnRef? then Denoted(val.fields).column
      else if val.FuncCall? then FunctionName(val)
      else ""
    case _ => ""
  }

  /** A bare name in ORDER BY means an output column first, and a column of a source
      otherwise. */
  ghost function SortKey(ops: Ops, scope: seq<Relation>, unit: seq<Tuple>, targets: seq<TargetNode>, out: seq<Value>,
                         s: SortNode): Value
    requires |out| == |targets|
  {
    if !s.SortBy? || !s.node.ColumnRef? then Null
    else
      var c := Denoted(s.node.fields);
      if i: nat :| i < |targets| && c.table == [] && OutputName(targets[i]) == c.column then out[i]
      else if unit == [] then Null
      else Eval(ops, scope, unit[0], s.node)
  }

  ghost function SortKeys(ops: Ops, scope: seq<Relation>, unit: seq<Tuple>, targets: seq<TargetNode>, out: seq<Value>,
                          sort: seq<SortNode>): seq<Value>
    requires |out| == |targets|
  {
    if sort == [] then []
    else SortKeys(ops, scope, unit, targets, out, sort[..|sort| - 1])
         + [SortKey(ops, scope, unit, targets, out, sort[|sort| - 1])]
  }

  datatype Line = Line(out: seq<Value>, keys: seq<Value>)

  ghost function LineOf(ops: Ops, sel: SelectStmt, scope: seq<Relation>, unit: seq<Tuple>): Line {
    var out := OutputRow(ops, scope, unit, sel.targets);
    Line(out, SortKeys(ops, scope, unit, sel.targets, out, sel.sort))
  }

  ghost function Lines(ops: Ops, sel: SelectStmt, scope: seq<Relation>, units: seq<seq<Tuple>>): seq<Line> {
    if units == [] then []
    else Lines(ops, sel, scope, units[..|units| - 1]) + [LineOf(ops, sel, scope, units[|units| - 1])]
  }

  // ---- Arranging the result -------------------------------------------------------------------

  function Directions(sort: seq<SortNode>): seq<SortDir> {
    seq(|sort|, i requires 0 <= i < |sort| => if sort[i].SortBy? then sort[i].dir else SortDefault)
  }

  ghost function Insert(ops: Ops, dirs: seq<SortDir>, line: Line, sorted: seq<Line>): seq<Line> {
    if sorted == [] then [line]
    else if ops.before(dirs, line.keys, sorted[0].keys) then [line] + sorted
    else [sorted[0]] + Insert(ops, dirs, line, sorted[1..])
  }

  ghost function Sorted(ops: Ops, dirs: seq<SortDir>, lines: seq<Line>): seq<Line> {
    if lines == [] then []
    else Insert(ops, dirs, lines[|lines| - 1], Sorted(ops, dirs, lines[..|lines| - 1]))
  }

  ghost function CountOf(ops: Ops, db: Database, rc: RowCount): Option<nat> {
    match rc
    case NoCount => None
    case ConstCount(n) => Some(n)
    case OtherCount(id) => Some(ops.rowCount(db, id))
  }

  /** The first `n` lines, and with ties those after them with the key of the last one. */
  function Take(lines: seq<Line>, n: nat, ties: bool): seq<Line>
    decreases |lines| - n
  {
    if n >= |lines| then lines
    else if ties && n > 0 && lines[n].keys == lines[n - 1].keys then Take(lines, n + 1, ties)
    else lines[..n]
  }

  /** The lines of the rows that pass, in no particular order yet. */
  ghost function PassedLines(ops: Ops, sel: SelectStmt, scope: seq<Relation>, ts: seq<Tuple>): seq<Line> {
    Lines(ops, sel, scope, Units(ops, sel, scope, Where(ops, scope, sel.where, ts)))
  }

  ghost function Arranged(ops: Ops, sort: seq<SortNode>, skip: Option<nat>, lines: seq<Line>): seq<Line> {
    var sorted := if sort == [] then lines else Sorted(ops, Directions(sort), lines);
    match skip
    case Some(n) => if n <= |sorted| then sorted[n..] else []
    case None => sorted
  }

  /** The result before LIMIT. */
  ghost function Unlimited(ops: Ops, db: Database, sel: SelectStmt): seq<Line>
    requires |sel.from| == 1
  {
    Arranged(ops, sel.sort, CountOf(ops, db, sel.offset),
             PassedLines(ops, sel, Leaves(sel.from[0]), FromTuples(ops, db, sel.from[0])))
  }

  ghost function SelectResult(ops: Ops, db: Database, sel: SelectStmt): seq<Line>
    requires |sel.from| == 1
  {
    match CountOf(ops, db, sel.limit)
    case Some(n) => Take(Unlimited(ops, db, sel), n, sel.limitOption.LimitWithTies?)
    case None => Unlimited(ops, db, sel)
  }

  // ---- What the result depends on -------------------------------------------------------------

  /** The references a target reads; a star argument reads no column. */
  function TargetRefs(t: TargetNode): seq<Column> {
    if !t.ResTarget? then []
    else if t.val.FuncCall? then ArgRefs(t.val.args)
    else Refs(t.val)
  }

  /** The arguments that are no references with a star. */
  function WithoutStars(args: seq<Node>): seq<Node> {
    if args == [] then []
    else
      var arg := args[|args| - 1];
      WithoutStars(args[..|args| - 1]) + (if arg.ColumnRef? && HasStar(arg.fields) then [] else [arg])
  }

  function ArgRefs(args: seq<Node>): seq<Column> {
    RefsOfAll(WithoutStars(args))
  }

  lemma ArgRefsStep(args: seq<Node>)
    requires args != []
    ensures var arg := args[|args| - 1];
            ArgRefs(args) == ArgRefs(args[..|args| - 1])
                + (if arg.ColumnRef? && HasStar(arg.fields) then [] else Refs(arg))
  {
    var before, arg := WithoutStars(args[..|args| - 1]), args[|args| - 1];
    if arg.ColumnRef? && HasStar(arg.fields) {
      assert before + [] == before;
      assert RefsOfAll(before) + [] == RefsOfAll(before);
    } else {
      assert (before + [arg])[..|before|] == before;
    }
  }

  function TargetsRefs(ts: seq<TargetNode>): seq<Column> {
    if ts == [] then [] else TargetsRefs(ts[..|ts| - 1]) + TargetRefs(ts[|ts| - 1])
  }

  function SortRefs(sort: seq<SortNode>): seq<Column> {
    if sort == [] then []
    else SortRefs(sort[..|sort| - 1])
         + (if sort[|sort| - 1].SortBy? then Refs(sort[|sort| - 1].node) else [])
  }

  /** Every column reference of a statement: targets and function arguments without stars,
      WHERE, every ON clause, ORDER BY and GROUP BY. */
  function StatementRefs(sel: SelectStmt): seq<Column>
    requires |sel.from| == 1
  {
    TargetsRefs(sel.targets) + Refs(sel.where) + JoinRefs(sel.from[0]) + SortRefs(sel.sort) + RefsOfAll(sel.group)
  }

  /** The references of every ON clause are covered in the scope of their own join. */
  ghost predicate JoinsCovered(fp: Footprint, from: FromItem) {
    match from
    case JoinExpr(_, _, _, _, _, l, r, on) =>
      JoinsCovered(fp, l) && JoinsCovered(fp, r) && AllCovered(Leaves(l) + Leaves(r), fp, Refs(on))
    case _ => true
  }

  /** Star arguments stand only under `count`, and not under DISTINCT. */
  predicate StarsOnlyCounted(sel: SelectStmt) {
    forall t | t in sel.targets && t.ResTarget? && t.val.FuncCall? && !PlainCount(t.val) ::
      forall arg | arg in t.val.args :: arg.ColumnRef? ==> !HasStar(arg.fields)
  }

  predicate ConstantCounts(sel: SelectStmt) {
    !sel.limit.OtherCount? && !sel.offset.OtherCount?
  }

  lemma {:induction false} SameFrom(ops: Ops, a: Database, b: Database, fp: Footprint, from: FromItem)
    requires Agree(Leaves(from), fp, a, b) && JoinsCovered(fp, from) && NoneRenamed(Leaves(from))
    ensures SameTuples(Leaves(from), fp, FromTuples(ops, a, from), FromTuples(ops, b, from))
  {
    match from
    case JoinExpr(kind, _, _, _, _, l, r, on) =>
      assert forall rel | rel in Leaves(l) || rel in Leaves(r) :: rel in Leaves(from);
      SameFrom(ops, a, b, fp, l);
      SameFrom(ops, a, b, fp, r);
      SameJoin(ops, kind, Leaves(l), Leaves(r), fp, on, FromTuples(ops, a, l), FromTuples(ops, b, l),
               FromTuples(ops, a, r), FromTuples(ops, b, r));
    case RangeVar(rel) =>
      assert rel in Leaves(from);
    case OtherFrom =>
  }

  lemma {:induction false} SameWhere(ops: Ops, scope: seq<Relation>, fp: Footprint, cond: Node, ts: seq<Tuple>,
                                     ts': seq<Tuple>)
    requires SameTuples(scope, fp, ts, ts') && AllCovered(scope, fp, Refs(cond))
    ensures SameTuples(scope, fp, Where(ops, scope, cond, ts), Where(ops, scope, cond, ts'))
  {
    if ts != [] {
      var n := |ts| - 1;
      SameWhere(ops, scope, fp, cond, ts[..n], ts'[..n]);
      SameHolds(ops, scope, fp, ts[n], ts'[n], cond);
    }
  }

  lemma SameKeepIf(ops: Ops, scope: seq<Relation>, fp: Footprint, group: seq<Node>, key: seq<Value>, keep: bool,
                   t: Tuple, t': Tuple)
    requires SameTuple(scope, fp, t, t') && AllCovered(scope, fp, RefsOfAll(group))
    ensures SameTuples(scope, fp, KeepIf(ops, scope, group, key, keep, t), KeepIf(ops, scope, group, key, keep, t'))
  {
    EvalAllReadsRefs(ops, scope, fp, t, t', group);
  }

  lemma {:induction false} SameWithKey(ops: Ops, scope: seq<Relation>, fp: Footprint, group: seq<Node>, key: seq<Value>,
                                       keep: bool,
                                       ts: seq<Tuple>, ts': seq<Tuple>)
    requires SameTuples(scope, fp, ts, ts') && AllCovered(scope, fp, RefsOfAll(group))
    ensures SameTuples(scope, fp, WithKey(ops, scope, group, key, keep, ts), WithKey(ops, scope, group, key, keep, ts'))
  {
    if ts != [] {
      var n := |ts| - 1;
      SameWithKey(ops, scope, fp, group, key, keep, ts[..n], ts'[..n]);
      SameKeepIf(ops, scope, fp, group, key, keep, ts[n], ts'[n]);
      SameConcat(scope, fp, WithKey(ops, scope, group, key, keep, ts[..n]),
                 WithKey(ops, scope, group, key, keep, ts'[..n]),
                 KeepIf(ops, scope, group, key, keep, ts[n]), KeepIf(ops, scope, group, key, keep, ts'[n]));
    }
  }

  lemma SameFirstGroup(ops: Ops, scope: seq<Relation>, fp: Footprint, group: seq<Node>, ts: seq<Tuple>, ts': seq<Tuple>)
    requires ts != [] && SameTuples(scope, fp, ts, ts') && AllCovered(scope, fp, RefsOfAll(group))
    ensures SameTuples(scope, fp, FirstGroup(ops, scope, group, ts), FirstGroup(ops, scope, group, ts'))
    ensures SameTuples(scope, fp, OtherGroups(ops, scope, group, ts), OtherGroups(ops, scope, group, ts'))
  {
    var key := KeyOf(ops, scope, group, ts[0]);
    EvalAllReadsRefs(ops, scope, fp, ts[0], ts'[0], group);
    assert SameTuples(scope, fp, ts[1..], ts'[1..]);
    SameWithKey(ops, scope, fp, group, key, true, ts[1..], ts'[1..]);
    SameWithKey(ops, scope, fp, group, key, false, ts[1..], ts'[1..]);
    SameConcat(scope, fp, [ts[0]], [ts'[0]], WithKey(ops, scope, group, key, true, ts[1..]),
               WithKey(ops, scope, group, key, true, ts'[1..]));
  }

  predicate SameUnits(scope: seq<Relation>, fp: Footprint, us: seq<seq<Tuple>>, us': seq<seq<Tuple>>) {
    |us| == |us'| && forall i | 0 <= i < |us| :: SameTuples(scope, fp, us[i], us'[i])
  }

  lemma {:induction false} SamePartition(ops: Ops, scope: seq<Relation>, fp: Footprint, group: seq<Node>,
                                         ts: seq<Tuple>, ts': seq<Tuple>)
    requires SameTuples(scope, fp, ts, ts') && AllCovered(scope, fp, RefsOfAll(group))
    ensures SameUnits(scope, fp, Partition(ops, scope, group, ts), Partition(ops, scope, group, ts'))
    decreases |ts|
  {
    if ts != [] {
      SameFirstGroup(ops, scope, fp, group, ts, ts');
      SamePartition(ops, scope, fp, group, OtherGroups(ops, scope, group, ts), OtherGroups(ops, scope, group, ts'));
    }
  }

  lemma {:induction false} SameArgValues(ops: Ops, scope: seq<Relation>, fp: Footprint, counted: bool, t: Tuple,
                                         t': Tuple, args: seq<Node>)
    requires SameTuple(scope, fp, t, t') && AllCovered(scope, fp, ArgRefs(args))
    requires !counted ==> forall arg | arg in args :: arg.ColumnRef? ==> !HasStar(arg.fields)
    ensures ArgValues(ops, scope, counted, t, args) == ArgValues(ops, scope, counted, t', args)
  {
    if args != [] {
      var arg := args[|args| - 1];
      ArgRefsStep(args);
      SameArgValues(ops, scope, fp, counted, t, t', args[..|args| - 1]);
      if !(arg.ColumnRef? && HasStar(arg.fields)) {
        EvalReadsRefs(ops, scope, fp, t, t', arg);
      }
    }
  }

  lemma {:induction false} SameArgTable(ops: Ops, scope: seq<Relation>, fp: Footprint, counted: bool, u: seq<Tuple>,
                                        u': seq<Tuple>, args: seq<Node>)
    requires SameTuples(scope, fp, u, u') && AllCovered(scope, fp, ArgRefs(args))
    requires !counted ==> forall arg | arg in args :: arg.ColumnRef? ==> !HasStar(arg.fields)
    ensures ArgTable(ops, scope, counted, u, args) == ArgTable(ops, scope, counted, u', args)
  {
    if u != [] {
      var n := |u| - 1;
      SameArgTable(ops, scope, fp, counted, u[..n], u'[..n], args);
      SameArgValues(ops, scope, fp, counted, u[n], u'[n], args);
    }
  }

  lemma {:induction false} SameOutput(ops: Ops, scope: seq<Relation>, fp: Footprint, u: seq<Tuple>, u': seq<Tuple>,
                                      targets: seq<TargetNode>)
    requires SameTuples(scope, fp, u, u') && AllCovered(scope, fp, TargetsRefs(targets))
    requires forall t | t in targets && t.ResTarget? && t.val.FuncCall? && !PlainCount(t.val) ::
               forall arg | arg in t.val.args :: arg.ColumnRef? ==> !HasStar(arg.fields)
    ensures OutputRow(ops, scope, u, targets) == OutputRow(ops, scope, u', targets)
  {
    if targets != [] {
      var t := targets[|targets| - 1];
      SameOutput(ops, scope, fp, u, u', targets[..|targets| - 1]);
      if t.ResTarget? && t.val.FuncCall? {
        SameArgTable(ops, scope, fp, PlainCount(t.val), u, u', t.val.args);
        if u != [] {
          SameArgValues(ops, scope, fp, PlainCount(t.val), u[0], u'[0], t.val.args);
        }
      } else if t.ResTarget? && u != [] {
        EvalReadsRefs(ops, scope, fp, u[0], u'[0], t.val);
      }
    }
  }

  lemma {:induction false} SameSortKeys(ops: Ops, scope: seq<Relation>, fp: Footprint, u: seq<Tuple>, u': seq<Tuple>,
                                        targets: seq<TargetNode>, out: seq<Value>, sort: seq<SortNode>)
    requires SameTuples(scope, fp, u, u') && AllCovered(scope, fp, SortRefs(sort)) && |out| == |targets|
    ensures SortKeys(ops, scope, u, targets, out, sort) == SortKeys(ops, scope, u', targets, out, sort)
  {
    if sort != [] {
      var s := sort[|sort| - 1];
      SameSortKeys(ops, scope, fp, u, u', targets, out, sort[..|sort| - 1]);
      if s.SortBy? && s.node.ColumnRef? && u != [] {
        EvalReadsRefs(ops, scope, fp, u[0], u'[0], s.node);
      }
    }
  }

  lemma {:induction false} SameLines(ops: Ops, sel: SelectStmt, scope: seq<Relation>, fp: Footprint,
                                     us: seq<seq<Tuple>>, us': seq<seq<Tuple>>)
    requires SameUnits(scope, fp, us, us') && StarsOnlyCounted(sel)
    requires AllCovered(scope, fp, TargetsRefs(sel.targets)) && AllCovered(scope, fp, SortRefs(sel.sort))
    ensures Lines(ops, sel, scope, us) == Lines(ops, sel, scope, us')
  {
    if us != [] {
      var n := |us| - 1;
      SameLines(ops, sel, scope, fp, us[..n], us'[..n]);
      SameOutput(ops, scope, fp, us[n], us'[n], sel.targets);
      SameSortKeys(ops, scope, fp, us[n], us'[n], sel.targets, OutputRow(ops, scope, us[n], sel.targets), sel.sort);
    }
  }

  lemma SamePassed(ops: Ops, sel: SelectStmt, scope: seq<Relation>, fp: Footprint, ts: seq<Tuple>, ts': seq<Tuple>)
    requires SameTuples(scope, fp, ts, ts') && StarsOnlyCounted(sel)
    requires AllCovered(scope, fp, TargetsRefs(sel.targets)) && AllCovered(scope, fp, Refs(sel.where))
    requires AllCovered(scope, fp, SortRefs(sel.sort)) && AllCovered(scope, fp, RefsOfAll(sel.group))
    ensures PassedLines(ops, sel, scope, ts) == PassedLines(ops, sel, scope, ts')
  {
    var passed, passed' := Where(ops, scope, sel.where, ts), Where(ops, scope, sel.where, ts');
    SameWhere(ops, scope, fp, sel.where, ts, ts');
    SamePartition(ops, scope, fp, sel.group, passed, passed');
    SameLines(ops, sel, scope, fp, Units(ops, sel, scope, passed), Units(ops, sel, scope, passed'));
  }

  lemma SameUnlimited(ops: Ops, a: Database, b: Database, sel: SelectStmt)
    requires |sel.from| == 1 && ConstantCounts(sel)
    requires PassedLines(ops, sel, Leaves(sel.from[0]), FromTuples(ops, a, sel.from[0]))
          == PassedLines(ops, sel, Leaves(sel.from[0]), FromTuples(ops, b, sel.from[0]))
    ensures SelectResult(ops, a, sel) == SelectResult(ops, b, sel)
  {
    assert Unlimited(ops, a, sel) == Unlimited(ops, b, sel);
    assert CountOf(ops, a, sel.limit) == CountOf(ops, b, sel.limit);
  }

  /** Databases that agree on the cells a statement's references read give the same result. */
  lemma ResultReadsRefs(ops: Ops, a: Database, b: Database, fp: Footprint, sel: SelectStmt)
    requires |sel.from| == 1 && StarsOnlyCounted(sel) && ConstantCounts(sel) && NoneRenamed(Leaves(sel.from[0]))
    requires var scope := Leaves(sel.from[0]);
             && Agree(scope, fp, a, b)
             && JoinsCovered(fp, sel.from[0])
             && AllCovered(scope, fp, TargetsRefs(sel.targets))
             && AllCovered(scope, fp, Refs(sel.where))
             && AllCovered(scope, fp, SortRefs(sel.sort))
             && AllCovered(scope, fp, RefsOfAll(sel.group))
    ensures SelectResult(ops, a, sel) == SelectResult(ops, b, sel)
  {
    var from, scope := sel.from[0], Leaves(sel.from[0]);
    SameFrom(ops, a, b, fp, from);
    SamePassed(ops, sel, scope, fp, FromTuples(ops, a, from), FromTuples(ops, b, from));
    SameUnlimited(ops, a, b, sel);
  }
}
