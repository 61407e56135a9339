/** Why the guarantees for SELECT have the conditions they have: for each condition, accepted
    statements that break it and whose results depend on more than the vectors list. */
module FootprintLimits {
  import opened Common
  import opened Ast
  import opened NameGraph
  import opened TableNames
  import opened Columns
  import opened Predicates
  import opened Vectors
  import opened SelectParser
  import opened Relational
  import opened SelectMeaning
  import opened SelectFootprint
  import opened WriteParser
  import opened Validator
  import opened Configuration
  import opened Gate

  // ---- Statements over one table ----------------------------------------------------------------

  function Over(rel: Relation, targets: seq<TargetNode>): SelectStmt {
    SelectStmt({}, targets, [RangeVar(rel)], Nil, [], [], NoCount, NoCount, LimitPlain, [])
  }

  lemma OverAccepted(rel: Relation, targets: seq<TargetNode>, cols: seq<Column>)
    requires rel.name != "" && Collect(targets, TargetColumns) == Ok(cols) && forall c | c in cols :: c.table == []
    ensures SelectGroups(Over(rel, targets)) == Ok(map[FullName(rel) := cols])
  {
    var sel := Over(rel, targets);
    assert Leaves(sel.from[0]) == [rel];
    assert cols + [] + [] + [] + [] == cols;
    assert StatementColumns(sel) == Ok(cols);
    NamesInFacts([rel]);
    OneSourceGroups(rel, cols);
  }

  /** Without conditions every row of a source passes. */
  lemma {:induction false} AllPass(ops: Ops, scope: seq<Relation>, ts: seq<Tuple>)
    ensures Where(ops, scope, Nil, ts) == ts
  {
    if ts != [] {
      var front, last := ts[..|ts| - 1], ts[|ts| - 1];
      AllPass(ops, scope, front);
      assert Holds(ops, scope, last, Nil) && front + [last] == ts;
    }
  }

  lemma OneLine(ops: Ops, sel: SelectStmt, scope: seq<Relation>, unit: seq<Tuple>, t: TargetNode)
    requires sel.sort == [] && sel.targets == [t] && t.ResTarget?
    ensures LineOf(ops, sel, scope, unit) == Line([ValueOf(ops, scope, unit, t.val)], [])
  {
    assert [t][..0] == [];
    assert OutputRow(ops, scope, unit, [t]) == [ValueOf(ops, scope, unit, t.val)];
  }

  lemma {:induction false} LinesAt(ops: Ops, sel: SelectStmt, scope: seq<Relation>, units: seq<seq<Tuple>>)
    ensures |Lines(ops, sel, scope, units)| == |units|
    ensures forall i | 0 <= i < |units| :: Lines(ops, sel, scope, units)[i] == LineOf(ops, sel, scope, units[i])
  {
    if units != [] {
      LinesAt(ops, sel, scope, units[..|units| - 1]);
    }
  }

  /** A single item over one table, as a value of each unit of its rows. */
  lemma OverResult(ops: Ops, db: Database, rel: Relation, val: Node)
    ensures var sel := Over(rel, [ResTarget("", false, val)]);
            var units := Units(ops, sel, [rel], Scan(ShownRows(ops, rel, RowsOf(db, rel))));
            && |SelectResult(ops, db, sel)| == |units|
            && forall i | 0 <= i < |units| ::
                SelectResult(ops, db, sel)[i] == Line([ValueOf(ops, [rel], units[i], val)], [])
  {
    var t := ResTarget("", false, val);
    var sel, ts := Over(rel, [t]), Scan(ShownRows(ops, rel, RowsOf(db, rel)));
    var units := Units(ops, sel, [rel], ts);
    AllPass(ops, [rel], ts);
    assert SelectResult(ops, db, sel) == Lines(ops, sel, [rel], units);
    LinesAt(ops, sel, [rel], units);
    forall i | 0 <= i < |units|
      ensures Lines(ops, sel, [rel], units)[i] == Line([ValueOf(ops, [rel], units[i], val)], [])
    {
      OneLine(ops, sel, [rel], units[i], t);
    }
  }

  /** Over one row, a single item is the whole result. */
  lemma OneRowResult(ops: Ops, db: Database, rel: Relation, row: Row, val: Node)
    requires ShownRows(ops, rel, RowsOf(db, rel)) == [row]
    ensures SelectResult(ops, db, Over(rel, [ResTarget("", false, val)]))
         == [Line([ValueOf(ops, [rel], [[Some(row)]], val)], [])]
  {
    OverResult(ops, db, rel, val);
    assert Scan([row]) == [[Some(row)]];
  }

  lemma LinesDiffer(x: Value, y: Value)
    requires x != y
    ensures [Line([x], [])] != [Line([y], [])]
  {
    assert [Line([x], [])][0].out[0] != [Line([y], [])][0].out[0];
  }

  // ---- Star arguments -----------------------------------------------------------------------------

  function StarCall(f: string, distinct: bool, qualifier: string): Node {
    FuncCall([NameString(f)], [ColumnRef([Name(qualifier), Star])], distinct, false, false, false)
  }

  /** `SELECT f(q.*) FROM rel`, or `SELECT f(DISTINCT q.*) FROM rel`. */
  function SelectStar(rel: Relation, f: string, distinct: bool, qualifier: string): SelectStmt {
    Over(rel, [ResTarget("", false, StarCall(f, distinct, qualifier))])
  }

  lemma StarAccepted(rel: Relation, f: string, distinct: bool, qualifier: string)
    requires rel.name != "" && ToLower(f) in ALLOWED_FUNCTIONS
    ensures SelectGroups(SelectStar(rel, f, distinct, qualifier)) == Ok(map[FullName(rel) := []])
  {
    var t, arg := ResTarget("", false, StarCall(f, distinct, qualifier)), ColumnRef([Name(qualifier), Star]);
    assert [arg][..0] == [] && [t][..0] == [];
    assert IsFunctionStarArg(arg.fields);
    var none: seq<Column> := [];
    assert none + none == none;
    assert Collect([arg], SelectParser.ArgColumns) == Ok([]);
    assert TargetColumns(t) == Ok([]);
    assert Collect([t], TargetColumns) == Ok([]);
    OverAccepted(rel, [t], []);
  }

  function WholeRows(ops: Ops, rows: seq<Row>): (args: seq<seq<Value>>)
    ensures |args| == |rows| && forall i | 0 <= i < |rows| :: args[i] == [ops.wholeRow(Some(rows[i]))]
  {
    seq(|rows|, i requires 0 <= i < |rows| => [ops.wholeRow(Some(rows[i]))])
  }

  /** What a function makes of whole rows: one line of all of them, or a line of each. */
  function OfWholeRows(ops: Ops, f: string, distinct: bool, rows: seq<Row>): seq<Line> {
    if ToLower(f) in AGGREGATES then [Line([ops.aggregate(ToLower(f), distinct, WholeRows(ops, rows))], [])]
    else seq(|rows|, i requires 0 <= i < |rows| => Line([ops.scalar(ToLower(f), WholeRows(ops, rows)[i])], []))
  }

  lemma StarArgs(ops: Ops, rel: Relation, qualifier: string, row: Row)
    requires KnownAs(rel, [qualifier])
    ensures ArgValues(ops, [rel], false, [Some(row)], [ColumnRef([Name(qualifier), Star])]) == [ops.wholeRow(Some(row))]
  {
    var arg, tuple: Tuple := ColumnRef([Name(qualifier), Star]), [Some(row)];
    assert Denoted(arg.fields) == Column([qualifier], "*");
    assert Binds([rel], [qualifier], 0);
    assert BoundRow([rel], tuple, Denoted(arg.fields)) == Some(row);
    assert [arg][..0] == [] && arg.fields[1] == Star;
    assert ArgValue(ops, [rel], false, tuple, arg) == ops.wholeRow(Some(row));
  }

  lemma {:induction false} StarTable(ops: Ops, rel: Relation, qualifier: string, rows: seq<Row>)
    requires KnownAs(rel, [qualifier])
    ensures ArgTable(ops, [rel], false, Scan(rows), [ColumnRef([Name(qualifier), Star])]) == WholeRows(ops, rows)
  {
    if rows != [] {
      var front, last := rows[..|rows| - 1], rows[|rows| - 1];
      assert Scan(rows)[..|rows| - 1] == Scan(front);
      StarTable(ops, rel, qualifier, front);
      StarArgs(ops, rel, qualifier, last);
    }
  }

  /** Unless the call is a plain count, its values are those of whole rows. */
  lemma StarResult(ops: Ops, db: Database, rel: Relation, f: string, distinct: bool, qualifier: string)
    requires KnownAs(rel, [qualifier]) && rel.columns == [] && (ToLower(f) == "count" ==> distinct)
    ensures SelectResult(ops, db, SelectStar(rel, f, distinct, qualifier))
            == OfWholeRows(ops, f, distinct, RowsOf(db, rel))
  {
    var rows, val := RowsOf(db, rel), StarCall(f, distinct, qualifier);
    var sel, t := SelectStar(rel, f, distinct, qualifier), ResTarget("", false, val);
    assert sel.targets == [t] && t in sel.targets;
    assert !PlainCount(val);
    OverResult(ops, db, rel, val);
    if ToLower(f) in AGGREGATES {
      StarTable(ops, rel, qualifier, rows);
      assert Aggregates(sel);
    } else {
      assert !Aggregates(sel);
      forall i | 0 <= i < |rows|
        ensures ValueOf(ops, [rel], [Scan(rows)[i]], val) == ops.scalar(ToLower(f), WholeRows(ops, rows)[i])
      {
        StarArgs(ops, rel, qualifier, rows[i]);
      }
    }
  }

  lemma NothingListed(vecs: seq<Vector>, tbl: string, rel: Relation)
    requires Renders(vecs, OpSelect, map[tbl := []])
    ensures Readable(FootprintOf(vecs, [rel]), rel) == {}
  {
    var g: Groups := map[tbl := []];
    assert forall v | v in vecs :: v.tbl in g && AllColumns(v) == [];
  }

  lemma StarIsUnder(rel: Relation, f: string, distinct: bool, qualifier: string)
    requires ToLower(f) == "count" ==> distinct
    ensures !StarsOnlyCounted(SelectStar(rel, f, distinct, qualifier))
  {
    var t := ResTarget("", false, StarCall(f, distinct, qualifier));
    assert t in SelectStar(rel, f, distinct, qualifier).targets && !PlainCount(t.val);
    assert [Name(qualifier), Star][1] == Star;
    assert ColumnRef([Name(qualifier), Star]) in t.val.args;
  }

  /** Every allowed call over a star but a plain count, so also `count(DISTINCT q.*)`, has a vector
      that lists no column, and a result that tells any two contents of the table apart which the
      call does. */
  lemma StarArgumentEscapes(ops: Ops, rel: Relation, f: string, distinct: bool, qualifier: string, a: Database,
                            b: Database, vecs: seq<Vector>)
    requires rel.name != "" && rel.columns == [] && KnownAs(rel, [qualifier])
    requires ToLower(f) in ALLOWED_FUNCTIONS && (ToLower(f) == "count" ==> distinct)
    requires Renders(vecs, OpSelect, map[FullName(rel) := []]) && |RowsOf(a, rel)| == |RowsOf(b, rel)|
    ensures SelectGroups(SelectStar(rel, f, distinct, qualifier)) == Ok(map[FullName(rel) := []])
    ensures !StarsOnlyCounted(SelectStar(rel, f, distinct, qualifier))
    ensures Agree([rel], FootprintOf(vecs, [rel]), a, b)
    ensures SelectResult(ops, a, SelectStar(rel, f, distinct, qualifier))
            == SelectResult(ops, b, SelectStar(rel, f, distinct, qualifier))
            <==> OfWholeRows(ops, f, distinct, RowsOf(a, rel)) == OfWholeRows(ops, f, distinct, RowsOf(b, rel))
  {
    StarAccepted(rel, f, distinct, qualifier);
    StarIsUnder(rel, f, distinct, qualifier);
    NothingIsEnough(rel, a, b, vecs);
    StarResult(ops, a, rel, f, distinct, qualifier);
    StarResult(ops, b, rel, f, distinct, qualifier);
  }

  lemma NothingIsEnough(rel: Relation, a: Database, b: Database, vecs: seq<Vector>)
    requires Renders(vecs, OpSelect, map[FullName(rel) := []]) && |RowsOf(a, rel)| == |RowsOf(b, rel)|
    ensures Agree([rel], FootprintOf(vecs, [rel]), a, b)
  {
    NothingListed(vecs, FullName(rel), rel);
  }

  // ---- Row counts ---------------------------------------------------------------------------------

  lemma {:induction false} TakesAny(lines: seq<Line>, n: nat, ties: bool)
    requires n > 0 && lines != []
    ensures Take(lines, n, ties) != []
    decreases |lines| - n
  {
    if n < |lines| && ties && lines[n].keys == lines[n - 1].keys {
      TakesAny(lines, n + 1, ties);
    }
  }

  lemma CountsAreIgnored(sel: SelectStmt)
    ensures SelectGroups(sel) == SelectGroups(sel.(limit := NoCount))
  {
    if |sel.from| == 1 {
      assert StatementColumns(sel) == StatementColumns(sel.(limit := NoCount));
    }
  }

  /** The row count in LIMIT is not inspected: acceptance does not depend on it, and if it is 0
      in one database and not in another, a result that would be the same in both differs,
      unless it is empty anyway. */
  lemma RowCountEscapes(ops: Ops, a: Database, b: Database, sel: SelectStmt, id: nat)
    requires |sel.from| == 1 && sel.limit == OtherCount(id)
    requires SelectResult(ops, a, sel.(limit := NoCount)) == SelectResult(ops, b, sel.(limit := NoCount))
    requires ops.rowCount(a, id) == 0 < ops.rowCount(b, id)
    ensures SelectGroups(sel) == SelectGroups(sel.(limit := NoCount)) && !ConstantCounts(sel)
    ensures SelectResult(ops, a, sel) == SelectResult(ops, b, sel)
            <==> SelectResult(ops, a, sel.(limit := NoCount)) == []
  {
    CountsAreIgnored(sel);
    LimitIsLast(ops, a, sel);
    LimitIsLast(ops, b, sel);
    var whole := Unlimited(ops, b, sel);
    if whole != [] {
      TakesAny(whole, ops.rowCount(b, id), sel.limitOption.LimitWithTies?);
    }
  }

  lemma LimitIsLast(ops: Ops, db: Database, sel: SelectStmt)
    requires |sel.from| == 1
    ensures Unlimited(ops, db, sel) == Unlimited(ops, db, sel.(limit := NoCount))
  {
    PassedIgnoreLimit(ops, sel, Leaves(sel.from[0]), FromTuples(ops, db, sel.from[0]));
  }

  lemma PassedIgnoreLimit(ops: Ops, sel: SelectStmt, scope: seq<Relation>, ts: seq<Tuple>)
    ensures PassedLines(ops, sel, scope, ts) == PassedLines(ops, sel.(limit := NoCount), scope, ts)
  {
    LinesIgnoreLimit(ops, sel, scope, Units(ops, sel, scope, Where(ops, scope, sel.where, ts)));
  }

  lemma {:induction false} LinesIgnoreLimit(ops: Ops, sel: SelectStmt, scope: seq<Relation>, units: seq<seq<Tuple>>)
    ensures Lines(ops, sel, scope, units) == Lines(ops, sel.(limit := NoCount), scope, units)
  {
    if units != [] {
      LinesIgnoreLimit(ops, sel, scope, units[..|units| - 1]);
    }
  }

  // ---- One column of one table --------------------------------------------------------------------

  /** `SELECT c FROM rel`. */
  function OneColumn(rel: Relation, c: string): SelectStmt {
    Over(rel, [ResTarget("", false, ColumnRef([Name(c)]))])
  }

  function OneColumnGroups(rel: Relation, c: string): Groups {
    map[FullName(rel) := [Column([], c)]]
  }

  lemma OneColumnAccepted(rel: Relation, c: string)
    requires rel.name != ""
    ensures SelectGroups(OneColumn(rel, c)) == Ok(OneColumnGroups(rel, c))
  {
    var t, cols := ResTarget("", false, ColumnRef([Name(c)])), [Column([], c)];
    assert [t][..0] == [] && [] + cols == cols;
    assert Denoted([Name(c)]) == cols[0];
    assert TargetColumns(t) == Ok(cols);
    assert Collect([t], TargetColumns) == Ok(cols);
    OverAccepted(rel, [t], cols);
  }

  lemma OneColumnResult(ops: Ops, db: Database, rel: Relation, c: string, row: Row)
    requires ShownRows(ops, rel, RowsOf(db, rel)) == [row]
    ensures SelectResult(ops, db, OneColumn(rel, c)) == [Line([ValueAt(ops, row, c)], [])]
  {
    var val := ColumnRef([Name(c)]);
    OneRowResult(ops, db, rel, row, val);
    assert Denoted(val.fields) == Column([], c);
    assert Binds([rel], [], 0);
    assert Bind([rel], []) == Some(0);
  }

  lemma ValuesDecide(ops: Ops, a: Database, b: Database, rel: Relation, c: string, x: Row, y: Row)
    requires ShownRows(ops, rel, RowsOf(a, rel)) == [x] && ShownRows(ops, rel, RowsOf(b, rel)) == [y]
    ensures SelectResult(ops, a, OneColumn(rel, c)) == SelectResult(ops, b, OneColumn(rel, c))
            <==> ValueAt(ops, x, c) == ValueAt(ops, y, c)
  {
    OneColumnResult(ops, a, rel, c, x);
    OneColumnResult(ops, b, rel, c, y);
    if ValueAt(ops, x, c) != ValueAt(ops, y, c) {
      LinesDiffer(ValueAt(ops, x, c), ValueAt(ops, y, c));
    }
  }

  // ---- Columns that are not there -----------------------------------------------------------------

  /** The configuration that holds a table with one column. */
  function OnlyColumn(rel: Relation, c: string): DbSchema {
    DbSchema(PARSER_SCHEMA, [TargetTable(NameOf(Locate(rel)), [c])])
  }

  /** A configured column that the table does not have: `SELECT c FROM rel` passes, and its result
      is whatever the database makes of the name `c` in whole rows, as with the name of the
      source itself. */
  lemma AbsentColumnEscapes(ops: Ops, rel: Relation, c: string, x: Row, y: Row)
    requires rel.name != "" && rel.columns == [] && Located(PARSER_SCHEMA, rel) && c !in x && c !in y
    ensures SelectGroups(OneColumn(rel, c)) == Ok(OneColumnGroups(rel, c))
    ensures TablesHaveSchemas(OnlyColumn(rel, c)) && GroupsKnown(OnlyColumn(rel, c), OneColumnGroups(rel, c))
    ensures SelectResult(ops, map[Locate(rel) := [x]], OneColumn(rel, c))
            == SelectResult(ops, map[Locate(rel) := [y]], OneColumn(rel, c))
            <==> ops.absent(x, c) == ops.absent(y, c)
  {
    OneColumnAccepted(rel, c);
    NameHasDot(Locate(rel));
    LocatedFindsEntry(OnlyColumn(rel, c), rel);
    ValuesDecide(ops, map[Locate(rel) := [x]], map[Locate(rel) := [y]], rel, c, x, y);
  }

  lemma NameHasDot(id: TableId)
    ensures HasDot(NameOf(id))
  {
    assert NameOf(id)[|NameOf(id)| - |id.name| - 1] == '.';
  }

  // ---- Renamed columns ----------------------------------------------------------------------------

  /** `SELECT c FROM t AS q(...)` is accepted with `c` listed. Where the list of the alias gives the
      name `c` to the column `o`, the result depends only on `c` if and only if `o` is `c`. */
  lemma RenamedExactly(ops: Ops, rel: Relation, c: string, o: string)
    requires rel.name != "" && rel.columns != [] && c in rel.columns + ops.order(Locate(rel))
    requires Origin(ops.order(Locate(rel)), rel.columns, c) == Some(o)
    ensures SelectGroups(OneColumn(rel, c)) == Ok(OneColumnGroups(rel, c))
    ensures (forall a, b | SameRow({c}, a, b) && o in a && o in b ::
               SelectResult(ops, map[Locate(rel) := [a]], OneColumn(rel, c))
                   == SelectResult(ops, map[Locate(rel) := [b]], OneColumn(rel, c)))
            <==> o == c
  {
    OneColumnAccepted(rel, c);
    if o == c {
      forall a, b | SameRow({c}, a, b) && o in a && o in b
        ensures SelectResult(ops, map[Locate(rel) := [a]], OneColumn(rel, c))
                == SelectResult(ops, map[Locate(rel) := [b]], OneColumn(rel, c))
      {
        RenamedValues(ops, rel, c, o, a, b);
      }
    } else {
      var a: Row, b: Row := map[c := Null, o := Bool(true)], map[c := Null, o := Bool(false)];
      RenamedValues(ops, rel, c, o, a, b);
      assert SameRow({c}, a, b) && a[o] != b[o];
    }
  }

  lemma RenamedValues(ops: Ops, rel: Relation, c: string, o: string, a: Row, b: Row)
    requires rel.columns != [] && c in rel.columns + ops.order(Locate(rel)) && o in a && o in b
    requires Origin(ops.order(Locate(rel)), rel.columns, c) == Some(o)
    ensures SelectResult(ops, map[Locate(rel) := [a]], OneColumn(rel, c))
            == SelectResult(ops, map[Locate(rel) := [b]], OneColumn(rel, c))
            <==> a[o] == b[o]
  {
    var order := ops.order(Locate(rel));
    var x, y := Renamed(order, rel.columns, a), Renamed(order, rel.columns, b);
    assert ShownRows(ops, rel, [a]) == [x] && ShownRows(ops, rel, [b]) == [y];
    ValuesDecide(ops, map[Locate(rel) := [a]], map[Locate(rel) := [b]], rel, c, x, y);
  }

  // ---- Sources whose names hide their tables ------------------------------------------------------

  lemma UnconfiguredIsFree(schema: DbSchema, db: Database, id: TableId, rows: seq<Row>)
    requires !Configured(schema, id) && AgreeOnConfigured(schema, db, db)
    ensures AgreeOnConfigured(schema, db, db[id := rows])
  {
  }

  lemma NotConfined(ops: Ops, schema: DbSchema, sel: SelectStmt, a: Database, b: Database)
    requires |sel.from| == 1 && AgreeOnConfigured(schema, a, b)
    requires SelectResult(ops, a, sel) != SelectResult(ops, b, sel)
    ensures !SelectConfined(ops, schema, sel)
  {
  }

  lemma UnconfiguredIsNotConfined(ops: Ops, schema: DbSchema, rel: Relation, c: string)
    requires rel.columns == [] && !Configured(schema, Locate(rel))
    ensures !SelectConfined(ops, schema, OneColumn(rel, c))
  {
    var x: Row, y: Row := map[c := Bool(false)], map[c := Bool(true)];
    var a: Database := map[Locate(rel) := [x]];
    var b := a[Locate(rel) := [y]];
    ValuesDecide(ops, a, b, rel, c, x, y);
    UnconfiguredIsFree(schema, a, Locate(rel), [y]);
    NotConfined(ops, schema, OneColumn(rel, c), a, b);
  }

  /** For every source that is not located there is a valid configuration that lets the source
      pass, while the table it reads is not configured and decides the result. */
  lemma UnlocatedEscapes(ops: Ops, defaultSchema: string, rel: Relation, c: string) returns (schema: DbSchema)
    requires rel.name != "" && rel.columns == [] && !Located(defaultSchema, rel)
    ensures schema.defaultSchema == defaultSchema && TablesHaveSchemas(schema)
    ensures SelectGroups(OneColumn(rel, c)) == Ok(OneColumnGroups(rel, c))
            && GroupsKnown(schema, OneColumnGroups(rel, c))
    ensures !Configured(schema, Locate(rel)) && !SelectConfined(ops, schema, OneColumn(rel, c))
  {
    schema := UnlocatedIsFound(defaultSchema, rel, [c]);
    OneColumnAccepted(rel, c);
    UnconfiguredIsNotConfined(ops, schema, rel, c);
  }

  /** So the schema check confines `SELECT c FROM rel` to configured columns under every valid
      configuration with a given default schema, if and only if the source is located. */
  lemma ConfinedExactlyIfLocated(ops: Ops, defaultSchema: string, rel: Relation, c: string)
    requires rel.name != "" && rel.columns == []
    ensures SelectGroups(OneColumn(rel, c)) == Ok(OneColumnGroups(rel, c))
    ensures (forall schema: DbSchema | schema.defaultSchema == defaultSchema && TablesHaveSchemas(schema)
                                       && GroupsKnown(schema, OneColumnGroups(rel, c)) ::
               SelectConfined(ops, schema, OneColumn(rel, c)))
            <==> Located(defaultSchema, rel)
  {
    OneColumnAccepted(rel, c);
    if Located(defaultSchema, rel) {
      forall schema: DbSchema | schema.defaultSchema == defaultSchema && TablesHaveSchemas(schema)
                                && GroupsKnown(schema, OneColumnGroups(rel, c))
        ensures SelectConfined(ops, schema, OneColumn(rel, c))
      {
        LocatedIsConfined(ops, schema, rel, c);
      }
    } else {
      var schema := UnlocatedEscapes(ops, defaultSchema, rel, c);
    }
  }

  lemma LocatedIsConfined(ops: Ops, schema: DbSchema, rel: Relation, c: string)
    requires rel.name != "" && rel.columns == [] && Located(schema.defaultSchema, rel) && TablesHaveSchemas(schema)
    requires GroupsKnown(schema, OneColumnGroups(rel, c))
    ensures SelectConfined(ops, schema, OneColumn(rel, c))
  {
    OneColumnAccepted(rel, c);
    OneColumnLeadsHome(rel, c);
    KnownSelect(ops, schema, OneColumn(rel, c), OneColumnGroups(rel, c));
  }

  lemma OneColumnLeadsHome(rel: Relation, c: string)
    requires rel.columns == []
    ensures Leaves(OneColumn(rel, c).from[0]) == [rel] && SpellingsStay([rel])
    ensures Tracked(OneColumn(rel, c))
  {
    var sel, val := OneColumn(rel, c), ColumnRef([Name(c)]);
    var t := ResTarget("", false, val);
    SpellingsOfOneTableLeadHome([rel], Locate(rel), [rel], [Column([], c)]);
    assert Denoted(val.fields) == Column([], c);
    assert sel.targets == [t] && [t][..0] == [];
    assert TargetsRefs(sel.targets) == [Column([], c)];
  }

  // ---- Two tables side by side --------------------------------------------------------------------

  function PairFrom(x: Relation, y: Relation): FromItem {
    JoinExpr(InnerJoin, false, false, false, false, RangeVar(x), RangeVar(y), Nil)
  }

  /** `SELECT q.c FROM x CROSS JOIN y`. */
  function PairSelect(x: Relation, y: Relation, q: string, c: string): SelectStmt {
    SelectStmt({}, [ResTarget("", false, ColumnRef([Name(q), Name(c)]))], [PairFrom(x, y)], Nil,
               [], [], NoCount, NoCount, LimitPlain, [])
  }

  lemma PairLeaves(x: Relation, y: Relation)
    ensures Leaves(PairFrom(x, y)) == [x, y]
  {
    assert Leaves(RangeVar(x)) == [x] && Leaves(RangeVar(y)) == [y];
  }

  lemma PairColumns(x: Relation, y: Relation, q: string, c: string)
    ensures StatementColumns(PairSelect(x, y, q, c)) == Ok([Column([q], c)])
  {
    var sel, cols, none: seq<Column> := PairSelect(x, y, q, c), [Column([q], c)], [];
    var target := sel.targets[0];
    assert sel.targets == [target] && [target][..0] == [];
    assert Denoted([Name(q), Name(c)]) == cols[0];
    assert TargetColumns(target) == Ok(cols) && none + cols == cols;
    assert Collect([target], TargetColumns) == Ok(cols);
    assert JoinColumns(RangeVar(x)) == Ok(none) && JoinColumns(RangeVar(y)) == Ok(none);
    assert none + none + none == none;
    assert JoinColumns(PairFrom(x, y)) == Ok(none);
    assert cols + none + none + none + none == cols;
  }

  lemma PairDistributed(x: Relation, y: Relation, q: string, c: string)
    requires x.name != "" && y.name != ""
    ensures Acyclic(NamesIn([x, y]))
    ensures SelectGroups(PairSelect(x, y, q, c))
            == Distribute(Roots(NamesIn([x, y])), [Column([q], c)], NamesIn([x, y]), 2)
  {
    NamesInFacts([x, y]);
    PairLeaves(x, y);
    PairColumns(x, y, q, c);
    assert FromError(PairFrom(x, y)).None?;
  }

  lemma PairGroups(x: Relation, y: Relation, q: string, c: string)
    requires x.name != "" && y.name != "" && q != "" && q in NamesIn([x, y])
    ensures Acyclic(NamesIn([x, y])) && SelectGroups(PairSelect(x, y, q, c)).Ok?
    ensures OnlyUnder(SelectGroups(PairSelect(x, y, q, c)).value, Roots(NamesIn([x, y])), Root(NamesIn([x, y]), q),
                      Column([q], c))
  {
    PairDistributed(x, y, q, c);
    assert TableOf(Column([q], c)) == q;
    OneReference(Roots(NamesIn([x, y])), NamesIn([x, y]), Column([q], c), 2);
  }

  lemma PairPasses(ops: Ops, db: Database, x: Relation, y: Relation, r: Row, s: Row)
    requires x.columns == [] && y.columns == [] && RowsOf(db, x) == [r] && RowsOf(db, y) == [s]
    ensures FromTuples(ops, db, PairFrom(x, y)) == [[Some(r), Some(s)]]
  {
    var l: Tuple, m: Tuple := [Some(r)], [Some(s)];
    var scope := [x] + [y];
    assert FromTuples(ops, db, RangeVar(x)) == [l] && FromTuples(ops, db, RangeVar(y)) == [m];
    assert Leaves(RangeVar(x)) == [x] && Leaves(RangeVar(y)) == [y];
    assert [l][..0] == [] && [m][..0] == [];
    assert MatchesOf(ops, scope, Nil, l, [m]) == [l + m];
    assert LeftPart(ops, scope, Nil, false, 1, [l], [m]) == [l + m];
    assert [l + m] + [] == [l + m] && l + m == [Some(r), Some(s)];
    assert JoinTuples(ops, InnerJoin, [x], [y], Nil, [l], [m]) == [l + m];
  }

  lemma BoundIsRead(ops: Ops, x: Relation, y: Relation, q: string, c: string, i: nat, r: Row, s: Row)
    requires Binds([x, y], [q], i)
    ensures Eval(ops, [x, y], [Some(r), Some(s)], ColumnRef([Name(q), Name(c)]))
            == ValueAt(ops, if i == 0 then r else s, c)
  {
    assert Denoted([Name(q), Name(c)]) == Column([q], c);
    assert Bind([x, y], [q]) == Some(i);
  }

  lemma PairUnits(ops: Ops, db: Database, x: Relation, y: Relation, q: string, c: string, r: Row, s: Row)
    requires x.columns == [] && y.columns == [] && RowsOf(db, x) == [r] && RowsOf(db, y) == [s]
    ensures Units(ops, PairSelect(x, y, q, c), [x, y], Where(ops, [x, y], Nil, FromTuples(ops, db, PairFrom(x, y))))
         == [[[Some(r), Some(s)]]]
  {
    var tuple: Tuple := [Some(r), Some(s)];
    PairPasses(ops, db, x, y, r, s);
    AllPass(ops, [x, y], [tuple]);
    assert !Aggregates(PairSelect(x, y, q, c));
    assert Units(ops, PairSelect(x, y, q, c), [x, y], [tuple]) == [[tuple]];
  }

  lemma PairResult(ops: Ops, db: Database, x: Relation, y: Relation, q: string, c: string, i: nat, r: Row, s: Row)
    requires x.columns == [] && y.columns == [] && RowsOf(db, x) == [r] && RowsOf(db, y) == [s] && Binds([x, y], [q], i)
    ensures SelectResult(ops, db, PairSelect(x, y, q, c)) == [Line([ValueAt(ops, if i == 0 then r else s, c)], [])]
  {
    var sel, tuple: Tuple := PairSelect(x, y, q, c), [Some(r), Some(s)];
    PairLeaves(x, y);
    PairUnits(ops, db, x, y, q, c, r, s);
    LinesAt(ops, sel, [x, y], [[tuple]]);
    OneLine(ops, sel, [x, y], [tuple], sel.targets[0]);
    BoundIsRead(ops, x, y, q, c, i, r, s);
  }

  /** One row of a table alone in its database but for another. */
  function TwoTables(x: TableId, r: Row, y: TableId, s: Row): Database {
    map[x := [r], y := [s]]
  }

  /** A statement is not confined if the column it reads of a table is not configured there. */
  lemma PairNotConfined(ops: Ops, schema: DbSchema, x: Relation, y: Relation, q: string, c: string, i: nat)
    requires x.columns == [] && y.columns == [] && Locate(x) != Locate(y) && Binds([x, y], [q], i)
    requires ConfiguredColumns(schema, Locate(if i == 0 then x else y)) == {}
    requires ConfiguredColumns(schema, Locate(if i == 0 then y else x)) <= {c}
    ensures !SelectConfined(ops, schema, PairSelect(x, y, q, c))
  {
    var no: Row, yes: Row := map[c := Bool(false)], map[c := Bool(true)];
    var a := TwoTables(Locate(x), no, Locate(y), no);
    var b := if i == 0 then TwoTables(Locate(x), yes, Locate(y), no) else TwoTables(Locate(x), no, Locate(y), yes);
    PairResult(ops, a, x, y, q, c, i, no, no);
    PairResult(ops, b, x, y, q, c, i, if i == 0 then yes else no, if i == 0 then no else yes);
    LinesDiffer(Bool(false), Bool(true));
    NearlyAgree(schema, a, b, Locate(x), Locate(y), c, i);
    NotConfined(ops, schema, PairSelect(x, y, q, c), a, b);
  }

  lemma NearlyAgree(schema: DbSchema, a: Database, b: Database, x: TableId, y: TableId, c: string, i: nat)
    requires x != y && i < 2 && ConfiguredColumns(schema, if i == 0 then x else y) == {}
    requires ConfiguredColumns(schema, if i == 0 then y else x) <= {c}
    requires var no: Row, yes: Row := map[c := Bool(false)], map[c := Bool(true)];
             a == TwoTables(x, no, y, no) && b == if i == 0 then TwoTables(x, yes, y, no) else TwoTables(x, no, y, yes)
    ensures AgreeOnConfigured(schema, a, b)
  {
    forall id | Configured(schema, id)
      ensures SameRows(ConfiguredColumns(schema, id), TableRows(a, id), TableRows(b, id))
    {
      if id == x {
        assert TableRows(a, id) == [map[c := Bool(false)]];
      } else if id == y {
        assert TableRows(a, id) == [map[c := Bool(false)]];
      }
    }
  }

  // ---- Tables that are taken over -----------------------------------------------------------------

  function Lost(t: string, x: string): Relation {
    Relation("", "", t, x, [])
  }

  function Taker(t: string, u: string): Relation {
    Relation("", "", u, t, [])
  }

  predicate TakeoverNames(t: string, u: string, x: string) {
    t != "" && u != "" && x != "" && t != u && x !in {t, u, InSchema(PARSER_SCHEMA, u)}
  }

  /** `SELECT x.c FROM t AS x CROSS JOIN u AS t`. */
  function TakeoverSelect(t: string, u: string, x: string, c: string): SelectStmt {
    PairSelect(Lost(t, x), Taker(t, u), x, c)
  }

  lemma TakeoverAccepted(t: string, u: string, x: string, c: string)
    requires TakeoverNames(t, u, x)
    ensures SelectGroups(TakeoverSelect(t, u, x, c)) == Ok(map[u := [Column([x], c)]])
  {
    TakeoverLosesSource(t, u, x);
    PairGroups(Lost(t, x), Taker(t, u), x, c);
    OnlyUnderOne(SelectGroups(TakeoverSelect(t, u, x, c)).value, u, Column([x], c));
  }

  lemma OnlyUnderOne(g: Groups, t: string, c: Column)
    requires OnlyUnder(g, {t}, t, c)
    ensures g == map[t := [c]]
  {
  }

  /** The configuration that holds only the other table. */
  function OnlyTaker(u: string, c: string): DbSchema {
    DbSchema(PARSER_SCHEMA, [TargetTable(InSchema(PARSER_SCHEMA, u), [c])])
  }

  lemma PlainNameIsLocated(schema: DbSchema, rel: Relation)
    requires schema.defaultSchema == PARSER_SCHEMA && rel.catalog == "" && rel.schema == "" && !HasDot(rel.name)
    ensures Located(schema.defaultSchema, rel) && FullName(rel) == rel.name
    ensures NameOf(Locate(rel)) == InSchema(PARSER_SCHEMA, rel.name)
  {
    NamesOfSource(rel);
  }

  lemma OnlyTakerFound(t: string, u: string, c: string)
    requires t != u && !HasDot(u)
    ensures TablesHaveSchemas(OnlyTaker(u, c)) && FindTable(OnlyTaker(u, c), u) == Some(OnlyTaker(u, c).tables[0])
    ensures forall entry | entry in OnlyTaker(u, c).tables :: entry.table != InSchema(PARSER_SCHEMA, t)
  {
    QualifiedHasDot(PARSER_SCHEMA, u);
    assert InSchema(PARSER_SCHEMA, u)[|PARSER_SCHEMA| + 1..] == u
        && InSchema(PARSER_SCHEMA, t)[|PARSER_SCHEMA| + 1..] == t;
  }

  lemma OnlyTakerIsConfigured(t: string, u: string, x: string, c: string)
    requires TakeoverNames(t, u, x) && !HasDot(t) && !HasDot(u)
    ensures AllLocated(OnlyTaker(u, c), [Lost(t, x), Taker(t, u)])
    ensures GroupsKnown(OnlyTaker(u, c), map[u := [Column([x], c)]])
    ensures !Configured(OnlyTaker(u, c), Locate(Lost(t, x)))
  {
    PlainNameIsLocated(OnlyTaker(u, c), Lost(t, x));
    PlainNameIsLocated(OnlyTaker(u, c), Taker(t, u));
    OnlyTakerFound(t, u, c);
  }

  /** A table that is taken over is read without being configured, asked about or listed: the
      statement passes a configuration that has only the other table, and its result depends on
      the lost one. */
  lemma TakeoverEscapes(ops: Ops, t: string, u: string, x: string, c: string, vecs: seq<Vector>)
    requires TakeoverNames(t, u, x) && !HasDot(t) && !HasDot(u)
    requires Renders(vecs, OpSelect, map[u := [Column([x], c)]])
    ensures SelectGroups(TakeoverSelect(t, u, x, c)) == Ok(map[u := [Column([x], c)]])
    ensures forall v | v in vecs :: v.tbl == u
    ensures GroupsKnown(OnlyTaker(u, c), map[u := [Column([x], c)]])
    ensures AllLocated(OnlyTaker(u, c), Leaves(TakeoverSelect(t, u, x, c).from[0]))
    ensures !Configured(OnlyTaker(u, c), Locate(Lost(t, x)))
    ensures !SelectConfined(ops, OnlyTaker(u, c), TakeoverSelect(t, u, x, c))
  {
    var lost, taker := Lost(t, x), Taker(t, u);
    TakeoverAccepted(t, u, x, c);
    OnlyTakerIsConfigured(t, u, x, c);
    PairLeaves(lost, taker);
    assert KnownAs(lost, [x]) && !KnownAs(taker, [x]);
    OnlyOneColumn(u, c, Locate(taker));
    PairNotConfined(ops, OnlyTaker(u, c), lost, taker, x, c, 0);
  }

  lemma OnlyOneColumn(u: string, c: string, id: TableId)
    ensures ConfiguredColumns(OnlyTaker(u, c), id) <= {c}
  {
  }

  // ---- References that lead elsewhere -------------------------------------------------------------

  lemma QualifierIsKey(x: Relation, y: Relation, q: string, i: nat)
    requires x.name != "" && y.name != "" && Binds([x, y], [q], i)
    ensures q != "" && q in NamesIn([x, y])
  {
    NamesInFacts([x, y]);
    NameIsKey(SourcesOf([x, y], PARSER_SCHEMA), i, q);
  }

  /** The configuration in which one table has a column and another has none. */
  function ColumnElsewhere(defaultSchema: string, bound: Relation, other: Relation, c: string): DbSchema {
    DbSchema(defaultSchema, [TargetTable(NameOf(Locate(bound)), []), TargetTable(NameOf(Locate(other)), [c])])
  }

  lemma ElsewhereFinds(defaultSchema: string, bound: Relation, other: Relation, c: string)
    requires Located(defaultSchema, bound) && Located(defaultSchema, other) && Locate(bound) != Locate(other)
    ensures var schema := ColumnElsewhere(defaultSchema, bound, other, c);
            && TablesHaveSchemas(schema)
            && FindTable(schema, FullName(bound)) == Some(schema.tables[0]) == EntryOf(schema, Locate(bound))
            && FindTable(schema, FullName(other)) == Some(schema.tables[1]) == EntryOf(schema, Locate(other))
  {
    var schema := ColumnElsewhere(defaultSchema, bound, other, c);
    NameHasDot(Locate(bound));
    NameHasDot(Locate(other));
    LocatedFindsEntry(schema, bound);
    LocatedFindsEntry(schema, other);
    if NameOf(Locate(bound)) == NameOf(Locate(other)) {
      DenotesOneTable(NameOf(Locate(bound)), Locate(bound), Locate(other));
    }
  }

  predicate SideBySide(defaultSchema: string, x: Relation, y: Relation, q: string, i: nat) {
    && x.name != "" && y.name != "" && x.columns == [] && y.columns == []
    && Located(defaultSchema, x) && Located(defaultSchema, y) && Locate(x) != Locate(y)
    && TablesStay([x, y]) && Binds([x, y], [q], i)
  }

  /** The groups of a pair: a list for each table, the reference under the one it leads to. */
  lemma PairPlaced(x: Relation, y: Relation, q: string, c: string, i: nat)
    requires x.name != "" && y.name != "" && TablesStay([x, y]) && Binds([x, y], [q], i)
    ensures SelectGroups(PairSelect(x, y, q, c)).Ok? && Acyclic(NamesIn([x, y])) && q in NamesIn([x, y])
    ensures Root(NamesIn([x, y]), q) in {FullName(x), FullName(y)}
    ensures OnlyUnder(SelectGroups(PairSelect(x, y, q, c)).value, {FullName(x), FullName(y)}, Root(NamesIn([x, y]), q),
                      Column([q], c))
  {
    QualifierIsKey(x, y, q, i);
    PairTables(x, y);
    PairGroups(x, y, q, c);
  }

  lemma PairTables(x: Relation, y: Relation)
    requires x.name != "" && y.name != "" && TablesStay([x, y])
    ensures Acyclic(NamesIn([x, y])) && Roots(NamesIn([x, y])) == {FullName(x), FullName(y)}
  {
    TablesKept([x, y]);
    assert x in [x, y] && y in [x, y];
    assert TablesOf([x, y]) == {FullName(x), FullName(y)};
  }

  lemma PairSpellings(x: Relation, y: Relation, i: nat)
    requires i < 2 && Locate(x) != Locate(y)
    ensures Spellings([x, y], Locate([x, y][i])) == {FullName([x, y][i])}
  {
    assert x in [x, y] && y in [x, y];
  }

  lemma PairLeadsHomeExactly(x: Relation, y: Relation, q: string, c: string, i: nat)
    requires x.name != "" && y.name != "" && Locate(x) != Locate(y) && TablesStay([x, y]) && Binds([x, y], [q], i)
    ensures Acyclic(NamesIn([x, y])) && q in NamesIn([x, y])
    ensures Root(NamesIn([x, y]), q) == FullName([x, y][i]) <==> KeptBy([x, y], Column([q], c), [x, y][i])
  {
    QualifierIsKey(x, y, q, i);
    StayingTables([x, y]);
    PairSpellings(x, y, i);
    NameLeadsHomeExactly([x, y], q, {FullName([x, y][i])});
    assert TableOf(Column([q], c)) == q;
  }

  lemma ElsewhereHas(defaultSchema: string, bound: Relation, other: Relation, c: string)
    requires Located(defaultSchema, bound) && Located(defaultSchema, other) && Locate(bound) != Locate(other)
    ensures FullName(bound) != FullName(other) && TablesHaveSchemas(ColumnElsewhere(defaultSchema, bound, other, c))
    ensures ConfiguredColumns(ColumnElsewhere(defaultSchema, bound, other, c), Locate(bound)) == {}
    ensures ConfiguredColumns(ColumnElsewhere(defaultSchema, bound, other, c), Locate(other)) == {c}
  {
    ElsewhereFinds(defaultSchema, bound, other, c);
    LocatedNamesTellTables(defaultSchema, [bound, other]);
    assert bound in [bound, other] && other in [bound, other];
  }

  lemma ElsewherePasses(defaultSchema: string, bound: Relation, other: Relation, c: string, g: Groups, col: Column)
    requires Located(defaultSchema, bound) && Located(defaultSchema, other) && Locate(bound) != Locate(other)
    requires OnlyUnder(g, {FullName(bound), FullName(other)}, FullName(other), col) && col.column == c
    requires FullName(bound) != FullName(other)
    ensures GroupsKnown(ColumnElsewhere(defaultSchema, bound, other, c), g)
  {
    var schema := ColumnElsewhere(defaultSchema, bound, other, c);
    ElsewhereFinds(defaultSchema, bound, other, c);
    assert TableKnown(schema, FullName(bound), []) && TableKnown(schema, FullName(other), [col]);
  }

  /** A reference that leads to the wrong table is checked there: the statement passes a
      configuration in which the other table has the column and its own has none. */
  lemma MisplacedEscapes(ops: Ops, defaultSchema: string, x: Relation, y: Relation, q: string, c: string, i: nat)
    returns (schema: DbSchema, g: Groups)
    requires SideBySide(defaultSchema, x, y, q, i) && !KeptBy([x, y], Column([q], c), [x, y][i])
    ensures SelectGroups(PairSelect(x, y, q, c)) == Ok(g) && GroupsKnown(schema, g)
    ensures schema == ColumnElsewhere(defaultSchema, [x, y][i], [x, y][1 - i], c) && TablesHaveSchemas(schema)
    ensures !SelectConfined(ops, schema, PairSelect(x, y, q, c))
  {
    var bound, other := [x, y][i], [x, y][1 - i];
    schema := ColumnElsewhere(defaultSchema, bound, other, c);
    g := PlacedElsewhere(x, y, q, c, i);
    ElsewhereHas(defaultSchema, bound, other, c);
    ElsewherePasses(defaultSchema, bound, other, c, g, Column([q], c));
    PairNotConfined(ops, schema, x, y, q, c, i);
  }

  /** A qualifier that its own table does not keep leads to the other one. */
  lemma PlacedElsewhere(x: Relation, y: Relation, q: string, c: string, i: nat) returns (g: Groups)
    requires x.name != "" && y.name != "" && Locate(x) != Locate(y) && TablesStay([x, y])
    requires Binds([x, y], [q], i) && !KeptBy([x, y], Column([q], c), [x, y][i])
    ensures SelectGroups(PairSelect(x, y, q, c)) == Ok(g)
    ensures OnlyUnder(g, {FullName([x, y][i]), FullName([x, y][1 - i])}, FullName([x, y][1 - i]), Column([q], c))
  {
    PairPlaced(x, y, q, c, i);
    g := SelectGroups(PairSelect(x, y, q, c)).value;
    PairLeadsHomeExactly(x, y, q, c, i);
    assert {FullName([x, y][i]), FullName([x, y][1 - i])} == {FullName(x), FullName(y)};
  }

  lemma PairTracked(x: Relation, y: Relation, q: string, c: string, i: nat)
    requires x.columns == [] && y.columns == [] && Binds([x, y], [q], i) && KeptBy([x, y], Column([q], c), [x, y][i])
    ensures Leaves(PairSelect(x, y, q, c).from[0]) == [x, y] && Tracked(PairSelect(x, y, q, c))
  {
    var sel := PairSelect(x, y, q, c);
    PairLeaves(x, y);
    PairRefs(x, y, q, c);
    OnlyBinding(x, y, q, i);
    assert LeadHome([x, y], [x, y], [Column([q], c)]);
    assert JoinsLeadHome([x, y], RangeVar(x)) && JoinsLeadHome([x, y], RangeVar(y));
    assert JoinsLeadHome([x, y], PairFrom(x, y));
  }

  lemma PairRefs(x: Relation, y: Relation, q: string, c: string)
    ensures var sel := PairSelect(x, y, q, c);
            TargetsRefs(sel.targets) + Refs(sel.where) + SortRefs(sel.sort) + RefsOfAll(sel.group) == [Column([q], c)]
  {
    var t := PairSelect(x, y, q, c).targets[0];
    assert PairSelect(x, y, q, c).targets == [t] && [t][..0] == [];
    assert Denoted([Name(q), Name(c)]) == Column([q], c);
    assert TargetRefs(t) == [Column([q], c)];
  }

  lemma OnlyBinding(x: Relation, y: Relation, q: string, i: nat)
    requires Binds([x, y], [q], i)
    ensures forall j: nat | Binds([x, y], [q], j) :: j == i
  {
  }

  lemma KeptIsConfined(ops: Ops, schema: DbSchema, x: Relation, y: Relation, q: string, c: string, i: nat, g: Groups)
    requires SideBySide(schema.defaultSchema, x, y, q, i) && KeptBy([x, y], Column([q], c), [x, y][i])
    requires TablesHaveSchemas(schema) && SelectGroups(PairSelect(x, y, q, c)) == Ok(g) && GroupsKnown(schema, g)
    ensures SelectConfined(ops, schema, PairSelect(x, y, q, c))
  {
    PairTracked(x, y, q, c, i);
    StayingTables([x, y]);
    KnownSelect(ops, schema, PairSelect(x, y, q, c), g);
  }

  /** Over two tables side by side, none of which is lost, `SELECT q.c` is confined by every valid
      configuration that lets it pass, if and only if the table that `q` means keeps that name. */
  lemma ConfinedExactlyIfKept(ops: Ops, defaultSchema: string, x: Relation, y: Relation, q: string, c: string, i: nat,
                              g: Groups)
    requires SideBySide(defaultSchema, x, y, q, i) && SelectGroups(PairSelect(x, y, q, c)) == Ok(g)
    ensures (forall schema: DbSchema | schema.defaultSchema == defaultSchema && TablesHaveSchemas(schema)
             && GroupsKnown(schema, g) ::
               SelectConfined(ops, schema, PairSelect(x, y, q, c)))
            <==> KeptBy([x, y], Column([q], c), [x, y][i])
  {
    if KeptBy([x, y], Column([q], c), [x, y][i]) {
      forall schema: DbSchema | schema.defaultSchema == defaultSchema && TablesHaveSchemas(schema)
          && GroupsKnown(schema, g)
        ensures SelectConfined(ops, schema, PairSelect(x, y, q, c))
      {
        KeptIsConfined(ops, schema, x, y, q, c, i, g);
      }
    } else {
      var schema, _ := MisplacedEscapes(ops, defaultSchema, x, y, q, c, i);
    }
  }

  /** Such references exist: in `SELECT t.c FROM u AS t CROSS JOIN t AS a` no table is lost, and
      `t.c` is listed under `t` while the database reads `u.c`. */
  lemma AliasOfAnother(t: string, u: string, a: string, c: string)
    requires t != "" && u != "" && a != "" && t != u && !HasDot(t) && !HasDot(u)
    requires a !in {t, u}
    ensures var x, y := Relation("", "", u, t, []), Relation("", "", t, a, []);
            SideBySide(PARSER_SCHEMA, x, y, t, 0) && !KeptBy([x, y], Column([t], c), x)
  {
    var x, y := Relation("", "", u, t, []), Relation("", "", t, a, []);
    NamesOfSource(x);
    NamesOfSource(y);
    AliasIsTaken(t, u, a);
    assert TableOf(Column([t], c)) == t;
    PairSpellings(x, y, 0);
  }

  lemma AliasIsTaken(t: string, u: string, a: string)
    requires t != "" && u != "" && a != "" && t != u && a != u && !HasDot(u)
    ensures var rels := [Relation("", "", u, t, []), Relation("", "", t, a, [])];
            TablesStay(rels) && !KeepsName(rels, t, {u})
  {
    var x, y := Relation("", "", u, t, []), Relation("", "", t, a, []);
    var sources := SourcesOf([x, y], PARSER_SCHEMA);
    assert sources == [SourceOf(x, PARSER_SCHEMA), SourceOf(y, PARSER_SCHEMA)];
    assert sources[0].full == u && sources[1].full == t;
    QualifiedHasDot(PARSER_SCHEMA, t);
    assert u !in sources[1].names;
    assert t in sources[1].names && t !in {u};
  }
}
