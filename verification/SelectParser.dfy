/** `handleSelect`: from a SELECT statement to its access vectors. */
module SelectParser {
  import opened Common
  import opened Ast
  import opened NameGraph
  import opened TableNames
  import opened Columns
  import opened Predicates
  import opened Vectors

  const ALLOWED_FUNCTIONS := {"count", "lower", "upper", "sum", "min", "max"}

  function ToLower(s: string): string {
    seq(|s|, i requires 0 <= i < |s| => if 'A' <= s[i] <= 'Z' then s[i] + 32 as char else s[i])
  }

  // ---- The FROM tree ----------------------------------------------------------------------

  /** The source tables of a FROM tree, left to right. */
  function Leaves(from: FromItem): seq<Relation> {
    match from
    case RangeVar(rel) => [rel]
    case JoinExpr(_, _, _, _, _, l, r, _) => Leaves(l) + Leaves(r)
    case OtherFrom => []
  }

  /** What keeps the sources of a FROM tree from being collected, if anything does. */
  function FromError(from: FromItem): Option<Failure> {
    match from
    case OtherFrom => Some(NotImplemented)
    case RangeVar(rel) => if rel.name == "" then Some(Invalid) else None
    case JoinExpr(_, natural, using, usingAlias, aliased, l, r, _) =>
      if natural || using || usingAlias || aliased then Some(NotImplemented)
      else if FromError(l).Some? then FromError(l)
      else FromError(r)
  }

  /** The columns of every ON clause of a FROM tree. */
  function JoinColumns(from: FromItem): Result<seq<Column>> {
    match from
    case OtherFrom => Err(NotImplemented)
    case RangeVar(_) => Ok([])
    case JoinExpr(_, _, _, _, _, l, r, quals) =>
      var left :- JoinColumns(l);
      var right :- JoinColumns(r);
      var on :- ConditionColumns(quals);
      Ok(left + right + on)
  }

  /** Every reference in an ON clause of the tree. */
  function JoinRefs(from: FromItem): seq<Column> {
    match from
    case JoinExpr(_, _, _, _, _, l, r, quals) => JoinRefs(l) + JoinRefs(r) + Refs(quals)
    case _ => []
  }

  predicate JoinConditionsOk(from: FromItem) {
    match from
    case JoinExpr(_, _, _, _, _, l, r, quals) => JoinConditionsOk(l) && JoinConditionsOk(r) && IsCondition(quals)
    case _ => true
  }

  method CollectSelectFromTables(tables: Tables, from: FromItem, ghost before: seq<Source>) returns (r: Result<()>)
    requires tables.Valid() && tables.m == Graph(before)
    modifies tables
    ensures tables.Valid()
    ensures r == match FromError(from) case Some(e) => Err(e) case None => Ok(())
    ensures r.Ok? ==>
      && tables.sources == old(tables.sources) + |Leaves(from)|
      && tables.m == Graph(before + SourcesOf(Leaves(from), tables.defaultSchema))
    decreases from
  {
    match from
    case OtherFrom => return Err(NotImplemented);
    case RangeVar(rel) =>
      var put := tables.Put(rel);
      if put.Err? {
        return Err(put.error);
      }
      GraphOneMore(before, rel, tables.defaultSchema);
      return Ok(());
    case JoinExpr(_, natural, using, usingAlias, aliased, larg, rarg, _) =>
      if natural || using || usingAlias || aliased {
        return Err(NotImplemented);
      }
      var left := CollectSelectFromTables(tables, larg, before);
      if left.Err? {
        return left;
      }
      var right := CollectSelectFromTables(tables, rarg, before + SourcesOf(Leaves(larg), tables.defaultSchema));
      if right.Err? {
        return right;
      }
      SourcesConcat(before, Leaves(larg), Leaves(rarg), tables.defaultSchema);
      return Ok(());
  }

  lemma GraphOneMore(before: seq<Source>, rel: Relation, defaultSchema: string)
    ensures Graph(before + SourcesOf([rel], defaultSchema)) == PutEdges(Graph(before), SourceOf(rel, defaultSchema))
  {
    var after := before + SourcesOf([rel], defaultSchema);
    assert after[..|after| - 1] == before;
  }

  lemma SourcesConcat(before: seq<Source>, left: seq<Relation>, right: seq<Relation>, defaultSchema: string)
    ensures before + SourcesOf(left, defaultSchema) + SourcesOf(right, defaultSchema)
         == before + SourcesOf(left + right, defaultSchema)
  {
    assert SourcesOf(left + right, defaultSchema) == SourcesOf(left, defaultSchema) + SourcesOf(right, defaultSchema);
  }

  method ParseSelectJoinColumns(from: FromItem) returns (r: Result<seq<Column>>)
    ensures r == JoinColumns(from)
    decreases from
  {
    match from
    case OtherFrom => return Err(NotImplemented);
    case RangeVar(_) => return Ok([]);
    case JoinExpr(_, _, _, _, _, larg, rarg, quals) =>
      var left := ParseSelectJoinColumns(larg);
      if left.Err? {
        return left;
      }
      var right := ParseSelectJoinColumns(rarg);
      if right.Err? {
        return right;
      }
      var on := ParseWhereClause(quals);
      if on.Err? {
        return on;
      }
      return Ok(left.value + right.value + on.value);
  }

  /** The two passes over a FROM tree agree: once the sources have been collected, the second
      pass fails only inside an ON clause, and it misses no reference of one. */
  lemma {:induction false} JoinPassesAgree(from: FromItem)
    requires FromError(from).None?
    ensures |Leaves(from)| >= 1 && Puttable(Leaves(from))
    ensures JoinColumns(from).Ok? <==> JoinConditionsOk(from)
    ensures JoinColumns(from).Ok? ==> JoinColumns(from).value == JoinRefs(from)
  {
    if from.JoinExpr? {
      JoinPassesAgree(from.larg);
      JoinPassesAgree(from.rarg);
      ConditionWhitelist(from.quals);
    }
  }

  // ---- Targets, ordering and grouping -----------------------------------------------------

  function ArgColumns(arg: Node): Result<seq<Column>> {
    match arg
    case ColumnRef(fields) =>
      if IsFunctionStarArg(fields) then Ok([])
      else var c :- RefColumn(fields); Ok([c])
    case _ => Err(Invalid)
  }

  function FunctionNameError(names: seq<NameNode>): Option<Failure> {
    if |names| == 1 && names[0].NameString? && ToLower(names[0].s) in ALLOWED_FUNCTIONS then None
    else Some(NotImplemented)
  }

  function ValueColumns(val: Node): Result<seq<Column>> {
    match val
    case ColumnRef(fields) => var c :- RefColumn(fields); Ok([c])
    case FuncCall(names, args, _, over, filtered, ordered) =>
      if over || filtered || ordered then Err(NotImplemented)
      else if FunctionNameError(names).Some? then Err(NotImplemented)
      else Collect(args, ArgColumns)
    case _ => Err(NotImplemented)
  }

  function TargetColumns(t: TargetNode): Result<seq<Column>> {
    if t.ResTarget? && !t.indirection then ValueColumns(t.val) else Err(NotImplemented)
  }

  function SortColumns(s: SortNode): Result<seq<Column>> {
    if s.SortBy? && !s.useOp && s.node.ColumnRef? then var c :- RefColumn(s.node.fields); Ok([c])
    else Err(NotImplemented)
  }

  function GroupColumns(n: Node): Result<seq<Column>> {
    if n.ColumnRef? then var c :- RefColumn(n.fields); Ok([c]) else Err(NotImplemented)
  }

  /** Every reference of an accepted statement, in the order the walker meets them. */
  function StatementColumns(sel: SelectStmt): Result<seq<Column>>
    requires |sel.from| == 1
  {
    var targets :- Collect(sel.targets, TargetColumns);
    var where :- ConditionColumns(sel.where);
    var joins :- JoinColumns(sel.from[0]);
    var sort :- Collect(sel.sort, SortColumns);
    var group :- Collect(sel.group, GroupColumns);
    Ok(targets + where + joins + sort + group)
  }

  /** What `handleSelect` computes, up to the order of the vectors. */
  function SelectGroups(sel: SelectStmt): Result<Groups> {
    if sel.clauses != {} || sel.values != [] then Err(NotImplemented)
    else if |sel.from| != 1 then Err(Invalid)
    else
      var from := sel.from[0];
      match FromError(from)
      case Some(e) => Err(e)
      case None =>
        var cols :- StatementColumns(sel);
        FromSourcesAreNamed(from);
        Distribute(FullNamesOf(from), cols, NamesIn(Leaves(from)), |Leaves(from)|)
  }

  /** The tables a FROM tree leads to. */
  function FullNamesOf(from: FromItem): set<string> {
    Roots(NamesIn(Leaves(from)))
  }

  lemma FromSourcesAreNamed(from: FromItem)
    requires FromError(from).None?
    ensures Puttable(Leaves(from)) && Acyclic(NamesIn(Leaves(from)))
  {
    JoinPassesAgree(from);
    NamesInFacts(Leaves(from));
  }

  method TargetWalk(t: TargetNode) returns (r: Result<seq<Column>>)
    ensures r == TargetColumns(t)
  {
    match t {
      case ResTarget(_, indirection, val) =>
        if indirection {
          return Err(NotImplemented);
        }
        match val {
          case ColumnRef(fields) =>
            var column := PNodeColumnRef(fields);
            if column.Err? {
              return Err(column.error);
            }
            return Ok([column.value]);
          case FuncCall(names, args, _, over, filtered, ordered) =>
            if over || filtered || ordered {
              return Err(NotImplemented);
            }
            if |names| != 1 {
              return Err(NotImplemented);
            }
            if !names[0].NameString? || ToLower(names[0].s) !in ALLOWED_FUNCTIONS {
              return Err(NotImplemented);
            }
            r := ArgsWalk(args);
          case _ => return Err(NotImplemented);
        }
      case _ => return Err(NotImplemented);
    }
  }

  method ArgsWalk(args: seq<Node>) returns (r: Result<seq<Column>>)
    ensures r == Collect(args, ArgColumns)
  {
    var columns: seq<Column> := [];
    for i := 0 to |args|
      invariant Collect(args[..i], ArgColumns) == Ok(columns)
    {
      CollectStep(args, ArgColumns, i);
      match args[i] {
        case ColumnRef(fields) =>
          if IsFunctionStarArg(fields) {
            assert columns + [] == columns;
            continue;
          }
          var column := PNodeColumnRef(fields);
          if column.Err? {
            return Err(column.error);
          }
          columns := columns + [column.value];
        case _ => return Err(Invalid);
      }
    }
    assert args[..|args|] == args;
    return Ok(columns);
  }

  method HandleSelect(sel: SelectStmt) returns (r: Result<seq<Vector>>)
    ensures r.Ok? <==> SelectGroups(sel).Ok?
    ensures r.Err? ==> SelectGroups(sel) == Err(r.error)
    ensures r.Ok? ==> Renders(r.value, OpSelect, SelectGroups(sel).value)
  {
    if sel.clauses != {} || sel.values != [] {
      return Err(NotImplemented);
    }
    if |sel.from| != 1 {
      return Err(Invalid);
    }
    var tables := new Tables(PARSER_SCHEMA);
    var collected := CollectSources(tables, sel.from[0]);
    if collected.Err? {
      return Err(collected.error);
    }
    var columns := StatementWalk(sel);
    if columns.Err? {
      return Err(columns.error);
    }
    r := GroupByTable(tables, columns.value);
  }

  lemma GraphFromEmpty(sources: seq<Source>)
    ensures Graph([] + sources) == Graph(sources)
  {
    assert [] + sources == sources;
  }

  /** Collects the sources of the only FROM item and finishes the name graph. */
  method CollectSources(tables: Tables, from: FromItem) returns (r: Result<()>)
    requires tables.Valid() && tables.m == Graph([]) && tables.sources == 0 && tables.defaultSchema == PARSER_SCHEMA
    modifies tables
    ensures tables.Valid()
    ensures r == match FromError(from) case Some(e) => Err(e) case None => Ok(())
    ensures r.Ok? ==> tables.m == NamesIn(Leaves(from)) && tables.sources == |Leaves(from)|
  {
    r := CollectSelectFromTables(tables, from, []);
    if r.Err? {
      return;
    }
    JoinPassesAgree(from);
    GraphFromEmpty(SourcesOf(Leaves(from), PARSER_SCHEMA));
    EmptyIsNoKey(Leaves(from));
    var finalized := tables.Finalize();
    if finalized.Err? {
      return Err(Invalid);
    }
  }

  /** The loops over targets, ORDER BY and GROUP BY, around WHERE and the ON clauses. */
  method StatementWalk(sel: SelectStmt) returns (r: Result<seq<Column>>)
    requires |sel.from| == 1
    ensures r == StatementColumns(sel)
  {
    var targets: seq<Column> := [];
    for i := 0 to |sel.targets|
      invariant Collect(sel.targets[..i], TargetColumns) == Ok(targets)
    {
      CollectStep(sel.targets, TargetColumns, i);
      var cols := TargetWalk(sel.targets[i]);
      if cols.Err? {
        return cols;
      }
      targets := targets + cols.value;
    }
    assert sel.targets[..|sel.targets|] == sel.targets;

    var where := ParseWhereClause(sel.where);
    if where.Err? {
      return where;
    }
    var joins := ParseSelectJoinColumns(sel.from[0]);
    if joins.Err? {
      return joins;
    }

    var sort: seq<Column> := [];
    for i := 0 to |sel.sort|
      invariant Collect(sel.sort[..i], SortColumns) == Ok(sort)
    {
      CollectStep(sel.sort, SortColumns, i);
      match sel.sort[i] {
        case SortBy(false, _, ColumnRef(fields)) =>
          var column := PNodeColumnRef(fields);
          if column.Err? {
            return Err(column.error);
          }
          sort := sort + [column.value];
        case _ => return Err(NotImplemented);
      }
    }
    assert sel.sort[..|sel.sort|] == sel.sort;

    var group: seq<Column> := [];
    for i := 0 to |sel.group|
      invariant Collect(sel.group[..i], GroupColumns) == Ok(group)
    {
      CollectStep(sel.group, GroupColumns, i);
      match sel.group[i] {
        case ColumnRef(fields) =>
          var column := PNodeColumnRef(fields);
          if column.Err? {
            return Err(column.error);
          }
          group := group + [column.value];
        case _ => return Err(NotImplemented);
      }
    }
    assert sel.group[..|sel.group|] == sel.group;
    return Ok(targets + where.value + joins.value + sort + group);
  }

  /** The final loops: every collected table gets a list, every reference joins the list of
      its table, and every list becomes a vector. */
  method GroupByTable(tables: Tables, columns: seq<Column>) returns (r: Result<seq<Vector>>)
    requires tables.Valid()
    ensures var d := Distribute(Roots(tables.m), columns, tables.m, tables.sources);
            && (r.Ok? <==> d.Ok?)
            && (r.Err? ==> d == Err(r.error))
            && (r.Ok? ==> Renders(r.value, OpSelect, d.value))
  {
    var all := tables.GetAll();
    if all.Err? {
      return Err(Invalid);
    }
    var groups: Groups := map t | t in all.value :: [];
    assert groups == map t | t in Roots(tables.m) :: [];
    for i := 0 to |columns|
      invariant Distribute(Roots(tables.m), columns[..i], tables.m, tables.sources) == Ok(groups)
    {
      DistributeStep(Roots(tables.m), columns, tables.m, tables.sources, i);
      var column := columns[i];
      if TableOf(column) == "" && tables.sources > 1 {
        return Err(NotImplemented);
      }
      var tbl := tables.Get(TableOf(column));
      if tbl.None? {
        return Err(Invalid);
      }
      groups := groups[tbl.value := At(groups, tbl.value) + [column]];
    }
    assert columns[..|columns|] == columns;
    var vecs := MakeAll(OpSelect, groups);
    return Ok(vecs);
  }
}
