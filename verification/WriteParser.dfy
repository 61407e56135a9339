/** `handleInsert`, `handleUpdate` and `handleDelete`: from a write to its access vector. */
module WriteParser {
  import opened Common
  import opened Ast
  import opened NameGraph
  import opened TableNames
  import opened Columns
  import opened Predicates
  import opened Vectors

  // ---- Column lists -----------------------------------------------------------------------

  /** An item of a column, RETURNING or conflict list: an item with a name of its own stands
      for that column of the default table, whatever its value is. */
  function ItemColumns(t: TargetNode, defaultTable: string): Result<seq<Column>> {
    match t
    case IndexElem(name, plain) => if plain then Ok([Column([defaultTable], name)]) else Err(NotImplemented)
    case ResTarget(name, indirection, val) =>
      if indirection then Err(NotImplemented)
      else if name != "" then Ok([Column([defaultTable], name)])
      else if val.ColumnRef? then var c :- RefColumn(val.fields); Ok([c])
      else Err(NotImplemented)
    case OtherTarget => Err(NotImplemented)
  }

  function ItemWalk(defaultTable: string): TargetNode -> Result<seq<Column>> {
    t => ItemColumns(t, defaultTable)
  }

  /** An assignment of a SET list: the column written and the columns its value reads. */
  function SetColumns(t: TargetNode, table: string): Result<seq<Column>> {
    match t
    case IndexElem(name, plain) => if plain then Ok([Column([table], name)]) else Err(NotImplemented)
    case ResTarget(name, indirection, val) =>
      if indirection then Err(NotImplemented)
      else
        var value :- SetValueColumns(val);
        Ok([Column([table], name)] + value)
    case OtherTarget => Err(NotImplemented)
  }

  function SetValueColumns(val: Node): Result<seq<Column>> {
    match val
    case AConst(_) => Ok([])
    case SetToDefault => Ok([])
    case AExpr(_, _, _, _) => ExprColumns(val)
    case ColumnRef(fields) => var c :- RefColumn(fields); Ok([c])
    case _ => Err(NotImplemented)
  }

  function SetWalk(table: string): TargetNode -> Result<seq<Column>> {
    t => SetColumns(t, table)
  }

  method PNodes2Columns(nodes: seq<TargetNode>, defaultTable: string) returns (r: Result<seq<Column>>)
    ensures r == Collect(nodes, ItemWalk(defaultTable))
  {
    var all: seq<Column> := [];
    for i := 0 to |nodes|
      invariant Collect(nodes[..i], ItemWalk(defaultTable)) == Ok(all)
    {
      CollectStep(nodes, ItemWalk(defaultTable), i);
      match nodes[i] {
        case IndexElem(name, plain) =>
          if !plain {
            return Err(NotImplemented);
          }
          all := all + [Column([defaultTable], name)];
        case ResTarget(name, indirection, val) =>
          if indirection {
            return Err(NotImplemented);
          }
          if name != "" {
            all := all + [Column([defaultTable], name)];
            continue;
          }
          match val {
            case ColumnRef(fields) =>
              var column := PNodeColumnRef(fields);
              if column.Err? {
                return Err(column.error);
              }
              all := all + [column.value];
            case _ => return Err(NotImplemented);
          }
        case OtherTarget => return Err(NotImplemented);
      }
    }
    assert nodes[..|nodes|] == nodes;
    return Ok(all);
  }

  // ---- The statements ---------------------------------------------------------------------

  /** The references of a write, resolved in the name graph of its only table. */
  function Resolve(rel: Relation, seed: set<string>, cols: seq<Column>): Result<Groups>
    requires rel.name != ""
  {
    NamesInFacts([rel]);
    Distribute(seed, cols, NamesIn([rel]), 1)
  }

  predicate PlainValues(rows: seq<ValuesRow>) {
    forall row | row in rows :: row.RowList? && forall item | item in row.items :: item.AConst? || item.SetToDefault?
  }

  predicate OnlyValues(sel: SelectStmt) {
    && sel.clauses == {} && sel.targets == [] && sel.from == [] && sel.where.Nil?
    && sel.group == [] && sel.sort == [] && sel.limit.NoCount? && sel.offset.NoCount? && sel.limitOption.LimitUnset?
    && PlainValues(sel.values)
  }

  function ConflictColumns(conflict: Option<OnConflict>, table: string): Result<seq<Column>> {
    match conflict
    case None => Ok([])
    case Some(c) =>
      if c.action.OtherAction? || c.hasWhere || c.inferWhere || c.inferName != "" then Err(NotImplemented)
      else
        var keys :- Collect(c.inferElems, ItemWalk(table));
        var targets :- Collect(c.targets, ItemWalk(table));
        Ok(keys + targets)
  }

  function InsertColumns(ins: InsertStmt): Result<seq<Column>> {
    var table := FullName(ins.rel);
    var cols :- Collect(ins.cols, ItemWalk(table));
    if ins.source.OtherSource? || (ins.source.SelectSource? && !OnlyValues(ins.source.sel)) then Err(NotImplemented)
    else
      var returned :- Collect(ins.returning, ItemWalk(table));
      var conflict :- ConflictColumns(ins.onConflict, table);
      Ok(cols + returned + conflict)
  }

  function InsertGroups(ins: InsertStmt): Result<Groups> {
    if ins.hasWith || ins.overriding then Err(NotImplemented)
    else if ins.rel.name == "" then Err(Invalid)
    else
      var cols :- InsertColumns(ins);
      Resolve(ins.rel, {FullName(ins.rel)}, cols)
  }

  function UpdateColumns(upd: UpdateStmt): Result<seq<Column>> {
    var table := FullName(upd.rel);
    var sets :- Collect(upd.targets, SetWalk(table));
    var returned :- Collect(upd.returning, ItemWalk(table));
    var where :- ConditionColumns(upd.where);
    Ok(sets + returned + where)
  }

  function UpdateGroups(upd: UpdateStmt): Result<Groups> {
    if upd.hasFrom || upd.hasWith then Err(NotImplemented)
    else if upd.rel.name == "" then Err(Invalid)
    else
      var cols :- UpdateColumns(upd);
      Resolve(upd.rel, {}, cols)
  }

  function DeleteColumns(del: DeleteStmt): Result<seq<Column>> {
    var returned :- Collect(del.returning, ItemWalk(FullName(del.rel)));
    var where :- ConditionColumns(del.where);
    Ok(returned + where)
  }

  function DeleteGroups(del: DeleteStmt): Result<Groups> {
    if del.hasUsing || del.hasWith then Err(NotImplemented)
    else if del.rel.name == "" then Err(Invalid)
    else
      var cols :- DeleteColumns(del);
      Resolve(del.rel, {FullName(del.rel)}, cols)
  }

  method OpenTables(rel: Relation) returns (tables: Tables, r: Result<string>)
    ensures fresh(tables) && tables.Valid()
    ensures rel.name == "" ==> r == Err(Invalid)
    ensures rel.name != "" ==> r == Ok(FullName(rel)) && tables.m == NamesIn([rel]) && tables.sources == 1
  {
    tables := new Tables(PARSER_SCHEMA);
    r := tables.Put(rel);
    if r.Err? {
      return;
    }
    NamesInFacts([rel]);
    assert SourcesOf([rel], PARSER_SCHEMA) == [SourceOf(rel, PARSER_SCHEMA)];
    assert [SourceOf(rel, PARSER_SCHEMA)][..0] == [];
    var finalized := tables.Finalize();
    if finalized.Err? {
      r := Err(Invalid);
    }
  }

  method HandleInsert(ins: InsertStmt) returns (r: Result<seq<Vector>>)
    ensures r.Ok? <==> InsertGroups(ins).Ok?
    ensures r.Err? ==> InsertGroups(ins) == Err(r.error)
    ensures r.Ok? ==> Renders(r.value, OpInsert, InsertGroups(ins).value)
  {
    if ins.hasWith || ins.overriding {
      return Err(NotImplemented);
    }
    var tables, table := OpenTables(ins.rel);
    if table.Err? {
      return Err(table.error);
    }
    var columns := InsertWalk(ins, table.value);
    if columns.Err? {
      return Err(columns.error);
    }
    r := GroupWrites(tables, {table.value}, columns.value, OpInsert);
  }

  method InsertWalk(ins: InsertStmt, table: string) returns (r: Result<seq<Column>>)
    requires table == FullName(ins.rel)
    ensures r == InsertColumns(ins)
  {
    var cols := PNodes2Columns(ins.cols, table);
    if cols.Err? {
      return cols;
    }
    var sourceOk := CheckSource(ins.source);
    if !sourceOk {
      return Err(NotImplemented);
    }
    var returned := PNodes2Columns(ins.returning, table);
    if returned.Err? {
      return returned;
    }
    var all := cols.value + returned.value;
    match ins.onConflict {
      case None =>
        assert all + [] == all;
      case Some(c) =>
        if c.action.OtherAction? {
          return Err(NotImplemented);
        }
        if c.hasWhere || c.inferWhere || c.inferName != "" {
          return Err(NotImplemented);
        }
        var keys := PNodes2Columns(c.inferElems, table);
        if keys.Err? {
          return keys;
        }
        var targets := PNodes2Columns(c.targets, table);
        if targets.Err? {
          return targets;
        }
        assert all + keys.value + targets.value == all + (keys.value + targets.value);
        all := all + keys.value + targets.value;
    }
    return Ok(all);
  }

  /** Only literal rows, or no rows at all, may be inserted. */
  method CheckSource(source: InsertSource) returns (ok: bool)
    ensures ok <==> !(source.OtherSource? || (source.SelectSource? && !OnlyValues(source.sel)))
  {
    match source {
      case NoSource => return true;
      case OtherSource => return false;
      case SelectSource(sel) =>
        if sel.clauses != {} || sel.targets != [] || sel.from != [] || !sel.where.Nil? || sel.group != []
           || sel.sort != [] || !sel.limit.NoCount? || !sel.offset.NoCount? || !sel.limitOption.LimitUnset? {
          return false;
        }
        for i := 0 to |sel.values|
          invariant PlainValues(sel.values[..i])
        {
          var row := sel.values[i];
          assert row in sel.values;
          if row.OtherRow? {
            return false;
          }
          for j := 0 to |row.items|
            invariant forall k | 0 <= k < j :: row.items[k].AConst? || row.items[k].SetToDefault?
          {
            assert row.items[j] in row.items;
            if !row.items[j].AConst? && !row.items[j].SetToDefault? {
              return false;
            }
          }
        }
        assert sel.values[..|sel.values|] == sel.values;
        return true;
    }
  }

  method HandleUpdate(upd: UpdateStmt) returns (r: Result<seq<Vector>>)
    ensures r.Ok? <==> UpdateGroups(upd).Ok?
    ensures r.Err? ==> UpdateGroups(upd) == Err(r.error)
    ensures r.Ok? ==> Renders(r.value, OpUpdate, UpdateGroups(upd).value)
  {
    if upd.hasFrom || upd.hasWith {
      return Err(NotImplemented);
    }
    var tables, table := OpenTables(upd.rel);
    if table.Err? {
      return Err(table.error);
    }
    var targets := SetListWalk(upd.targets, table.value);
    if targets.Err? {
      return Err(targets.error);
    }
    var returned := PNodes2Columns(upd.returning, table.value);
    if returned.Err? {
      return Err(returned.error);
    }
    var where := ParseWhereClause(upd.where);
    if where.Err? {
      return Err(where.error);
    }
    r := GroupWrites(tables, {}, targets.value + returned.value + where.value, OpUpdate);
  }

  method SetListWalk(targets: seq<TargetNode>, table: string) returns (r: Result<seq<Column>>)
    ensures r == Collect(targets, SetWalk(table))
  {
    var cols: seq<Column> := [];
    for i := 0 to |targets|
      invariant Collect(targets[..i], SetWalk(table)) == Ok(cols)
    {
      CollectStep(targets, SetWalk(table), i);
      ghost var before := cols;
      match targets[i] {
        case IndexElem(name, plain) =>
          if !plain {
            return Err(NotImplemented);
          }
          cols := cols + [Column([table], name)];
        case ResTarget(name, indirection, val) =>
          if indirection {
            return Err(NotImplemented);
          }
          var written := Column([table], name);
          cols := cols + [written];
          match val {
            case AConst(_) =>
              assert [written] + [] == [written];
            case SetToDefault =>
              assert [written] + [] == [written];
            case AExpr(_, _, _, _) =>
              var read := ParseAexpr(val);
              if read.Err? {
                return read;
              }
              assert before + [written] + read.value == before + ([written] + read.value);
              cols := cols + read.value;
            case ColumnRef(fields) =>
              var read := PNodeColumnRef(fields);
              if read.Err? {
                return Err(read.error);
              }
              assert before + [written] + [read.value] == before + ([written] + [read.value]);
              cols := cols + [read.value];
            case _ => return Err(NotImplemented);
          }
        case OtherTarget => return Err(NotImplemented);
      }
    }
    assert targets[..|targets|] == targets;
    return Ok(cols);
  }

  method HandleDelete(del: DeleteStmt) returns (r: Result<seq<Vector>>)
    ensures r.Ok? <==> DeleteGroups(del).Ok?
    ensures r.Err? ==> DeleteGroups(del) == Err(r.error)
    ensures r.Ok? ==> Renders(r.value, OpDelete, DeleteGroups(del).value)
  {
    if del.hasUsing || del.hasWith {
      return Err(NotImplemented);
    }
    var tables, table := OpenTables(del.rel);
    if table.Err? {
      return Err(table.error);
    }
    var returned := PNodes2Columns(del.returning, table.value);
    if returned.Err? {
      return Err(returned.error);
    }
    var where := ParseWhereClause(del.where);
    if where.Err? {
      return Err(where.error);
    }
    r := GroupWrites(tables, {table.value}, returned.value + where.value, OpDelete);
  }

  method GroupWrites(tables: Tables, seed: set<string>, columns: seq<Column>, op: Op) returns (r: Result<seq<Vector>>)
    requires tables.Valid() && tables.sources == 1
    ensures var d := Distribute(seed, columns, tables.m, 1);
            && (r.Ok? <==> d.Ok?)
            && (r.Err? ==> d == Err(r.error))
            && (r.Ok? ==> Renders(r.value, op, d.value))
  {
    var groups: Groups := map t | t in seed :: [];
    for i := 0 to |columns|
      invariant Distribute(seed, columns[..i], tables.m, 1) == Ok(groups)
    {
      DistributeStep(seed, columns, tables.m, 1, i);
      var tbl := tables.Get(TableOf(columns[i]));
      if tbl.None? {
        return Err(Invalid);
      }
      groups := groups[tbl.value := At(groups, tbl.value) + [columns[i]]];
    }
    assert columns[..|columns|] == columns;
    var vecs := MakeAll(op, groups);
    return Ok(vecs);
  }

  // ---- Exactly one vector -----------------------------------------------------------------

  /** `vecs` is one vector, for `op` on the table written `rel`, listing the names of `cols`. */
  ghost predicate OneVector(vecs: seq<Vector>, op: Op, rel: Relation, cols: seq<Column>) {
    vecs == [NewVector(op, FullName(rel), Names(cols))]
  }

  lemma TableInGroups(vecs: seq<Vector>, g: Groups, i: nat)
    requires i < |vecs| && forall v | v in vecs :: v.tbl in g
    ensures vecs[i].tbl in g
  {
    assert vecs[i] in vecs;
  }

  lemma RendersOne(vecs: seq<Vector>, op: Op, g: Groups, full: string)
    requires Renders(vecs, op, g) && g.Keys == {full}
    ensures vecs == [NewVector(op, full, Names(g[full]))]
  {
    assert NewVector(op, full, Names(g[full])) in vecs;
    if |vecs| > 1 {
      TableInGroups(vecs, g, 0);
      TableInGroups(vecs, g, 1);
    }
  }

  lemma RendersNone(vecs: seq<Vector>, op: Op, g: Groups)
    requires Renders(vecs, op, g) && g.Keys == {}
    ensures vecs == []
  {
    if |vecs| > 0 {
      TableInGroups(vecs, g, 0);
    }
  }

  lemma OneKey(rel: Relation, seed: set<string>, cols: seq<Column>)
    requires rel.name != "" && seed <= {FullName(rel)} && Resolve(rel, seed, cols).Ok?
    ensures var g := Resolve(rel, seed, cols).value;
            if seed == {} && cols == [] then g.Keys == {}
            else g.Keys == {FullName(rel)} && g[FullName(rel)] == cols
  {
    var m := NamesIn([rel]);
    NamesInFacts([rel]);
    GroupingContents(seed, cols, m, 1);
    forall c | c in cols
      ensures Root(m, TableOf(c)) == FullName(rel)
    {
      OneSourceLeadsHome(rel, TableOf(c));
    }
    AllLeading(cols, m, FullName(rel));
    if cols != [] {
      assert cols[0] in cols;
    }
  }

  lemma OneSourceRoots(rel: Relation)
    requires rel.name != ""
    ensures Acyclic(NamesIn([rel])) && Roots(NamesIn([rel])) == {FullName(rel)}
  {
    NamesInFacts([rel]);
    assert SourcesOf([rel], PARSER_SCHEMA) == [SourceOf(rel, PARSER_SCHEMA)];
    SingleSource(SourceOf(rel, PARSER_SCHEMA));
  }

  /** Over one source, grouping succeeds if every qualifier is a name of that source, and
      then puts every reference under it. */
  lemma OneSourceGroups(rel: Relation, cols: seq<Column>)
    requires rel.name != ""
    ensures Acyclic(NamesIn([rel])) && Roots(NamesIn([rel])) == {FullName(rel)}
    ensures var d := Distribute({FullName(rel)}, cols, NamesIn([rel]), 1);
            && (d.Ok? <==> forall c | c in cols :: TableOf(c) in NamesIn([rel]).Keys)
            && (d.Ok? ==> d.value == map[FullName(rel) := cols])
  {
    OneSourceRoots(rel);
    GroupsOfOneRoot(NamesIn([rel]), FullName(rel), cols, 1);
  }

  lemma OneGroup(rel: Relation, seed: set<string>, cols: seq<Column>, vecs: seq<Vector>, op: Op)
    requires rel.name != "" && seed <= {FullName(rel)} && Resolve(rel, seed, cols).Ok?
    requires Renders(vecs, op, Resolve(rel, seed, cols).value)
    ensures if seed == {} && cols == [] then vecs == [] else OneVector(vecs, op, rel, cols)
  {
    var g := Resolve(rel, seed, cols).value;
    OneKey(rel, seed, cols);
    if seed == {} && cols == [] {
      RendersNone(vecs, op, g);
    } else {
      RendersOne(vecs, op, g, FullName(rel));
    }
  }

  // ---- What the vector lists, read off the statement ------------------------------------------

  /** The column an item of a column, RETURNING or conflict list stands for. */
  function ItemName(t: TargetNode): string {
    match t
    case IndexElem(name, _) => name
    case ResTarget(name, _, val) => if name != "" || !val.ColumnRef? then name else Denoted(val.fields).column
    case OtherTarget => ""
  }

  function ItemNames(ts: seq<TargetNode>): (names: seq<string>)
    ensures |names| == |ts| && forall i | 0 <= i < |ts| :: names[i] == ItemName(ts[i])
  {
    seq(|ts|, i requires 0 <= i < |ts| => ItemName(ts[i]))
  }

  /** The columns an assignment mentions: the one it writes, and those its value refers to. */
  function AssignmentNames(t: TargetNode): seq<string> {
    match t
    case IndexElem(name, _) => [name]
    case ResTarget(name, _, val) => [name] + Names(Refs(val))
    case OtherTarget => []
  }

  function AllAssignmentNames(ts: seq<TargetNode>): seq<string> {
    if ts == [] then []
    else AllAssignmentNames(ts[..|ts| - 1]) + AssignmentNames(ts[|ts| - 1])
  }

  function ConflictNames(conflict: Option<OnConflict>): seq<string> {
    match conflict
    case None => []
    case Some(c) => ItemNames(c.inferElems) + ItemNames(c.targets)
  }

  lemma {:induction false} ItemsNamed(ts: seq<TargetNode>, table: string)
    requires Collect(ts, ItemWalk(table)).Ok?
    ensures Names(Collect(ts, ItemWalk(table)).value) == ItemNames(ts)
  {
    if ts != [] {
      var front, last := ts[..|ts| - 1], ts[|ts| - 1];
      ItemsNamed(front, table);
      var before, found := Collect(front, ItemWalk(table)).value, ItemColumns(last, table).value;
      assert |found| == 1 && found[0].column == ItemName(last);
      assert Names(before + found) == Names(before) + [ItemName(last)];
      assert ItemNames(ts) == ItemNames(front) + [ItemName(last)];
    }
  }

  lemma AssignmentNamed(t: TargetNode, table: string)
    requires SetColumns(t, table).Ok?
    ensures Names(SetColumns(t, table).value) == AssignmentNames(t)
  {
    if t.ResTarget? {
      if t.val.AExpr? {
        ExpressionWhitelist(t.val);
      }
      NamesConcat([Column([table], t.name)], Refs(t.val));
    }
  }

  lemma {:induction false} AssignmentsNamed(ts: seq<TargetNode>, table: string)
    requires Collect(ts, SetWalk(table)).Ok?
    ensures Names(Collect(ts, SetWalk(table)).value) == AllAssignmentNames(ts)
  {
    if ts != [] {
      var front, last := ts[..|ts| - 1], ts[|ts| - 1];
      AssignmentsNamed(front, table);
      AssignmentNamed(last, table);
      NamesConcat(Collect(front, SetWalk(table)).value, SetColumns(last, table).value);
    }
  }

  lemma NamesConcat(a: seq<Column>, b: seq<Column>)
    ensures Names(a + b) == Names(a) + Names(b)
  {
  }

  lemma ConflictNamed(conflict: Option<OnConflict>, table: string)
    requires ConflictColumns(conflict, table).Ok?
    ensures Names(ConflictColumns(conflict, table).value) == ConflictNames(conflict)
  {
    if conflict.Some? {
      var c := conflict.value;
      ItemsNamed(c.inferElems, table);
      ItemsNamed(c.targets, table);
      NamesConcat(Collect(c.inferElems, ItemWalk(table)).value, Collect(c.targets, ItemWalk(table)).value);
    }
  }

  lemma InsertNamed(ins: InsertStmt)
    requires InsertColumns(ins).Ok?
    ensures Names(InsertColumns(ins).value)
            == ItemNames(ins.cols) + ItemNames(ins.returning) + ConflictNames(ins.onConflict)
  {
    var table := FullName(ins.rel);
    var cols, returned := Collect(ins.cols, ItemWalk(table)).value, Collect(ins.returning, ItemWalk(table)).value;
    ItemsNamed(ins.cols, table);
    ItemsNamed(ins.returning, table);
    ConflictNamed(ins.onConflict, table);
    NamesConcat(cols, returned);
    NamesConcat(cols + returned, ConflictColumns(ins.onConflict, table).value);
  }

  /** The vector of an accepted INSERT lists the columns of its column list, its RETURNING list and
      its conflict clause, and nothing else. */
  lemma InsertHasOneVector(ins: InsertStmt, g: Groups, vecs: seq<Vector>)
    requires InsertGroups(ins) == Ok(g) && Renders(vecs, OpInsert, g)
    ensures vecs == [InsertVec(FullName(ins.rel),
                               ItemNames(ins.cols) + ItemNames(ins.returning) + ConflictNames(ins.onConflict))]
  {
    OneGroup(ins.rel, {FullName(ins.rel)}, InsertColumns(ins).value, vecs, OpInsert);
    InsertNamed(ins);
  }

  lemma DeleteNamed(del: DeleteStmt)
    requires DeleteColumns(del).Ok?
    ensures Names(DeleteColumns(del).value) == ItemNames(del.returning) + Names(Refs(del.where))
  {
    ItemsNamed(del.returning, FullName(del.rel));
    ConditionWhitelist(del.where);
    NamesConcat(Collect(del.returning, ItemWalk(FullName(del.rel))).value, Refs(del.where));
  }

  /** The vector of an accepted DELETE lists the columns of its RETURNING list and of its
      condition, and nothing else. */
  lemma DeleteHasOneVector(del: DeleteStmt, vecs: seq<Vector>)
    requires DeleteGroups(del).Ok? && Renders(vecs, OpDelete, DeleteGroups(del).value)
    ensures vecs == [DeleteVec(FullName(del.rel), ItemNames(del.returning) + Names(Refs(del.where)), [])]
  {
    OneGroup(del.rel, {FullName(del.rel)}, DeleteColumns(del).value, vecs, OpDelete);
    DeleteNamed(del);
  }

  function UpdateNames(upd: UpdateStmt): seq<string> {
    AllAssignmentNames(upd.targets) + ItemNames(upd.returning) + Names(Refs(upd.where))
  }

  lemma UpdateNamed(upd: UpdateStmt)
    requires UpdateColumns(upd).Ok?
    ensures Names(UpdateColumns(upd).value) == UpdateNames(upd)
  {
    var table := FullName(upd.rel);
    var sets, returned := Collect(upd.targets, SetWalk(table)).value, Collect(upd.returning, ItemWalk(table)).value;
    AssignmentsNamed(upd.targets, table);
    ItemsNamed(upd.returning, table);
    ConditionWhitelist(upd.where);
    NamesConcat(sets, returned);
    NamesConcat(sets + returned, Refs(upd.where));
  }

  /** The vector of an accepted UPDATE lists the columns its assignments write and read, those of
      its RETURNING list and of its condition, and nothing else; if these are none, it has no
      vector. */
  lemma UpdateHasOneVector(upd: UpdateStmt, vecs: seq<Vector>)
    requires UpdateGroups(upd).Ok? && Renders(vecs, OpUpdate, UpdateGroups(upd).value)
    ensures vecs == if UpdateNames(upd) == [] then [] else [UpdateVec(FullName(upd.rel), UpdateNames(upd), [])]
    ensures UpdateNames(upd) == [] <==> upd.targets == [] && upd.returning == [] && Refs(upd.where) == []
  {
    OneGroup(upd.rel, {}, UpdateColumns(upd).value, vecs, OpUpdate);
    UpdateNamed(upd);
    NothingNamed(upd.targets, FullName(upd.rel));
  }

  lemma NothingNamed(ts: seq<TargetNode>, table: string)
    requires Collect(ts, SetWalk(table)).Ok?
    ensures AllAssignmentNames(ts) == [] <==> ts == []
  {
  }
}
