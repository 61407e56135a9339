/** The verdict on a statement: its vectors are built, looked up in the configured tables and
    put to the access policy. */
module Validator {
  import opened Common
  import opened Ast
  import opened Columns
  import opened Vectors
  import opened SelectParser
  import opened WriteParser
  import opened TableNames

  datatype TargetTable = TargetTable(table: string, fields: seq<string>)

  datatype DbSchema = DbSchema(defaultSchema: string, tables: seq<TargetTable>)

  /** A vector as the policy sees it: an operation on a table, and columns without repetition. */
  datatype Vec = Vec(op: Op, tbl: string, cols: seq<string>)

  datatype Verdict = Allowed | Complicated | ParseFailed | UnknownTable | UnknownColumn | AccessDenied

  // ---- The configured tables ----------------------------------------------------------------

  predicate HasDot(name: string) {
    '.' in name
  }

  /** The configured names a written table name may stand for. */
  function LookupNames(schema: DbSchema, name: string): seq<string> {
    if HasDot(name) then [name] else [name, InSchema(schema.defaultSchema, name)]
  }

  function FindTable(schema: DbSchema, name: string): Option<TargetTable> {
    FindFirst(schema.tables, LookupNames(schema, name))
  }

  function FindFirst(tables: seq<TargetTable>, names: seq<string>): (r: Option<TargetTable>)
    ensures r.Some? ==> r.value in tables && r.value.table in names
    ensures r.None? ==> forall t | t in tables :: t.table !in names
  {
    if tables == [] then None
    else if tables[0].table in names then Some(tables[0])
    else FindFirst(tables[1..], names)
  }

  /** Of several entries that fit, the first one counts. */
  lemma {:induction false} FoundIsFirst(tables: seq<TargetTable>, names: seq<string>) returns (i: nat)
    requires FindFirst(tables, names).Some?
    ensures i < |tables| && FindFirst(tables, names) == Some(tables[i]) && tables[i].table in names
    ensures forall k | 0 <= k < i :: tables[k].table !in names
  {
    if tables[0].table in names {
      i := 0;
    } else {
      var rest := FoundIsFirst(tables[1..], names);
      i := rest + 1;
    }
  }

  method GetTable(schema: DbSchema, name: string) returns (r: Option<TargetTable>)
    ensures r == FindTable(schema, name)
  {
    var names := [name];
    if !HasDot(name) {
      names := names + [InSchema(schema.defaultSchema, name)];
    }
    assert names == LookupNames(schema, name);
    for i := 0 to |schema.tables|
      invariant FindFirst(schema.tables, names) == FindFirst(schema.tables[i..], names)
    {
      if schema.tables[i].table in names {
        return Some(schema.tables[i]);
      }
      assert schema.tables[i..][1..] == schema.tables[i + 1..];
    }
    return None;
  }

  function CanonicalTable(schema: DbSchema, name: string): string {
    match FindTable(schema, name)
    case Some(t) => t.table
    case None => name
  }

  /** Dots never disappear from a schema-qualified name. */
  lemma QualifiedHasDot(schema: string, name: string)
    ensures HasDot(InSchema(schema, name))
  {
    assert InSchema(schema, name)[|schema|] == '.';
  }

  lemma {:induction false} FirstUnderBoth(tables: seq<TargetTable>, names: seq<string>, names': seq<string>)
    requires FindFirst(tables, names).Some? && FindFirst(tables, names).value.table in names'
    requires forall n | n in names' :: n in names
    ensures FindFirst(tables, names') == FindFirst(tables, names)
  {
    if tables[0].table !in names {
      FirstUnderBoth(tables[1..], names, names');
    }
  }

  /** A table name and its canonical form find the same entry, so the policy is asked about
      the very table whose fields the schema check uses; and canonical names are canonical. */
  lemma CanonicalNamesSameEntry(schema: DbSchema, name: string)
    ensures FindTable(schema, CanonicalTable(schema, name)) == FindTable(schema, name)
    ensures CanonicalTable(schema, CanonicalTable(schema, name)) == CanonicalTable(schema, name)
  {
    var found := FindTable(schema, name);
    if found.Some? && found.value.table != name {
      QualifiedHasDot(schema.defaultSchema, name);
      FirstUnderBoth(schema.tables, LookupNames(schema, name), [found.value.table]);
    }
  }

  /** What a valid configuration demands of table names. */
  predicate TablesHaveSchemas(schema: DbSchema) {
    forall t | t in schema.tables :: HasDot(t.table)
  }

  /** No entry of a valid configuration goes by a name without a dot. */
  lemma {:induction false} SameEntry(tables: seq<TargetTable>, name: string, qualified: string)
    requires !HasDot(name) && forall t | t in tables :: HasDot(t.table)
    ensures FindFirst(tables, [name, qualified]) == FindFirst(tables, [qualified])
  {
    if tables != [] {
      assert tables[0] in tables;
      SameEntry(tables[1..], name, qualified);
    }
  }

  /** The configured columns of the entry a table name finds. */
  function FieldsOf(schema: DbSchema, tbl: string): set<string> {
    match FindTable(schema, tbl)
    case Some(entry) => set f | f in entry.fields
    case None => {}
  }

  // ---- Building vectors ---------------------------------------------------------------------

  /** What a statement amounts to: one operation, and its references grouped by table. */
  function Analysed(tree: ParseTree): Result<(Op, Groups)> {
    match tree
    case SyntaxError => Err(Invalid)
    case Statements(stmts) =>
      if |stmts| != 1 then Err(Invalid)
      else match stmts[0]
        case Select(sel) => var g :- SelectGroups(sel); Ok((OpSelect, g))
        case Insert(ins) => var g :- InsertGroups(ins); Ok((OpInsert, g))
        case Update(upd) => var g :- UpdateGroups(upd); Ok((OpUpdate, g))
        case Delete(del) => var g :- DeleteGroups(del); Ok((OpDelete, g))
        case OtherStatement => Err(NotImplemented)
  }

  /** Only a single statement of one of the four kinds is analysed, as what it is. */
  lemma AnalysedExactly(tree: ParseTree, op: Op, g: Groups)
    ensures Analysed(tree) == Ok((op, g)) <==>
            && tree.Statements? && |tree.stmts| == 1
            && match tree.stmts[0]
               case Select(sel) => op == OpSelect && SelectGroups(sel) == Ok(g)
               case Insert(ins) => op == OpInsert && InsertGroups(ins) == Ok(g)
               case Update(upd) => op == OpUpdate && UpdateGroups(upd) == Ok(g)
               case Delete(del) => op == OpDelete && DeleteGroups(del) == Ok(g)
               case OtherStatement => false
  {
  }

  /** A text is called complicated exactly if it is a single statement that has no handler, or
      whose handler meets something it does not support. */
  lemma ComplicatedExactly(tree: ParseTree)
    ensures Analysed(tree) == Err(NotImplemented) <==>
            && tree.Statements? && |tree.stmts| == 1
            && match tree.stmts[0]
               case Select(sel) => SelectGroups(sel) == Err(NotImplemented)
               case Insert(ins) => InsertGroups(ins) == Err(NotImplemented)
               case Update(upd) => UpdateGroups(upd) == Err(NotImplemented)
               case Delete(del) => DeleteGroups(del) == Err(NotImplemented)
               case OtherStatement => true
  {
  }

  method Parse(tree: ParseTree) returns (r: Result<seq<Vector>>)
    ensures r.Ok? <==> Analysed(tree).Ok?
    ensures r.Err? ==> Analysed(tree) == Err(r.error)
    ensures r.Ok? ==> Renders(r.value, Analysed(tree).value.0, Analysed(tree).value.1)
  {
    match tree
    case SyntaxError => return Err(Invalid);
    case Statements(stmts) =>
      if |stmts| != 1 {
        return Err(Invalid);
      }
      match stmts[0]
      case Select(sel) => r := HandleSelect(sel);
      case Insert(ins) => r := HandleInsert(ins);
      case Update(upd) => r := HandleUpdate(upd);
      case Delete(del) => r := HandleDelete(del);
      case OtherStatement => return Err(NotImplemented);
  }

  /** `vecs` describes the groups, one vector each: the order of the vectors and the order of
      their columns are those of map iterations, and no column is repeated. */
  ghost predicate Describes(vecs: seq<Vec>, op: Op, g: Groups) {
    && (forall i, j | 0 <= i < j < |vecs| :: vecs[i].tbl != vecs[j].tbl)
    && (forall v | v in vecs :: v.op == op && v.tbl in g && ListsColumns(v.cols, g[v.tbl]))
    && (forall t | t in g :: HasTable(vecs, t))
  }

  predicate HasTable(vecs: seq<Vec>, tbl: string) {
    exists v | v in vecs :: v.tbl == tbl
  }

  ghost predicate ListsColumns(names: seq<string>, cols: seq<Column>) {
    && Common.Distinct(names)
    && forall n :: n in names <==> n in Names(cols)
  }

  method MakeVectors(tree: ParseTree) returns (r: Result<seq<Vec>>)
    ensures r.Ok? <==> Analysed(tree).Ok?
    ensures r.Err? ==> Analysed(tree) == Err(r.error)
    ensures r.Ok? ==> Describes(r.value, Analysed(tree).value.0, Analysed(tree).value.1)
  {
    var res := Parse(tree);
    if res.Err? {
      return Err(res.error);
    }
    var vectors := AdaptAll(res.value);
    AdaptedDescribes(vectors, res.value, Analysed(tree).value.0, Analysed(tree).value.1);
    return Ok(vectors);
  }

  method AdaptAll(from: seq<Vector>) returns (vecs: seq<Vec>)
    ensures |vecs| == |from| && forall k | 0 <= k < |vecs| :: Adapts(vecs[k], from[k])
  {
    var vectors := new Vec[|from|];
    for i := 0 to |from|
      invariant forall k | 0 <= k < i :: Adapts(vectors[k], from[k])
    {
      vectors[i] := Adapt(from[i]);
    }
    return vectors[..];
  }

  /** The vector the policy sees: duplicate columns are removed in a set, so their order is
      lost. */
  method Adapt(from: Vector) returns (v: Vec)
    ensures Adapts(v, from)
  {
    var names := ToSeq(set c | c in AllColumns(from));
    v := Vec(OpOf(from), from.tbl, names);
  }

  ghost predicate Adapts(v: Vec, from: Vector) {
    && v.op == OpOf(from) && v.tbl == from.tbl && Common.Distinct(v.cols)
    && forall n :: n in v.cols <==> n in AllColumns(from)
  }

  lemma AdaptedDescribes(vecs: seq<Vec>, from: seq<Vector>, op: Op, g: Groups)
    requires |vecs| == |from| && Renders(from, op, g)
    requires forall k | 0 <= k < |vecs| :: Adapts(vecs[k], from[k])
    ensures Describes(vecs, op, g)
  {
    forall v | v in vecs
      ensures v.op == op && v.tbl in g && ListsColumns(v.cols, g[v.tbl])
    {
      var k :| 0 <= k < |vecs| && vecs[k] == v;
      assert from[k] in from && Adapts(vecs[k], from[k]);
    }
    forall t | t in g
      ensures HasTable(vecs, t)
    {
      var k :| 0 <= k < |from| && from[k] == NewVector(op, t, Names(g[t]));
      assert vecs[k] in vecs && Adapts(vecs[k], from[k]);
    }
    assert forall i | 0 <= i < |vecs| :: Adapts(vecs[i], from[i]) && vecs[i].tbl == from[i].tbl;
  }

  // ---- The checks -----------------------------------------------------------------------------

  predicate VecKnown(schema: DbSchema, v: Vec) {
    match FindTable(schema, v.tbl)
    case Some(t) => forall c | c in v.cols :: c in t.fields
    case None => false
  }

  /** What the first vector that is not known is refused for. */
  function SchemaVerdict(schema: DbSchema, vecs: seq<Vec>): (r: Verdict)
    ensures r == Allowed || r == UnknownTable || r == UnknownColumn
    ensures r == Allowed <==> forall v | v in vecs :: VecKnown(schema, v)
  {
    if vecs == [] then Allowed
    else if !VecKnown(schema, vecs[0])
        then (if FindTable(schema, vecs[0].tbl).None? then UnknownTable else UnknownColumn)
    else SchemaVerdict(schema, vecs[1..])
  }

  method ValidateSchema(vecs: seq<Vec>, schema: DbSchema) returns (r: Verdict)
    ensures r == SchemaVerdict(schema, vecs)
  {
    for i := 0 to |vecs|
      invariant SchemaVerdict(schema, vecs) == SchemaVerdict(schema, vecs[i..])
    {
      var v := vecs[i];
      assert vecs[i..][0] == v && vecs[i..][1..] == vecs[i + 1..];
      var found := GetTable(schema, v.tbl);
      match found {
        case None => return UnknownTable;
        case Some(tbl) =>
          for j := 0 to |v.cols|
            invariant forall k | 0 <= k < j :: v.cols[k] in tbl.fields
          {
            if v.cols[j] !in tbl.fields {
              assert v.cols[j] in v.cols;
              return UnknownColumn;
            }
          }
      }
    }
    return Allowed;
  }

  predicate ValidateAccess(vecs: seq<Vec>, haveAccess: Vec -> bool) {
    forall v | v in vecs :: haveAccess(v)
  }

  method IsAllowed(schema: DbSchema, haveAccess: Vec -> bool, tree: ParseTree)
    returns (r: Verdict, ghost vecs: seq<Vec>)
    ensures Analysed(tree) == Err(NotImplemented) <==> r == Complicated
    ensures Analysed(tree) == Err(Invalid) <==> r == ParseFailed
    ensures Analysed(tree).Ok? ==> Describes(vecs, Analysed(tree).value.0, Analysed(tree).value.1)
    ensures r == Allowed ==> Analysed(tree).Ok?
    ensures Analysed(tree).Ok? ==>
      (r == Allowed <==> (forall v | v in vecs :: VecKnown(schema, v)) && ValidateAccess(vecs, haveAccess))
    ensures Analysed(tree).Ok? && SchemaVerdict(schema, vecs) != Allowed ==> r == SchemaVerdict(schema, vecs)
    ensures r == AccessDenied <==>
            && Analysed(tree).Ok? && (forall v | v in vecs :: VecKnown(schema, v))
            && !ValidateAccess(vecs, haveAccess)
  {
    var made := MakeVectors(tree);
    vecs := [];
    if made.Err? {
      r := if made.error.NotImplemented? then Complicated else ParseFailed;
      return;
    }
    vecs := made.value;
    r := ValidateSchema(made.value, schema);
    if r != Allowed {
      return;
    }
    if !ValidateAccess(made.value, haveAccess) {
      r := AccessDenied;
    }
  }

  // ---- The verdict does not depend on the order of iteration ------------------------------------

  /** Every table led to is configured, with every column referred to. */
  predicate GroupsKnown(schema: DbSchema, g: Groups) {
    forall t | t in g :: TableKnown(schema, t, g[t])
  }

  predicate TableKnown(schema: DbSchema, tbl: string, cols: seq<Column>) {
    match FindTable(schema, tbl)
    case Some(entry) => forall c | c in cols :: c.column in entry.fields
    case None => false
  }

  /** The schema check of any list of vectors that describes the groups is the check of the
      groups themselves. */
  lemma SchemaCheckIsSetLevel(schema: DbSchema, vecs: seq<Vec>, op: Op, g: Groups)
    requires Describes(vecs, op, g)
    ensures (forall v | v in vecs :: VecKnown(schema, v)) <==> GroupsKnown(schema, g)
  {
    forall v | v in vecs
      ensures VecKnown(schema, v) <==> TableKnown(schema, v.tbl, g[v.tbl])
    {
      VecOrColumns(schema, v, g[v.tbl]);
    }
    forall t | t in g
      ensures exists v :: v in vecs && v.tbl == t
    {
      assert HasTable(vecs, t);
    }
  }

  lemma VecOrColumns(schema: DbSchema, v: Vec, cols: seq<Column>)
    requires ListsColumns(v.cols, cols)
    ensures VecKnown(schema, v) <==> TableKnown(schema, v.tbl, cols)
  {
    forall c | c in cols
      ensures c.column in v.cols
    {
      var k :| 0 <= k < |cols| && cols[k] == c;
      assert Names(cols)[k] == c.column;
    }
    forall n | n in v.cols
      ensures exists c | c in cols :: c.column == n
    {
      var k :| 0 <= k < |cols| && Names(cols)[k] == n;
      assert cols[k] in cols;
    }
  }

  /** A policy that looks only at operation and table, as the gateway's does. */
  ghost predicate ByTable(haveAccess: Vec -> bool, allow: (Op, string) -> bool) {
    forall v :: haveAccess(v) == allow(v.op, v.tbl)
  }

  lemma AccessCheckIsSetLevel(haveAccess: Vec -> bool, allow: (Op, string) -> bool, vecs: seq<Vec>, op: Op, g: Groups)
    requires Describes(vecs, op, g) && ByTable(haveAccess, allow)
    ensures ValidateAccess(vecs, haveAccess) <==> forall t | t in g :: allow(op, t)
  {
    forall t | t in g
      ensures exists v :: v in vecs && v.tbl == t
    {
      assert HasTable(vecs, t);
    }
  }

  /** A policy that does not care in which order columns are listed. */
  ghost predicate OrderBlind(haveAccess: Vec -> bool) {
    forall v: Vec, w: Vec {:trigger haveAccess(v), haveAccess(w)} ::
      v.op == w.op && v.tbl == w.tbl && (forall n :: n in v.cols <==> n in w.cols) ==> haveAccess(v) == haveAccess(w)
  }

  lemma SomeOrderAllowed(haveAccess: Vec -> bool, a: seq<Vec>, b: seq<Vec>, op: Op, g: Groups)
    requires Describes(a, op, g) && Describes(b, op, g) && OrderBlind(haveAccess) && ValidateAccess(a, haveAccess)
    ensures ValidateAccess(b, haveAccess)
  {
    forall w | w in b
      ensures haveAccess(w)
    {
      assert HasTable(a, w.tbl);
      var v :| v in a && v.tbl == w.tbl;
      assert haveAccess(v);
    }
  }

  /** Two runs that iterate their maps differently both allow a statement or both refuse it. */
  lemma VerdictIgnoresOrder(schema: DbSchema, haveAccess: Vec -> bool, a: seq<Vec>, b: seq<Vec>, op: Op, g: Groups)
    requires Describes(a, op, g) && Describes(b, op, g) && OrderBlind(haveAccess)
    ensures (forall v | v in a :: VecKnown(schema, v)) && ValidateAccess(a, haveAccess)
            <==> (forall v | v in b :: VecKnown(schema, v)) && ValidateAccess(b, haveAccess)
  {
    SchemaCheckIsSetLevel(schema, a, op, g);
    SchemaCheckIsSetLevel(schema, b, op, g);
    if ValidateAccess(a, haveAccess) {
      SomeOrderAllowed(haveAccess, a, b, op, g);
    }
    if ValidateAccess(b, haveAccess) {
      SomeOrderAllowed(haveAccess, b, a, op, g);
    }
  }

  // ---- The kind of a refusal may depend on it ----------------------------------------------------

  predicate LeavesTables(schema: DbSchema, g: Groups) {
    exists t | t in g :: FindTable(schema, t).None?
  }

  predicate LeavesColumns(schema: DbSchema, g: Groups) {
    exists t | t in g :: FindTable(schema, t).Some? && !TableKnown(schema, t, g[t])
  }

  lemma {:induction false} FirstUnknown(schema: DbSchema, vecs: seq<Vec>) returns (v: Vec)
    requires SchemaVerdict(schema, vecs) != Allowed
    ensures v in vecs && !VecKnown(schema, v)
    ensures SchemaVerdict(schema, vecs) == if FindTable(schema, v.tbl).None? then UnknownTable else UnknownColumn
  {
    if VecKnown(schema, vecs[0]) {
      v := FirstUnknown(schema, vecs[1..]);
    } else {
      v := vecs[0];
    }
  }

  /** A refusal is for a reason the statement gives. */
  lemma RefusedForReason(schema: DbSchema, vecs: seq<Vec>, op: Op, g: Groups)
    requires Describes(vecs, op, g)
    ensures SchemaVerdict(schema, vecs) == UnknownTable ==> LeavesTables(schema, g)
    ensures SchemaVerdict(schema, vecs) == UnknownColumn ==> LeavesColumns(schema, g)
  {
    if SchemaVerdict(schema, vecs) != Allowed {
      var v := FirstUnknown(schema, vecs);
      VecOrColumns(schema, v, g[v.tbl]);
    }
  }

  /** Where the vector at `k` stood before the one at `i` was moved to the front. */
  function Before(i: nat, k: nat): nat {
    if k == 0 then i else if k <= i then k - 1 else k
  }

  function Moved(vecs: seq<Vec>, i: nat): (moved: seq<Vec>)
    requires i < |vecs|
    ensures |moved| == |vecs| && forall k | 0 <= k < |vecs| :: moved[k] == vecs[Before(i, k)]
  {
    seq(|vecs|, k requires 0 <= k < |vecs| => vecs[Before(i, k)])
  }

  lemma MovedHas(vecs: seq<Vec>, i: nat, v: Vec)
    requires i < |vecs|
    ensures v in Moved(vecs, i) <==> v in vecs
  {
    if v in vecs {
      var j :| 0 <= j < |vecs| && vecs[j] == v;
      assert Moved(vecs, i)[if j == i then 0 else if j < i then j + 1 else j] == v;
    }
  }

  lemma MovedDescribes(vecs: seq<Vec>, op: Op, g: Groups, i: nat)
    requires Describes(vecs, op, g) && i < |vecs|
    ensures Describes(Moved(vecs, i), op, g)
  {
    forall v
      ensures v in Moved(vecs, i) <==> v in vecs
    {
      MovedHas(vecs, i, v);
    }
    forall t | t in g
      ensures HasTable(Moved(vecs, i), t)
    {
      assert HasTable(vecs, t);
    }
  }

  /** The vectors in an order that begins with a given table. */
  lemma BeginWith(vecs: seq<Vec>, op: Op, g: Groups, t: string) returns (moved: seq<Vec>)
    requires Describes(vecs, op, g) && t in g
    ensures Describes(moved, op, g) && moved != [] && moved[0].tbl == t
  {
    assert HasTable(vecs, t);
    var i :| 0 <= i < |vecs| && vecs[i].tbl == t;
    MovedDescribes(vecs, op, g, i);
    moved := Moved(vecs, i);
  }

  /** The kind of the refusal is the same for every order of the vectors, unless the statement
      leaves both the configured tables and the columns of a configured one. */
  lemma KindVariesExactly(schema: DbSchema, vecs: seq<Vec>, op: Op, g: Groups)
    requires Describes(vecs, op, g)
    ensures (forall other | Describes(other, op, g) :: SchemaVerdict(schema, other) == SchemaVerdict(schema, vecs))
            <==> !(LeavesTables(schema, g) && LeavesColumns(schema, g))
  {
    SchemaCheckIsSetLevel(schema, vecs, op, g);
    if LeavesTables(schema, g) && LeavesColumns(schema, g) {
      var t :| t in g && FindTable(schema, t).None?;
      var u :| u in g && FindTable(schema, u).Some? && !TableKnown(schema, u, g[u]);
      var first := BeginWith(vecs, op, g, t);
      var second := BeginWith(vecs, op, g, u);
      VecOrColumns(schema, second[0], g[u]);
      assert SchemaVerdict(schema, first) == UnknownTable && SchemaVerdict(schema, second) == UnknownColumn;
    } else {
      RefusedForReason(schema, vecs, op, g);
      forall other | Describes(other, op, g)
        ensures SchemaVerdict(schema, other) == SchemaVerdict(schema, vecs)
      {
        SchemaCheckIsSetLevel(schema, other, op, g);
        RefusedForReason(schema, other, op, g);
      }
    }
  }
}
