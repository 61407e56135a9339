/** Writing the default schema of a table out, or leaving it out, makes no difference to the
    verdict. */
module Spelling {
  import opened Common
  import opened Ast
  import opened NameGraph
  import opened TableNames
  import opened Columns
  import opened Vectors
  import opened SelectParser
  import opened WriteParser
  import opened Dialect
  import opened Validator
  import opened Targets
  import opened Preflight

  /** The statement with its only source written with the default schema. */
  function Qualified(rel: Relation): Relation {
    rel.(schema := PARSER_SCHEMA)
  }

  /** Both spellings go by the same names. */
  lemma SameNames(rel: Relation)
    requires rel.catalog == "" && rel.schema == "" && rel.name != ""
    ensures FullName(rel) == rel.name && FullName(Qualified(rel)) == InSchema(PARSER_SCHEMA, rel.name)
    ensures NamesIn([rel]).Keys == NamesIn([Qualified(rel)]).Keys
  {
    var q := Qualified(rel);
    assert FullName(rel) == rel.name;
    assert FullName(q) == InSchema(PARSER_SCHEMA, rel.name);
    assert SourcesOf([rel], PARSER_SCHEMA) == [SourceOf(rel, PARSER_SCHEMA)];
    assert SourcesOf([q], PARSER_SCHEMA) == [SourceOf(q, PARSER_SCHEMA)];
    assert SourceOf(rel, PARSER_SCHEMA).names == SourceOf(q, PARSER_SCHEMA).names;
    SingleSource(SourceOf(rel, PARSER_SCHEMA));
    SingleSource(SourceOf(q, PARSER_SCHEMA));
  }

  /** `FROM t` and `FROM public.t`, everything else equal. */
  predicate Respelled(sel: SelectStmt, sel': SelectStmt) {
    && |sel.from| == 1 && sel.from[0].RangeVar?
    && sel.from[0].rel.catalog == "" && sel.from[0].rel.schema == "" && sel.from[0].rel.name != ""
    && sel' == sel.(from := [RangeVar(Qualified(sel.from[0].rel))])
  }

  predicate Plain(sel: SelectStmt, names: set<string>)
    requires |sel.from| == 1
  {
    && sel.clauses == {} && sel.values == [] && StatementColumns(sel).Ok?
    && forall c | c in StatementColumns(sel).value :: TableOf(c) in names
  }

  /** A SELECT over one source is accepted if its clauses are supported and every qualifier
      is a name of that source; its only group then holds every reference. */
  lemma OneSourceSelect(sel: SelectStmt)
    requires |sel.from| == 1 && sel.from[0].RangeVar? && sel.from[0].rel.name != ""
    ensures SelectGroups(sel).Ok? <==> Plain(sel, NamesIn([sel.from[0].rel]).Keys)
    ensures SelectGroups(sel).Ok?
            ==> SelectGroups(sel).value == map[FullName(sel.from[0].rel) := StatementColumns(sel).value]
  {
    if StatementColumns(sel).Ok? {
      OneSourceGroups(sel.from[0].rel, StatementColumns(sel).value);
    }
  }

  lemma RespelledColumns(sel: SelectStmt, sel': SelectStmt)
    requires Respelled(sel, sel')
    ensures StatementColumns(sel) == StatementColumns(sel')
  {
  }

  lemma RespelledAccepted(sel: SelectStmt, sel': SelectStmt)
    requires Respelled(sel, sel')
    ensures SelectGroups(sel).Ok? <==> SelectGroups(sel').Ok?
    ensures SelectGroups(sel).Ok? ==>
      && StatementColumns(sel).Ok?
      && SelectGroups(sel).value == map[FullName(sel.from[0].rel) := StatementColumns(sel).value]
      && SelectGroups(sel').value == map[FullName(Qualified(sel.from[0].rel)) := StatementColumns(sel).value]
  {
    SameNames(sel.from[0].rel);
    RespelledColumns(sel, sel');
    OneSourceSelect(sel);
    OneSourceSelect(sel');
  }

  lemma SameTable(schema: DbSchema, rel: Relation, cols: seq<Column>)
    requires rel.catalog == "" && rel.schema == "" && rel.name != "" && !HasDot(rel.name)
    requires schema.defaultSchema == PARSER_SCHEMA && TablesHaveSchemas(schema)
    ensures var t, t' := FullName(rel), FullName(Qualified(rel));
            && (TableKnown(schema, t, cols) <==> TableKnown(schema, t', cols))
            && (TableKnown(schema, t, cols) ==> CanonicalTable(schema, t) == CanonicalTable(schema, t'))
  {
    SameNames(rel);
    QualifiedHasDot(PARSER_SCHEMA, rel.name);
    SameEntry(schema.tables, rel.name, InSchema(PARSER_SCHEMA, rel.name));
    assert FindTable(schema, FullName(rel)) == FindTable(schema, FullName(Qualified(rel)));
  }

  lemma OneGroupKnown(schema: DbSchema, tbl: string, cols: seq<Column>)
    ensures GroupsKnown(schema, map[tbl := cols]) <==> TableKnown(schema, tbl, cols)
  {
    assert tbl in map[tbl := cols];
  }

  /** With default schema `public`, configured names that carry their schema and a name without
      dots, `FROM t` and `FROM public.t` are accepted alike, with the same columns, pass the
      schema check alike, and the policy is asked about the same table. */
  lemma QualificationInvariance(schema: DbSchema, sel: SelectStmt, sel': SelectStmt)
    requires Respelled(sel, sel') && !HasDot(sel.from[0].rel.name)
    requires schema.defaultSchema == PARSER_SCHEMA && TablesHaveSchemas(schema)
    ensures SelectGroups(sel).Ok? <==> SelectGroups(sel').Ok?
    ensures SelectGroups(sel).Ok? ==>
      var t, t', g, g' := FullName(sel.from[0].rel), FullName(sel'.from[0].rel), SelectGroups(sel).value,
          SelectGroups(sel').value;
      && g.Keys == {t} && g'.Keys == {t'} && g[t] == g'[t']
      && (GroupsKnown(schema, g) <==> GroupsKnown(schema, g'))
      && (GroupsKnown(schema, g) ==> CanonicalTable(schema, t) == CanonicalTable(schema, t'))
  {
    var rel := sel.from[0].rel;
    RespelledAccepted(sel, sel');
    if SelectGroups(sel).Ok? {
      var cols := StatementColumns(sel).value;
      SameTable(schema, rel, cols);
      OneGroupKnown(schema, FullName(rel), cols);
      OneGroupKnown(schema, FullName(Qualified(rel)), cols);
    }
  }

  /** The two spellings of a table find the same entry in every valid configuration if and only
      if its name has no dots. */
  lemma SpellingsAgreeExactly(name: string)
    ensures (forall schema: DbSchema | schema.defaultSchema == PARSER_SCHEMA && TablesHaveSchemas(schema) ::
               FindTable(schema, name) == FindTable(schema, InSchema(PARSER_SCHEMA, name)))
            <==> !HasDot(name)
  {
    QualifiedHasDot(PARSER_SCHEMA, name);
    if HasDot(name) {
      var schema := DbSchema(PARSER_SCHEMA, [TargetTable(name, [])]);
      assert |InSchema(PARSER_SCHEMA, name)| > |name|;
      assert FindTable(schema, name).Some? && FindTable(schema, InSchema(PARSER_SCHEMA, name)).None?;
    } else {
      forall schema: DbSchema | schema.defaultSchema == PARSER_SCHEMA && TablesHaveSchemas(schema)
        ensures FindTable(schema, name) == FindTable(schema, InSchema(PARSER_SCHEMA, name))
      {
        SameEntry(schema.tables, name, InSchema(PARSER_SCHEMA, name));
      }
    }
  }

  // ---- Writes -------------------------------------------------------------------------------

  /** The same columns, except that those written under the table's own name follow it. */
  predicate SameColumns(cols: seq<Column>, cols': seq<Column>, t: string, t': string) {
    && |cols| == |cols'|
    && forall i | 0 <= i < |cols| ::
         cols'[i] == cols[i] || (cols[i].table == [t] && cols'[i] == Column([t'], cols[i].column))
  }

  lemma SameColumnsConcat(a: seq<Column>, a': seq<Column>, b: seq<Column>, b': seq<Column>, t: string, t': string)
    requires SameColumns(a, a', t, t') && SameColumns(b, b', t, t')
    ensures SameColumns(a + b, a' + b', t, t')
  {
  }

  lemma {:induction false} ItemsRespelled(ts: seq<TargetNode>, t: string, t': string)
    ensures Collect(ts, ItemWalk(t)).Ok? <==> Collect(ts, ItemWalk(t')).Ok?
    ensures Collect(ts, ItemWalk(t)).Ok?
            ==> SameColumns(Collect(ts, ItemWalk(t)).value, Collect(ts, ItemWalk(t')).value, t, t')
  {
    if ts != [] {
      ItemsRespelled(ts[..|ts| - 1], t, t');
    }
  }

  lemma {:induction false} AssignmentsRespelled(ts: seq<TargetNode>, t: string, t': string)
    ensures Collect(ts, SetWalk(t)).Ok? <==> Collect(ts, SetWalk(t')).Ok?
    ensures Collect(ts, SetWalk(t)).Ok?
            ==> SameColumns(Collect(ts, SetWalk(t)).value, Collect(ts, SetWalk(t')).value, t, t')
  {
    if ts != [] {
      AssignmentsRespelled(ts[..|ts| - 1], t, t');
    }
  }

  predicate Unqualified(rel: Relation) {
    rel.catalog == "" && rel.schema == "" && rel.name != "" && !HasDot(rel.name)
  }

  lemma NamedAlike(rel: Relation, cols: seq<Column>, cols': seq<Column>)
    requires Unqualified(rel) && SameColumns(cols, cols', FullName(rel), FullName(Qualified(rel)))
    ensures AllNameIt(rel, cols) <==> AllNameIt(Qualified(rel), cols')
  {
    SameNames(rel);
    OwnNameIsKey(rel);
    OwnNameIsKey(Qualified(rel));
    assert forall i | 0 <= i < |cols| :: cols[i] in cols && cols'[i] in cols';
    forall i | 0 <= i < |cols|
      ensures TableOf(cols[i]) in NamesIn([rel]).Keys <==> TableOf(cols'[i]) in NamesIn([Qualified(rel)]).Keys
    {
    }
  }

  function OneOrNoGroup(seed: set<string>, tbl: string, cols: seq<Column>): Groups {
    if seed == {} && cols == [] then map[] else map[tbl := cols]
  }

  lemma ResolvedOneOrNone(rel: Relation, seed: set<string>, cols: seq<Column>)
    requires rel.name != "" && seed <= {FullName(rel)} && Resolve(rel, seed, cols).Ok?
    ensures Resolve(rel, seed, cols).value == OneOrNoGroup(seed, FullName(rel), cols)
  {
    OneKey(rel, seed, cols);
  }

  lemma ResolveRespelled(rel: Relation, seeded: bool, cols: seq<Column>, cols': seq<Column>)
    requires Unqualified(rel) && SameColumns(cols, cols', FullName(rel), FullName(Qualified(rel)))
    ensures var seed := if seeded then {FullName(rel)} else {};
            var seed' := if seeded then {FullName(Qualified(rel))} else {};
            && (Resolve(rel, seed, cols).Ok? <==> Resolve(Qualified(rel), seed', cols').Ok?)
            && (Resolve(rel, seed, cols).Ok? ==>
                  && Resolve(rel, seed, cols).value == OneOrNoGroup(seed, FullName(rel), cols)
                  && Resolve(Qualified(rel), seed', cols').value
                      == OneOrNoGroup(seed', FullName(Qualified(rel)), cols'))
  {
    var seed := if seeded then {FullName(rel)} else {};
    var seed' := if seeded then {FullName(Qualified(rel))} else {};
    NamedAlike(rel, cols, cols');
    ResolveAccepts(rel, seed, cols);
    ResolveAccepts(Qualified(rel), seed', cols');
    if Resolve(rel, seed, cols).Ok? {
      ResolvedOneOrNone(rel, seed, cols);
      ResolvedOneOrNone(Qualified(rel), seed', cols');
    }
  }

  /** Two analyses that give the schema check and the policy the same answers: the same
      columns, under table names that find the same entry. */
  predicate SameVerdict(schema: DbSchema, g: Groups, g': Groups, t: string, t': string) {
    && ((g.Keys == {} && g'.Keys == {}) || (g.Keys == {t} && g'.Keys == {t'} && Names(g[t]) == Names(g'[t'])))
    && (GroupsKnown(schema, g) <==> GroupsKnown(schema, g'))
    && (GroupsKnown(schema, g) && g != map[] ==> CanonicalTable(schema, t) == CanonicalTable(schema, t'))
  }

  lemma SameColumnsSameVerdict(schema: DbSchema, rel: Relation, cols: seq<Column>, cols': seq<Column>)
    requires Unqualified(rel) && SameColumns(cols, cols', FullName(rel), FullName(Qualified(rel)))
    requires schema.defaultSchema == PARSER_SCHEMA && TablesHaveSchemas(schema)
    ensures SameVerdict(schema, map[FullName(rel) := cols], map[FullName(Qualified(rel)) := cols'],
                        FullName(rel), FullName(Qualified(rel)))
  {
    var t, t' := FullName(rel), FullName(Qualified(rel));
    SameTable(schema, rel, cols);
    OneGroupKnown(schema, t, cols);
    OneGroupKnown(schema, t', cols');
    assert Names(cols) == Names(cols');
    KnownByNames(schema, t', cols, cols');
  }

  lemma KnownByNames(schema: DbSchema, tbl: string, cols: seq<Column>, cols': seq<Column>)
    requires Names(cols) == Names(cols')
    ensures TableKnown(schema, tbl, cols) <==> TableKnown(schema, tbl, cols')
  {
    assert forall i | 0 <= i < |cols| :: Names(cols)[i] == Names(cols')[i];
    assert forall i | 0 <= i < |cols| :: cols[i].column == cols'[i].column && cols[i] in cols && cols'[i] in cols';
  }

  lemma DeleteRespelled(schema: DbSchema, del: DeleteStmt)
    requires Unqualified(del.rel) && schema.defaultSchema == PARSER_SCHEMA && TablesHaveSchemas(schema)
    ensures var del' := del.(rel := Qualified(del.rel));
            && (DeleteGroups(del).Ok? <==> DeleteGroups(del').Ok?)
            && (DeleteGroups(del).Ok? ==>
                  SameVerdict(schema, DeleteGroups(del).value, DeleteGroups(del').value, FullName(del.rel),
                              FullName(del'.rel)))
  {
    var del' := del.(rel := Qualified(del.rel));
    var t, t' := FullName(del.rel), FullName(del'.rel);
    ItemsRespelled(del.returning, t, t');
    if DeleteColumns(del).Ok? {
      var cols, cols' := DeleteColumns(del).value, DeleteColumns(del').value;
      ResolveRespelled(del.rel, true, cols, cols');
      SameColumnsSameVerdict(schema, del.rel, cols, cols');
    }
  }

  lemma UpdateRespelled(schema: DbSchema, upd: UpdateStmt)
    requires Unqualified(upd.rel) && schema.defaultSchema == PARSER_SCHEMA && TablesHaveSchemas(schema)
    ensures var upd' := upd.(rel := Qualified(upd.rel));
            && (UpdateGroups(upd).Ok? <==> UpdateGroups(upd').Ok?)
            && (UpdateGroups(upd).Ok? ==>
                  SameVerdict(schema, UpdateGroups(upd).value, UpdateGroups(upd').value, FullName(upd.rel),
                              FullName(upd'.rel)))
  {
    var upd' := upd.(rel := Qualified(upd.rel));
    var t, t' := FullName(upd.rel), FullName(upd'.rel);
    AssignmentsRespelled(upd.targets, t, t');
    ItemsRespelled(upd.returning, t, t');
    if UpdateColumns(upd).Ok? {
      var cols, cols' := UpdateColumns(upd).value, UpdateColumns(upd').value;
      ResolveRespelled(upd.rel, false, cols, cols');
      SameColumnsSameVerdict(schema, upd.rel, cols, cols');
    }
  }

  lemma ConflictRespelled(conflict: Option<OnConflict>, t: string, t': string)
    ensures ConflictColumns(conflict, t).Ok? <==> ConflictColumns(conflict, t').Ok?
    ensures ConflictColumns(conflict, t).Ok?
            ==> SameColumns(ConflictColumns(conflict, t).value, ConflictColumns(conflict, t').value, t, t')
  {
    if conflict.Some? {
      ItemsRespelled(conflict.value.inferElems, t, t');
      ItemsRespelled(conflict.value.targets, t, t');
    }
  }

  lemma InsertColumnsRespelled(ins: InsertStmt, ins': InsertStmt)
    requires ins' == ins.(rel := ins'.rel)
    ensures InsertColumns(ins).Ok? <==> InsertColumns(ins').Ok?
    ensures InsertColumns(ins).Ok?
            ==> SameColumns(InsertColumns(ins).value, InsertColumns(ins').value, FullName(ins.rel), FullName(ins'.rel))
  {
    var t, t' := FullName(ins.rel), FullName(ins'.rel);
    ItemsRespelled(ins.cols, t, t');
    ItemsRespelled(ins.returning, t, t');
    ConflictRespelled(ins.onConflict, t, t');
    if InsertColumns(ins).Ok? {
      var a, b, c := Collect(ins.cols, ItemWalk(t)).value, Collect(ins.returning, ItemWalk(t)).value,
          ConflictColumns(ins.onConflict, t).value;
      var a', b', c' := Collect(ins.cols, ItemWalk(t')).value, Collect(ins.returning, ItemWalk(t')).value,
          ConflictColumns(ins.onConflict, t').value;
      SameColumnsConcat(a, a', b, b', t, t');
      SameColumnsConcat(a + b, a' + b', c, c', t, t');
    }
  }

  lemma InsertRespelled(schema: DbSchema, ins: InsertStmt)
    requires Unqualified(ins.rel) && schema.defaultSchema == PARSER_SCHEMA && TablesHaveSchemas(schema)
    ensures var ins' := ins.(rel := Qualified(ins.rel));
            && (InsertGroups(ins).Ok? <==> InsertGroups(ins').Ok?)
            && (InsertGroups(ins).Ok? ==>
                  SameVerdict(schema, InsertGroups(ins).value, InsertGroups(ins').value, FullName(ins.rel),
                              FullName(ins'.rel)))
  {
    var ins' := ins.(rel := Qualified(ins.rel));
    InsertColumnsRespelled(ins, ins');
    if InsertColumns(ins).Ok? {
      var cols, cols' := InsertColumns(ins).value, InsertColumns(ins').value;
      ResolveRespelled(ins.rel, true, cols, cols');
      SameColumnsSameVerdict(schema, ins.rel, cols, cols');
    }
  }

  // ---- The whole verdict ------------------------------------------------------------------------

  /** Statements whose analyses the schema check and the policy cannot tell apart are refused
      alike, or approved alike, for every user, target and policy. */
  lemma RefusedAlike(cfg: Config, user: User, target: Target, query: string, query': string, op: Op, g: Groups,
                     g': Groups, t: string, t': string)
    requires Analysed(cfg.parse(query)) == Ok((op, g)) && Analysed(cfg.parse(query')) == Ok((op, g'))
    requires SameVerdict(SchemaOfTarget(target), g, g', t, t')
    ensures RefusalOf(cfg, user, target, query) == RefusalOf(cfg, user, target, query')
  {
    if g.Keys == {} {
      assert g == map[] && g' == map[];
    }
  }

  /** Two trees of one statement each, the second with its table written `public.t` where the
      first has `t`, and everything else equal. */
  predicate RespelledTree(tree: ParseTree, tree': ParseTree) {
    && tree.Statements? && tree'.Statements? && |tree.stmts| == 1 && |tree'.stmts| == 1
    && match (tree.stmts[0], tree'.stmts[0])
       case (Select(sel), Select(sel')) => Respelled(sel, sel') && !HasDot(sel.from[0].rel.name)
       case (Insert(ins), Insert(ins')) => Unqualified(ins.rel) && ins' == ins.(rel := Qualified(ins.rel))
       case (Update(upd), Update(upd')) => Unqualified(upd.rel) && upd' == upd.(rel := Qualified(upd.rel))
       case (Delete(del), Delete(del')) => Unqualified(del.rel) && del' == del.(rel := Qualified(del.rel))
       case _ => false
  }

  lemma SelectRespelled(schema: DbSchema, sel: SelectStmt, sel': SelectStmt)
    requires Respelled(sel, sel') && !HasDot(sel.from[0].rel.name)
    requires schema.defaultSchema == PARSER_SCHEMA && TablesHaveSchemas(schema) && SelectGroups(sel).Ok?
    ensures SelectGroups(sel').Ok?
    ensures SameVerdict(schema, SelectGroups(sel).value, SelectGroups(sel').value, FullName(sel.from[0].rel),
                        FullName(sel'.from[0].rel))
  {
    QualificationInvariance(schema, sel, sel');
  }

  /** With default schema `public` and a valid configuration, spelling the schema of a statement's
      table out or leaving it out changes neither whether the statement is refused nor, if it can
      be analysed, why. */
  lemma SpellingIsIndifferent(cfg: Config, user: User, target: Target, query: string, query': string)
    requires RespelledTree(cfg.parse(query), cfg.parse(query'))
    requires target.defaultSchema == PARSER_SCHEMA && TablesHaveSchemas(SchemaOfTarget(target))
    ensures Analysed(cfg.parse(query)).Ok? <==> Analysed(cfg.parse(query')).Ok?
    ensures Analysed(cfg.parse(query)).Ok?
            ==> RefusalOf(cfg, user, target, query) == RefusalOf(cfg, user, target, query')
    ensures Approved(cfg, user, target, query) <==> Approved(cfg, user, target, query')
  {
    var schema := SchemaOfTarget(target);
    match (cfg.parse(query).stmts[0], cfg.parse(query').stmts[0])
    case (Select(sel), Select(sel')) =>
      RespelledAccepted(sel, sel');
      if SelectGroups(sel).Ok? {
        SelectRespelled(schema, sel, sel');
        RefusedAlike(cfg, user, target, query, query', OpSelect, SelectGroups(sel).value, SelectGroups(sel').value,
                     FullName(sel.from[0].rel), FullName(sel'.from[0].rel));
      }
    case (Insert(ins), Insert(ins')) =>
      InsertRespelled(schema, ins);
      if InsertGroups(ins).Ok? {
        RefusedAlike(cfg, user, target, query, query', OpInsert, InsertGroups(ins).value, InsertGroups(ins').value,
                     FullName(ins.rel), FullName(ins'.rel));
      }
    case (Update(upd), Update(upd')) =>
      UpdateRespelled(schema, upd);
      if UpdateGroups(upd).Ok? {
        RefusedAlike(cfg, user, target, query, query', OpUpdate, UpdateGroups(upd).value, UpdateGroups(upd').value,
                     FullName(upd.rel), FullName(upd'.rel));
      }
    case (Delete(del), Delete(del')) =>
      DeleteRespelled(schema, del);
      if DeleteGroups(del).Ok? {
        RefusedAlike(cfg, user, target, query, query', OpDelete, DeleteGroups(del).value, DeleteGroups(del').value,
                     FullName(del.rel), FullName(del'.rel));
      }
  }
}
