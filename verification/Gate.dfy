/** From a verdict to a guarantee: what an allowed statement can see and change, said about
    the tables of the database and not about names. */
module Gate {
  import opened Common
  import opened Ast
  import opened NameGraph
  import opened TableNames
  import opened Columns
  import opened Predicates
  import opened Vectors
  import opened SelectParser
  import opened Relational
  import opened SelectMeaning
  import opened SelectFootprint
  import opened WriteParser
  import opened WriteFootprint
  import opened InsertFootprint
  import opened Validator
  import opened Configuration

  // ---- The guarantees ---------------------------------------------------------------------------

  /** The result is the same on all databases that agree on the configured columns of the
      configured tables. */
  ghost predicate SelectConfined(ops: Ops, schema: DbSchema, sel: SelectStmt)
    requires |sel.from| == 1
  {
    forall a, b | AgreeOnConfigured(schema, a, b) :: SelectResult(ops, a, sel) == SelectResult(ops, b, sel)
  }

  /** Nothing but cells of the given columns of one table differs. */
  ghost predicate WritesOnly(before: Database, after: Database, id: TableId, cols: set<string>) {
    && UnchangedElsewhere(before, after, id)
    && |TableRows(after, id)| == |TableRows(before, id)|
    && forall i | 0 <= i < |TableRows(before, id)| ::
        SameOutside(cols, TableRows(before, id)[i], TableRows(after, id)[i])
  }

  /** Databases that agree on what is configured still do after an UPDATE, which selects the same
      rows in both and returns the same values if it returns configured columns. */
  ghost predicate UpdateConfined(ops: Ops, schema: DbSchema, upd: UpdateStmt) {
    forall a, b | AgreeOnConfigured(schema, a, b) ::
      && AgreeOnConfigured(schema, AfterUpdate(ops, a, upd), AfterUpdate(ops, b, upd))
      && SameSelected(ops, a, b, upd.rel, upd.where)
      && (ReturningIn(ConfiguredColumns(schema, Locate(upd.rel)), upd.returning) ==>
            UpdateReturns(ops, upd, RowsOf(a, upd.rel)) == UpdateReturns(ops, upd, RowsOf(b, upd.rel)))
  }

  ghost predicate DeleteConfined(ops: Ops, schema: DbSchema, del: DeleteStmt) {
    forall a, b | AgreeOnConfigured(schema, a, b) ::
      && AgreeOnConfigured(schema, AfterDelete(ops, a, del), AfterDelete(ops, b, del))
      && SameSelected(ops, a, b, del.rel, del.where)
      && (ReturningIn(ConfiguredColumns(schema, Locate(del.rel)), del.returning) ==>
            DeleteReturns(ops, del, RowsOf(a, del.rel)) == DeleteReturns(ops, del, RowsOf(b, del.rel)))
  }

  /** Every source of a statement is read by the gateway as by the database. */
  predicate AllLocated(schema: DbSchema, rels: seq<Relation>) {
    TablesHaveSchemas(schema) && forall rel | rel in rels :: Located(schema.defaultSchema, rel)
  }

  // ---- What the schema check guarantees -----------------------------------------------------------

  lemma ListedAreFields(schema: DbSchema, op: Op, g: Groups, vecs: seq<Vector>, tbl: string)
    requires Renders(vecs, op, g) && GroupsKnown(schema, g)
    ensures ListedFor(vecs, tbl) <= FieldsOf(schema, tbl)
  {
    forall n | n in ListedFor(vecs, tbl)
      ensures n in FieldsOf(schema, tbl)
    {
      var v :| v in vecs && v.tbl == tbl && n in AllColumns(v);
      var k :| 0 <= k < |g[tbl]| && Names(g[tbl])[k] == n;
      assert TableKnown(schema, tbl, g[tbl]);
      assert g[tbl][k] in g[tbl];
    }
  }

  lemma ListedAreConfigured(schema: DbSchema, op: Op, g: Groups, vecs: seq<Vector>, rel: Relation)
    requires Renders(vecs, op, g) && GroupsKnown(schema, g)
    requires TablesHaveSchemas(schema) && Located(schema.defaultSchema, rel)
    ensures ListedFor(vecs, FullName(rel)) <= ConfiguredColumns(schema, Locate(rel))
  {
    ListedAreFields(schema, op, g, vecs, FullName(rel));
    LocatedIsConfigured(schema, rel);
  }

  lemma KnownTableIsConfigured(schema: DbSchema, g: Groups, rel: Relation)
    requires GroupsKnown(schema, g) && FullName(rel) in g
    requires TablesHaveSchemas(schema) && Located(schema.defaultSchema, rel)
    ensures Configured(schema, Locate(rel)) && CanonicalTable(schema, FullName(rel)) == NameOf(Locate(rel))
  {
    assert TableKnown(schema, FullName(rel), g[FullName(rel)]);
    LocatedIsConfigured(schema, rel);
  }

  /** When no table is lost, every table of the FROM clause has a group, under one of its
      spellings. */
  lemma SourceHasGroup(sel: SelectStmt, g: Groups, rel: Relation) returns (other: Relation)
    requires SelectGroups(sel) == Ok(g) && SpellingsStay(Leaves(sel.from[0])) && rel in Leaves(sel.from[0])
    ensures other in Leaves(sel.from[0]) && Locate(other) == Locate(rel) && FullName(other) in g
  {
    var rels := Leaves(sel.from[0]);
    AcceptedRefs(sel);
    StatementWalked(sel);
    SourceNamesAreKeys(rels);
    NameLeadsHome(rels, FullName(rel), Spellings(rels, Locate(rel)));
    Grouping(FullNamesOf(sel.from[0]), StatementRefs(sel), NamesIn(rels), |rels|);
    other :| other in rels && Locate(other) == Locate(rel) && FullName(other) == Root(NamesIn(rels), FullName(rel));
  }

  lemma TableListedIsConfigured(schema: DbSchema, g: Groups, vecs: seq<Vector>, rels: seq<Relation>, id: TableId)
    requires Renders(vecs, OpSelect, g) && GroupsKnown(schema, g) && AllLocated(schema, rels)
    ensures ListedForTable(vecs, rels, id) <= ConfiguredColumns(schema, id)
  {
    forall c | c in ListedForTable(vecs, rels, id)
      ensures c in ConfiguredColumns(schema, id)
    {
      var t :| t in Spellings(rels, id) && c in ListedFor(vecs, t);
      var rel :| rel in rels && Locate(rel) == id && FullName(rel) == t;
      ListedAreConfigured(schema, OpSelect, g, vecs, rel);
    }
  }

  lemma FewerColumns(fewer: set<string>, more: set<string>, a: seq<Row>, b: seq<Row>)
    requires fewer <= more && SameRows(more, a, b)
    ensures SameRows(fewer, a, b)
  {
  }

  /** A group stands for a table under the name the configuration has for it. */
  predicate HasGroup(schema: DbSchema, g: Groups, id: TableId) {
    exists t | t in g :: CanonicalTable(schema, t) == NameOf(id)
  }

  /** A SELECT that passes the schema check reads only configured tables, which the policy is asked
      about by their own names, and its result depends only on their configured columns. */
  lemma KnownSelect(ops: Ops, schema: DbSchema, sel: SelectStmt, g: Groups)
    requires SelectGroups(sel) == Ok(g) && GroupsKnown(schema, g)
    requires SpellingsStay(Leaves(sel.from[0])) && AllLocated(schema, Leaves(sel.from[0]))
    ensures forall rel | rel in Leaves(sel.from[0]) ::
            Configured(schema, Locate(rel)) && HasGroup(schema, g, Locate(rel))
    ensures Tracked(sel) ==> SelectConfined(ops, schema, sel)
  {
    forall rel | rel in Leaves(sel.from[0])
      ensures Configured(schema, Locate(rel)) && HasGroup(schema, g, Locate(rel))
    {
      var other := SourceHasGroup(sel, g, rel);
      KnownTableIsConfigured(schema, g, other);
    }
    if Tracked(sel) {
      forall a, b | AgreeOnConfigured(schema, a, b)
        ensures SelectResult(ops, a, sel) == SelectResult(ops, b, sel)
      {
        ConfinedResult(ops, a, b, schema, sel, g);
      }
    }
  }

  lemma ConfinedResult(ops: Ops, a: Database, b: Database, schema: DbSchema, sel: SelectStmt, g: Groups)
    requires SelectGroups(sel) == Ok(g) && GroupsKnown(schema, g) && AllLocated(schema, Leaves(sel.from[0]))
    requires forall rel | rel in Leaves(sel.from[0]) :: Configured(schema, Locate(rel))
    requires Tracked(sel) && AgreeOnConfigured(schema, a, b)
    ensures SelectResult(ops, a, sel) == SelectResult(ops, b, sel)
  {
    var rels := Leaves(sel.from[0]);
    var vectors := SomeRendering(OpSelect, g);
    forall rel | rel in rels
      ensures SameRows(Readable(FootprintOf(vectors, rels), rel), RowsOf(a, rel), RowsOf(b, rel))
    {
      TableListedIsConfigured(schema, g, vectors, rels, Locate(rel));
      FewerColumns(ListedForTable(vectors, rels, Locate(rel)), ConfiguredColumns(schema, Locate(rel)), RowsOf(a, rel),
                   RowsOf(b, rel));
    }
    SelectDependsOnFootprint(ops, a, b, sel, g, vectors);
  }

  lemma {:induction false} SomeRendering(op: Op, g: Groups) returns (vecs: seq<Vector>)
    ensures Renders(vecs, op, g)
    decreases |g|
  {
    if |g| == 0 {
      vecs := [];
    } else {
      var t :| t in g;
      var rest := map u | u in g && u != t :: g[u];
      assert rest.Keys == g.Keys - {t};
      vecs := SomeRendering(op, rest);
      RendersOneMore(vecs, op, rest, t, g[t]);
      vecs := vecs + [NewVector(op, t, Names(g[t]))];
      assert rest[t := g[t]] == g;
    }
  }

  /** An UPDATE that passes the schema check changes nothing but cells in the configured columns
      of its table; unless it mentions no column, that table is configured, and what the UPDATE
      does depends only on configured columns. */
  lemma KnownUpdate(ops: Ops, schema: DbSchema, upd: UpdateStmt, g: Groups)
    requires UpdateGroups(upd) == Ok(g) && GroupsKnown(schema, g) && AllLocated(schema, [upd.rel])
    ensures forall db :: WritesOnly(db, AfterUpdate(ops, db, upd), Locate(upd.rel),
                                    ConfiguredColumns(schema, Locate(upd.rel)))
    ensures g != map[] ==>
      && FullName(upd.rel) in g && Configured(schema, Locate(upd.rel))
      && CanonicalTable(schema, FullName(upd.rel)) == NameOf(Locate(upd.rel))
      && UpdateConfined(ops, schema, upd)
  {
    var tbl, cols := FullName(upd.rel), ConfiguredColumns(schema, Locate(upd.rel));
    var vectors := SomeRendering(OpUpdate, g);
    assert upd.rel in [upd.rel];
    ListedAreConfigured(schema, OpUpdate, g, vectors, upd.rel);
    forall db
      ensures WritesOnly(db, AfterUpdate(ops, db, upd), Locate(upd.rel), cols)
    {
      UpdateWritesFootprint(ops, db, upd, g, vectors);
    }
    if g != map[] {
      OneKey(upd.rel, {}, UpdateColumns(upd).value);
      KnownTableIsConfigured(schema, g, upd.rel);
      UpdateIsCovered(upd, vectors);
      UpdateWithin(upd, ListedFor(vectors, tbl), cols);
      forall a, b | AgreeOnConfigured(schema, a, b)
        ensures AgreeOnConfigured(schema, AfterUpdate(ops, a, upd), AfterUpdate(ops, b, upd))
        ensures SameSelected(ops, a, b, upd.rel, upd.where)
        ensures ReturningIn(cols, upd.returning) ==>
                  UpdateReturns(ops, upd, RowsOf(a, upd.rel)) == UpdateReturns(ops, upd, RowsOf(b, upd.rel))
      {
        ConfinedUpdate(ops, a, b, schema, upd);
      }
    }
  }

  lemma StillAgree(schema: DbSchema, a: Database, b: Database, a': Database, b': Database, id: TableId)
    requires AgreeOnConfigured(schema, a, b) && UnchangedElsewhere(a, a', id) && UnchangedElsewhere(b, b', id)
    requires SameRows(ConfiguredColumns(schema, id), TableRows(a', id), TableRows(b', id))
    ensures AgreeOnConfigured(schema, a', b')
  {
    forall other | Configured(schema, other)
      ensures SameRows(ConfiguredColumns(schema, other), TableRows(a', other), TableRows(b', other))
    {
      if other != id {
        assert TableRows(a', other) == TableRows(a, other) && TableRows(b', other) == TableRows(b, other);
      }
    }
  }

  lemma ConfinedUpdate(ops: Ops, a: Database, b: Database, schema: DbSchema, upd: UpdateStmt)
    requires Configured(schema, Locate(upd.rel)) && AgreeOnConfigured(schema, a, b)
    requires AssignmentsIn(ConfiguredColumns(schema, Locate(upd.rel)), upd.targets)
    requires AllIn(ConfiguredColumns(schema, Locate(upd.rel)), Refs(upd.where))
    ensures AgreeOnConfigured(schema, AfterUpdate(ops, a, upd), AfterUpdate(ops, b, upd))
    ensures SameSelected(ops, a, b, upd.rel, upd.where)
    ensures ReturningIn(ConfiguredColumns(schema, Locate(upd.rel)), upd.returning) ==>
              UpdateReturns(ops, upd, RowsOf(a, upd.rel)) == UpdateReturns(ops, upd, RowsOf(b, upd.rel))
  {
    UpdateReadsColumns(ops, a, b, upd, ConfiguredColumns(schema, Locate(upd.rel)));
    StillAgree(schema, a, b, AfterUpdate(ops, a, upd), AfterUpdate(ops, b, upd), Locate(upd.rel));
  }

  lemma ConfinedDelete(ops: Ops, a: Database, b: Database, schema: DbSchema, del: DeleteStmt)
    requires Configured(schema, Locate(del.rel)) && AgreeOnConfigured(schema, a, b)
    requires AllIn(ConfiguredColumns(schema, Locate(del.rel)), Refs(del.where))
    ensures AgreeOnConfigured(schema, AfterDelete(ops, a, del), AfterDelete(ops, b, del))
    ensures SameSelected(ops, a, b, del.rel, del.where)
    ensures ReturningIn(ConfiguredColumns(schema, Locate(del.rel)), del.returning) ==>
              DeleteReturns(ops, del, RowsOf(a, del.rel)) == DeleteReturns(ops, del, RowsOf(b, del.rel))
  {
    DeleteReadsColumns(ops, a, b, del, ConfiguredColumns(schema, Locate(del.rel)));
    StillAgree(schema, a, b, AfterDelete(ops, a, del), AfterDelete(ops, b, del), Locate(del.rel));
  }

  lemma UpdateWithin(upd: UpdateStmt, fewer: set<string>, more: set<string>)
    requires fewer <= more && AssignmentsIn(fewer, upd.targets) && AllIn(fewer, Refs(upd.where))
    ensures AssignmentsIn(more, upd.targets) && AllIn(more, Refs(upd.where))
  {
  }

  lemma DeleteWithin(schema: DbSchema, del: DeleteStmt, g: Groups)
    requires DeleteGroups(del) == Ok(g) && GroupsKnown(schema, g) && AllLocated(schema, [del.rel])
    ensures FullName(del.rel) in g && Configured(schema, Locate(del.rel))
    ensures CanonicalTable(schema, FullName(del.rel)) == NameOf(Locate(del.rel))
    ensures AllIn(ConfiguredColumns(schema, Locate(del.rel)), Refs(del.where))
  {
    var vectors := SomeRendering(OpDelete, g);
    OneKey(del.rel, {FullName(del.rel)}, DeleteColumns(del).value);
    assert del.rel in [del.rel];
    KnownTableIsConfigured(schema, g, del.rel);
    ListedAreConfigured(schema, OpDelete, g, vectors, del.rel);
    DeleteIsCovered(del, vectors);
  }

  /** A DELETE that passes the schema check removes rows of a configured table only, and which
      ones depends only on configured columns. */
  lemma KnownDelete(ops: Ops, schema: DbSchema, del: DeleteStmt, g: Groups)
    requires DeleteGroups(del) == Ok(g) && GroupsKnown(schema, g) && AllLocated(schema, [del.rel])
    ensures FullName(del.rel) in g && Configured(schema, Locate(del.rel))
    ensures CanonicalTable(schema, FullName(del.rel)) == NameOf(Locate(del.rel))
    ensures forall db :: UnchangedElsewhere(db, AfterDelete(ops, db, del), Locate(del.rel))
    ensures DeleteConfined(ops, schema, del)
  {
    DeleteWithin(schema, del, g);
    DeletesAreConfined(ops, schema, del);
  }

  lemma DeletesAreConfined(ops: Ops, schema: DbSchema, del: DeleteStmt)
    requires Configured(schema, Locate(del.rel)) && AllIn(ConfiguredColumns(schema, Locate(del.rel)), Refs(del.where))
    ensures forall db :: UnchangedElsewhere(db, AfterDelete(ops, db, del), Locate(del.rel))
    ensures DeleteConfined(ops, schema, del)
  {
    forall a, b | AgreeOnConfigured(schema, a, b)
      ensures AgreeOnConfigured(schema, AfterDelete(ops, a, del), AfterDelete(ops, b, del))
      ensures SameSelected(ops, a, b, del.rel, del.where)
      ensures ReturningIn(ConfiguredColumns(schema, Locate(del.rel)), del.returning) ==>
                DeleteReturns(ops, del, RowsOf(a, del.rel)) == DeleteReturns(ops, del, RowsOf(b, del.rel))
    {
      ConfinedDelete(ops, a, b, schema, del);
    }
  }

  /** An INSERT that passes the schema check changes a configured table only, and keeps the cells
      of older rows outside its configured columns. Its new rows have the default there, if and
      only if the statement has a column list or its literals stand for configured columns. */
  lemma KnownInsert(ops: Ops, schema: DbSchema, ins: InsertStmt, g: Groups, order: seq<string>)
    requires InsertGroups(ins) == Ok(g) && GroupsKnown(schema, g) && AllLocated(schema, [ins.rel]) && Distinct(order)
    ensures FullName(ins.rel) in g && Configured(schema, Locate(ins.rel))
    ensures CanonicalTable(schema, FullName(ins.rel)) == NameOf(Locate(ins.rel))
    ensures UnnamedReturning(ins.returning) ==> ReturningIn(ConfiguredColumns(schema, Locate(ins.rel)), ins.returning)
    ensures forall db :: UnchangedElsewhere(db, AfterInsert(ops, db, ins, order), Locate(ins.rel))
    ensures forall items ::
              NewCellsConfined(schema, ins, order, items)
              <==> FillsOnly(ins, order, items, ConfiguredColumns(schema, Locate(ins.rel)))
    ensures (forall items | items in ValueLists(ins) ::
             FillsOnly(ins, order, items, ConfiguredColumns(schema, Locate(ins.rel)))) ==>
              InsertConfined(ops, schema, ins, order)
  {
    var cols := ConfiguredColumns(schema, Locate(ins.rel));
    var vectors := SomeRendering(OpInsert, g);
    OneKey(ins.rel, {FullName(ins.rel)}, InsertColumns(ins).value);
    assert ins.rel in [ins.rel];
    KnownTableIsConfigured(schema, g, ins.rel);
    ListedAreConfigured(schema, OpInsert, g, vectors, ins.rel);
    InsertIsCovered(ins, g, vectors);
    ReturningWithin(ins.returning, ListedFor(vectors, FullName(ins.rel)), cols);
    forall items
      ensures NewCellsConfined(schema, ins, order, items) <==> FillsOnly(ins, order, items, cols)
    {
      InsertFillsExactly(ins, g, vectors, order, items, cols);
    }
    forall db
      ensures UnchangedElsewhere(db, AfterInsert(ops, db, ins, order), Locate(ins.rel))
      ensures (forall items | items in ValueLists(ins) :: FillsOnly(ins, order, items, cols)) ==>
                Filled(ops, ins, order, cols, RowsOf(db, ins.rel), RowsOf(AfterInsert(ops, db, ins, order), ins.rel))
    {
      InsertWritesFootprint(ops, db, ins, g, vectors, order, cols);
    }
  }

  lemma ReturningWithin(returning: seq<TargetNode>, fewer: set<string>, more: set<string>)
    requires fewer <= more
    ensures ReturningIn(fewer, returning) ==> ReturningIn(more, returning)
  {
  }

  /** Whatever the defaults are, a row's cells outside the configured columns have them. */
  ghost predicate NewCellsConfined(schema: DbSchema, ins: InsertStmt, order: seq<string>, items: seq<Node>) {
    forall ops: Ops, c | c !in ConfiguredColumns(schema, Locate(ins.rel)) ::
      NewCell(ops, ins, order, items, c) == DefaultOf(ops, ins.rel, order, c)
  }

  ghost predicate InsertConfined(ops: Ops, schema: DbSchema, ins: InsertStmt, order: seq<string>) {
    forall db :: Filled(ops, ins, order, ConfiguredColumns(schema, Locate(ins.rel)),
                        RowsOf(db, ins.rel), RowsOf(AfterInsert(ops, db, ins, order), ins.rel))
  }

  // ---- What the whole verdict guarantees ----------------------------------------------------------

  /** The vectors describe the groups of a statement, and pass both checks. */
  ghost predicate Passed(schema: DbSchema, haveAccess: Vec -> bool, op: Op, g: Groups, vecs: seq<Vec>) {
    && Describes(vecs, op, g)
    && (forall v | v in vecs :: VecKnown(schema, v))
    && ValidateAccess(vecs, haveAccess)
  }

  /** The policy was asked about an operation on a table, and approved. */
  predicate ApprovedFor(vecs: seq<Vec>, op: Op, tbl: string, haveAccess: Vec -> bool) {
    exists v | v in vecs :: v.op == op && v.tbl == tbl && haveAccess(v)
  }

  /** Every table an allowed statement leads to is configured and approved. */
  lemma TableIsApproved(schema: DbSchema, haveAccess: Vec -> bool, op: Op, g: Groups, vecs: seq<Vec>, tbl: string)
    requires Passed(schema, haveAccess, op, g, vecs) && tbl in g
    ensures GroupsKnown(schema, g) && FindTable(schema, tbl).Some?
    ensures ApprovedFor(vecs, op, tbl, haveAccess)
  {
    SchemaCheckIsSetLevel(schema, vecs, op, g);
    assert TableKnown(schema, tbl, g[tbl]) && HasTable(vecs, tbl);
  }

  /** The policy approved an operation on a table under one of its spellings, which was found in
      the configuration. */
  predicate TableApproved(schema: DbSchema, vecs: seq<Vec>, rels: seq<Relation>, id: TableId, haveAccess: Vec -> bool) {
    exists t | t in Spellings(rels, id) :: FindTable(schema, t).Some? && ApprovedFor(vecs, OpSelect, t, haveAccess)
  }

  /** End to end: if a SELECT that loses no table is allowed, every table of its FROM clause was
      found and approved; if its sources are located, these are the tables it reads, and its
      result depends only on their configured columns. */
  lemma AllowedSelect(ops: Ops, schema: DbSchema, haveAccess: Vec -> bool, sel: SelectStmt, g: Groups, vecs: seq<Vec>)
    requires SelectGroups(sel) == Ok(g) && Passed(schema, haveAccess, OpSelect, g, vecs)
    requires SpellingsStay(Leaves(sel.from[0]))
    ensures forall rel | rel in Leaves(sel.from[0]) ::
              TableApproved(schema, vecs, Leaves(sel.from[0]), Locate(rel), haveAccess)
    ensures AllLocated(schema, Leaves(sel.from[0])) ==>
      && (forall rel | rel in Leaves(sel.from[0]) :: Configured(schema, Locate(rel)))
      && (Tracked(sel) ==> SelectConfined(ops, schema, sel))
  {
    SchemaCheckIsSetLevel(schema, vecs, OpSelect, g);
    forall rel | rel in Leaves(sel.from[0])
      ensures TableApproved(schema, vecs, Leaves(sel.from[0]), Locate(rel), haveAccess)
    {
      var other := SourceHasGroup(sel, g, rel);
      TableIsApproved(schema, haveAccess, OpSelect, g, vecs, FullName(other));
      assert FullName(other) in Spellings(Leaves(sel.from[0]), Locate(rel));
    }
    if AllLocated(schema, Leaves(sel.from[0])) {
      KnownSelect(ops, schema, sel, g);
    }
  }

  /** An allowed UPDATE that mentions a column: its table was approved, and if the table is located
      it is configured, and the UPDATE reads and writes only its configured columns. */
  lemma AllowedUpdate(ops: Ops, schema: DbSchema, haveAccess: Vec -> bool, upd: UpdateStmt, g: Groups, vecs: seq<Vec>)
    requires UpdateGroups(upd) == Ok(g) && Passed(schema, haveAccess, OpUpdate, g, vecs)
    requires g != map[]
    ensures ApprovedFor(vecs, OpUpdate, FullName(upd.rel), haveAccess)
    ensures AllLocated(schema, [upd.rel]) ==>
      && Configured(schema, Locate(upd.rel))
      && (forall db :: WritesOnly(db, AfterUpdate(ops, db, upd), Locate(upd.rel),
                                  ConfiguredColumns(schema, Locate(upd.rel))))
      && UpdateConfined(ops, schema, upd)
  {
    OneKey(upd.rel, {}, UpdateColumns(upd).value);
    TableIsApproved(schema, haveAccess, OpUpdate, g, vecs, FullName(upd.rel));
    if AllLocated(schema, [upd.rel]) {
      KnownUpdate(ops, schema, upd, g);
    }
  }

  /** An allowed DELETE, likewise. */
  lemma AllowedDelete(ops: Ops, schema: DbSchema, haveAccess: Vec -> bool, del: DeleteStmt, g: Groups, vecs: seq<Vec>)
    requires DeleteGroups(del) == Ok(g) && Passed(schema, haveAccess, OpDelete, g, vecs)
    ensures ApprovedFor(vecs, OpDelete, FullName(del.rel), haveAccess)
    ensures AllLocated(schema, [del.rel]) ==>
      && Configured(schema, Locate(del.rel))
      && (forall db :: UnchangedElsewhere(db, AfterDelete(ops, db, del), Locate(del.rel)))
      && DeleteConfined(ops, schema, del)
  {
    OneKey(del.rel, {FullName(del.rel)}, DeleteColumns(del).value);
    TableIsApproved(schema, haveAccess, OpDelete, g, vecs, FullName(del.rel));
    if AllLocated(schema, [del.rel]) {
      KnownDelete(ops, schema, del, g);
    }
  }

  /** An allowed INSERT: its table was approved, and if it is located it is configured and the
      only one to change. Outside its configured columns older rows keep their cells and new
      rows have defaults, exactly if the literals stand for configured columns. */
  lemma AllowedInsert(ops: Ops, schema: DbSchema, haveAccess: Vec -> bool, ins: InsertStmt, g: Groups, vecs: seq<Vec>,
                      order: seq<string>)
    requires InsertGroups(ins) == Ok(g) && Passed(schema, haveAccess, OpInsert, g, vecs) && Distinct(order)
    ensures ApprovedFor(vecs, OpInsert, FullName(ins.rel), haveAccess)
    ensures AllLocated(schema, [ins.rel]) ==>
      && Configured(schema, Locate(ins.rel))
      && (UnnamedReturning(ins.returning) ==> ReturningIn(ConfiguredColumns(schema, Locate(ins.rel)), ins.returning))
      && (forall db :: UnchangedElsewhere(db, AfterInsert(ops, db, ins, order), Locate(ins.rel)))
      && (forall items ::
            NewCellsConfined(schema, ins, order, items)
            <==> FillsOnly(ins, order, items, ConfiguredColumns(schema, Locate(ins.rel))))
      && ((forall items | items in ValueLists(ins) ::
           FillsOnly(ins, order, items, ConfiguredColumns(schema, Locate(ins.rel)))) ==>
            InsertConfined(ops, schema, ins, order))
  {
    OneKey(ins.rel, {FullName(ins.rel)}, InsertColumns(ins).value);
    TableIsApproved(schema, haveAccess, OpInsert, g, vecs, FullName(ins.rel));
    if AllLocated(schema, [ins.rel]) {
      KnownInsert(ops, schema, ins, g, order);
    }
  }
}
