/** The vectors of an accepted SELECT cover everything its result depends on. */
module SelectFootprint {
  import opened Common
  import opened Ast
  import opened NameGraph
  import opened TableNames
  import opened Columns
  import opened Predicates
  import opened Vectors
  import opened SelectParser
  import opened Relational
  import opened SelectMeaning

  // ---- The walker finds exactly the references ---------------------------------------------

  lemma {:induction false} ArgsWalked(args: seq<Node>)
    requires Collect(args, SelectParser.ArgColumns).Ok?
    ensures Collect(args, SelectParser.ArgColumns).value == ArgRefs(args)
  {
    if args != [] {
      ArgsWalked(args[..|args| - 1]);
      ArgWalked(args[|args| - 1]);
      ArgRefsStep(args);
    }
  }

  lemma ArgWalked(arg: Node)
    requires SelectParser.ArgColumns(arg).Ok?
    ensures SelectParser.ArgColumns(arg).value == if arg.ColumnRef? && HasStar(arg.fields) then [] else Refs(arg)
  {
  }

  lemma {:induction false} TargetsWalked(ts: seq<TargetNode>)
    requires Collect(ts, TargetColumns).Ok?
    ensures Collect(ts, TargetColumns).value == TargetsRefs(ts)
  {
    if ts != [] {
      var t := ts[|ts| - 1];
      TargetsWalked(ts[..|ts| - 1]);
      if t.val.FuncCall? {
        ArgsWalked(t.val.args);
      }
    }
  }

  lemma {:induction false} SortWalked(sort: seq<SortNode>)
    requires Collect(sort, SortColumns).Ok?
    ensures Collect(sort, SortColumns).value == SortRefs(sort)
  {
    if sort != [] {
      SortWalked(sort[..|sort| - 1]);
    }
  }

  lemma {:induction false} GroupWalked(group: seq<Node>)
    requires Collect(group, GroupColumns).Ok?
    ensures Collect(group, GroupColumns).value == RefsOfAll(group)
  {
    if group != [] {
      GroupWalked(group[..|group| - 1]);
    }
  }

  lemma StatementWalked(sel: SelectStmt)
    requires |sel.from| == 1 && FromError(sel.from[0]).None? && StatementColumns(sel).Ok?
    ensures StatementColumns(sel) == Ok(StatementRefs(sel))
  {
    TargetsWalked(sel.targets);
    ConditionWhitelist(sel.where);
    JoinPassesAgree(sel.from[0]);
    SortWalked(sel.sort);
    GroupWalked(sel.group);
  }

  /** What acceptance means for each reference. */
  lemma AcceptedRefs(sel: SelectStmt)
    requires SelectGroups(sel).Ok?
    ensures Puttable(Leaves(sel.from[0])) && Acyclic(NamesIn(Leaves(sel.from[0])))
    ensures forall c | c in StatementRefs(sel) :: Resolves(c, NamesIn(Leaves(sel.from[0])), |Leaves(sel.from[0])|)
  {
    var from := sel.from[0];
    FromSourcesAreNamed(from);
    StatementWalked(sel);
    Grouping(FullNamesOf(from), StatementRefs(sel), NamesIn(Leaves(from)), |Leaves(from)|);
  }

  /** An accepted statement over several sources has no unqualified reference. */
  lemma SeveralSourcesQualify(sel: SelectStmt, c: Column)
    requires SelectGroups(sel).Ok? && |Leaves(sel.from[0])| > 1 && c in StatementRefs(sel)
    ensures c.table != [] && TableOf(c) != ""
  {
    AcceptedRefs(sel);
  }

  /** As multisets, the columns of the vectors are the references of the statement, each
      under the one table its qualifier leads to. */
  lemma SelectConservation(sel: SelectStmt, vecs: seq<Vector>)
    requires SelectGroups(sel).Ok? && Renders(vecs, OpSelect, SelectGroups(sel).value)
    ensures Acyclic(NamesIn(Leaves(sel.from[0])))
    ensures forall c | c in StatementRefs(sel) :: TableOf(c) in NamesIn(Leaves(sel.from[0]))
    ensures multiset(AccessesOf(vecs)) == multiset(Meant(StatementRefs(sel), NamesIn(Leaves(sel.from[0]))))
  {
    var from := sel.from[0];
    AcceptedRefs(sel);
    StatementWalked(sel);
    Conservation(vecs, OpSelect, FullNamesOf(from), StatementRefs(sel), NamesIn(Leaves(from)), |Leaves(from)|);
  }

  /** The tables of the vectors are exactly the tables of the FROM clause, if and only if no
      source takes over the full name of another. */
  lemma VectorTables(sel: SelectStmt, g: Groups, vecs: seq<Vector>)
    requires SelectGroups(sel) == Ok(g) && Renders(vecs, OpSelect, g)
    ensures (set v | v in vecs :: v.tbl) == TableNames.TablesOf(Leaves(sel.from[0]))
            <==> TablesStay(Leaves(sel.from[0]))
  {
    var from, m := sel.from[0], NamesIn(Leaves(sel.from[0]));
    AcceptedRefs(sel);
    StatementWalked(sel);
    Grouping(FullNamesOf(from), StatementRefs(sel), m, |Leaves(from)|);
    assert g.Keys == Roots(m);
    VectorsHaveAllTables(vecs, OpSelect, g);
    TablesKept(Leaves(from));
  }

  lemma VectorsHaveAllTables(vecs: seq<Vector>, op: Op, g: Groups)
    requires Renders(vecs, op, g)
    ensures (set v | v in vecs :: v.tbl) == g.Keys
  {
    forall t | t in g
      ensures t in set v | v in vecs :: v.tbl
    {
      assert NewVector(op, t, Names(g[t])) in vecs;
    }
  }

  // ---- The footprint -------------------------------------------------------------------------

  /** The columns the vectors list for a table. */
  function ListedFor(vecs: seq<Vector>, tbl: string): set<string> {
    set v, c | v in vecs && v.tbl == tbl && c in AllColumns(v) :: c
  }

  /** The names under which a table stands in a list of sources. */
  function Spellings(rels: seq<Relation>, id: TableId): set<string> {
    set rel | rel in rels && Locate(rel) == id :: FullName(rel)
  }

  /** The columns the vectors list for any spelling of a table. */
  function ListedForTable(vecs: seq<Vector>, rels: seq<Relation>, id: TableId): set<string> {
    set t, c | t in Spellings(rels, id) && c in ListedFor(vecs, t) :: c
  }

  /** What the vectors let a statement read from each of its sources. */
  function FootprintOf(vecs: seq<Vector>, rels: seq<Relation>): Footprint {
    map rel | rel in rels :: ListedForTable(vecs, rels, Locate(rel))
  }

  /** A qualifier under which the database knows a source is a name that source claims. */
  lemma KnownNamesAreClaimed(rel: Relation, tokens: seq<string>)
    requires rel.name != "" && KnownAs(rel, tokens)
    ensures JoinDots(tokens) in Claims(rel) && JoinDots(tokens) != ""
  {
    if |tokens| == 2 {
      assert tokens[1..] == [tokens[1]];
      assert JoinDots(tokens) == InSchema(tokens[0], tokens[1]);
    } else if |tokens| == 3 {
      JoinThree(tokens[0], tokens[1], tokens[2]);
      assert tokens == [tokens[0], tokens[1], tokens[2]];
      assert (tokens[0] + ".") + (tokens[1] + ".") + tokens[2] == tokens[0] + "." + tokens[1] + "." + tokens[2];
    }
  }

  /** A table keeps its spellings: none leads to another table for good. */
  predicate TableStays(rels: seq<Relation>, id: TableId) {
    forall t | t in Spellings(rels, id) :: KeepsName(rels, t, Spellings(rels, id))
  }

  /** No table is lost, though one spelling of it may stand for another. */
  predicate SpellingsStay(rels: seq<Relation>) {
    forall rel | rel in rels :: TableStays(rels, Locate(rel))
  }

  /** Whether a qualifier is a name that the table of a source keeps, together with its
      spellings. */
  predicate KeptBy(rels: seq<Relation>, c: Column, rel: Relation) {
    c.table == [] || (KeepsName(rels, TableOf(c), Spellings(rels, Locate(rel))) && TableStays(rels, Locate(rel)))
  }

  /** Every source the database binds a reference to keeps the qualifier that was used. */
  ghost predicate LeadHome(rels: seq<Relation>, scope: seq<Relation>, cols: seq<Column>) {
    forall c, i: nat | c in cols && Binds(scope, c.table, i) :: KeptBy(rels, c, scope[i])
  }

  ghost predicate JoinsLeadHome(rels: seq<Relation>, from: FromItem) {
    match from
    case JoinExpr(_, _, _, _, _, l, r, on) =>
      JoinsLeadHome(rels, l) && JoinsLeadHome(rels, r) && LeadHome(rels, Leaves(l) + Leaves(r), Refs(on))
    case _ => true
  }

  /** Every reference of a statement leads home, those of an ON clause in the scope of its join. */
  ghost predicate RefsLeadHome(sel: SelectStmt)
    requires |sel.from| == 1
  {
    var rels := Leaves(sel.from[0]);
    && JoinsLeadHome(rels, sel.from[0])
    && LeadHome(rels, rels, TargetsRefs(sel.targets) + Refs(sel.where) + SortRefs(sel.sort) + RefsOfAll(sel.group))
  }

  /** A kept qualifier of an accepted statement leads the analyser to the very table the
      database binds it to. */
  lemma BindingsAgree(sel: SelectStmt, scope: seq<Relation>, c: Column, i: nat)
    requires SelectGroups(sel).Ok? && c in StatementRefs(sel)
    requires (forall rel | rel in scope :: rel in Leaves(sel.from[0])) && Binds(scope, c.table, i)
    requires KeptBy(Leaves(sel.from[0]), c, scope[i])
    ensures var rels := Leaves(sel.from[0]);
            && Acyclic(NamesIn(rels)) && TableOf(c) in NamesIn(rels)
            && Root(NamesIn(rels), TableOf(c)) in Spellings(rels, Locate(scope[i]))
  {
    AcceptedRefs(sel);
    LeadsWhereBound(Leaves(sel.from[0]), scope, c, i);
  }

  lemma LeadsWhereBound(rels: seq<Relation>, scope: seq<Relation>, c: Column, i: nat)
    requires Puttable(rels) && Resolves(c, NamesIn(rels), |rels|)
    requires (forall rel | rel in scope :: rel in rels) && Binds(scope, c.table, i) && KeptBy(rels, c, scope[i])
    ensures Acyclic(NamesIn(rels)) && Root(NamesIn(rels), TableOf(c)) in Spellings(rels, Locate(scope[i]))
  {
    if c.table == [] {
      assert scope[i] in scope;
      assert rels == [scope[i]];
      OneSourceLeadsHome(scope[i], "");
    } else {
      KnownNamesAreClaimed(scope[i], c.table);
      NameLeadsHome(rels, TableOf(c), Spellings(rels, Locate(scope[i])));
    }
  }

  /** When no source takes over another, it leads there only if the qualifier is kept. */
  lemma BindingsAgreeExactly(sel: SelectStmt, scope: seq<Relation>, c: Column, i: nat)
    requires SelectGroups(sel).Ok? && c in StatementRefs(sel) && TablesStay(Leaves(sel.from[0]))
    requires (forall rel | rel in scope :: rel in Leaves(sel.from[0])) && Binds(scope, c.table, i)
    ensures var rels := Leaves(sel.from[0]);
            && Acyclic(NamesIn(rels)) && TableOf(c) in NamesIn(rels)
            && (Root(NamesIn(rels), TableOf(c)) in Spellings(rels, Locate(scope[i])) <==> KeptBy(rels, c, scope[i]))
  {
    var rels := Leaves(sel.from[0]);
    AcceptedRefs(sel);
    if KeptBy(rels, c, scope[i]) {
      LeadsWhereBound(rels, scope, c, i);
    } else {
      KnownNamesAreClaimed(scope[i], c.table);
      StayingTables(rels);
      NameLeadsHomeExactly(rels, TableOf(c), Spellings(rels, Locate(scope[i])));
    }
  }

  lemma StayingTables(rels: seq<Relation>)
    requires TablesStay(rels)
    ensures forall id :: TableStays(rels, id)
    ensures SpellingsStay(rels)
  {
    forall id, t | t in Spellings(rels, id)
      ensures KeepsName(rels, t, Spellings(rels, id))
    {
      var rel :| rel in rels && Locate(rel) == id && FullName(rel) == t;
      TableKeepsFullName(rels, rel, Spellings(rels, id));
    }
  }

  /** One full name means one table, as when every source is read by the gateway as by the
      database. */
  predicate NamesTellTables(rels: seq<Relation>) {
    forall a, b | a in rels && b in rels && FullName(a) == FullName(b) :: Locate(a) == Locate(b)
  }

  /** Then every source of a statement leads to a spelling of its own table, if and only if no
      table is lost. */
  lemma SpellingsStayExactly(rels: seq<Relation>)
    requires Puttable(rels) && NamesTellTables(rels)
    ensures Acyclic(NamesIn(rels)) && forall rel | rel in rels :: FullName(rel) in NamesIn(rels)
    ensures (forall rel | rel in rels :: Root(NamesIn(rels), FullName(rel)) in Spellings(rels, Locate(rel)))
            <==> SpellingsStay(rels)
  {
    SourceNamesAreKeys(rels);
    if SpellingsStay(rels) {
      forall rel | rel in rels
        ensures Root(NamesIn(rels), FullName(rel)) in Spellings(rels, Locate(rel))
      {
        NameLeadsHome(rels, FullName(rel), Spellings(rels, Locate(rel)));
      }
    } else if forall rel | rel in rels :: Root(NamesIn(rels), FullName(rel)) in Spellings(rels, Locate(rel)) {
      forall rel, t | rel in rels && t in Spellings(rels, Locate(rel))
        ensures KeepsName(rels, t, Spellings(rels, Locate(rel)))
      {
        var other :| other in rels && Locate(other) == Locate(rel) && FullName(other) == t;
        HomeIsKept(rels, other);
      }
    }
  }

  lemma SourceNamesAreKeys(rels: seq<Relation>)
    requires Puttable(rels)
    ensures Acyclic(NamesIn(rels))
    ensures forall rel | rel in rels ::
              && FullName(rel) != "" && FullName(rel) in NamesIn(rels)
              && FullName(rel) in Graph(SourcesOf(rels, PARSER_SCHEMA))
  {
    NamesInFacts(rels);
    forall rel | rel in rels
      ensures FullName(rel) != "" && FullName(rel) in Graph(SourcesOf(rels, PARSER_SCHEMA))
    {
      var i :| 0 <= i < |rels| && rels[i] == rel;
      FullNameNotEmpty(rel);
      NameIsKey(SourcesOf(rels, PARSER_SCHEMA), i, FullName(rel));
    }
  }

  /** A source whose next source leads to the same table has that table. */
  lemma HomeIsKept(rels: seq<Relation>, rel: Relation)
    requires Puttable(rels) && NamesTellTables(rels) && rel in rels && Acyclic(NamesIn(rels))
    requires forall r | r in rels ::
               FullName(r) in NamesIn(rels) && Root(NamesIn(rels), FullName(r)) in Spellings(rels, Locate(r))
    ensures KeepsName(rels, FullName(rel), Spellings(rels, Locate(rel)))
  {
    var sources, m := SourcesOf(rels, PARSER_SCHEMA), Graph(SourcesOf(rels, PARSER_SCHEMA));
    NamesInFacts(rels);
    SourceNamesAreKeys(rels);
    var j := LastWriter(sources, FullName(rel));
    var next := rels[j];
    assert next in rels && m[FullName(rel)] == FullName(next);
    assert Root(m, FullName(rel)) == Root(m, FullName(next));
    var a :| a in rels && Locate(a) == Locate(rel) && FullName(a) == Root(m, FullName(rel));
    var b :| b in rels && Locate(b) == Locate(next) && FullName(b) == Root(m, FullName(next));
    KeptNames(sources, FullName(rel), Spellings(rels, Locate(rel)));
  }

  /** Sources that share no name always satisfy the condition. */
  lemma SharingNothingLeadsHome(rels: seq<Relation>, scope: seq<Relation>, cols: seq<Column>)
    requires Puttable(rels) && NoSharedNames(rels) && forall rel | rel in scope :: rel in rels
    ensures LeadHome(rels, scope, cols)
  {
    SharingNothingKeepsNames(rels);
    StayingTables(rels);
    forall c, i: nat | c in cols && Binds(scope, c.table, i)
      ensures KeptBy(rels, c, scope[i])
    {
      if c.table != [] {
        KnownNamesAreClaimed(scope[i], c.table);
        assert scope[i] in rels;
        KeepsMore(SourcesOf(rels, PARSER_SCHEMA), TableOf(c), {FullName(scope[i])}, Spellings(rels, Locate(scope[i])));
      }
    }
  }

  lemma {:induction false} SharingNothingLeadsJoinsHome(rels: seq<Relation>, from: FromItem)
    requires Puttable(rels) && NoSharedNames(rels) && forall rel | rel in Leaves(from) :: rel in rels
    ensures JoinsLeadHome(rels, from)
  {
    match from
    case JoinExpr(_, _, _, _, _, l, r, on) =>
      assert forall rel | rel in Leaves(l) || rel in Leaves(r) :: rel in Leaves(from);
      SharingNothingLeadsJoinsHome(rels, l);
      SharingNothingLeadsJoinsHome(rels, r);
      SharingNothingLeadsHome(rels, Leaves(l) + Leaves(r), Refs(on));
    case _ =>
  }

  /** So do all statements over sources that share no name. */
  lemma SharingNothingSuffices(sel: SelectStmt)
    requires SelectGroups(sel).Ok? && NoSharedNames(Leaves(sel.from[0]))
    ensures TablesStay(Leaves(sel.from[0])) && RefsLeadHome(sel)
  {
    var rels := Leaves(sel.from[0]);
    AcceptedRefs(sel);
    SharingNothingKeepsNames(rels);
    SharingNothingLeadsJoinsHome(rels, sel.from[0]);
    SharingNothingLeadsHome(rels, rels,
                            TargetsRefs(sel.targets) + Refs(sel.where) + SortRefs(sel.sort) + RefsOfAll(sel.group));
  }

  /** So does every join of two tables of one name in two schemas under aliases of their own,
      although the two share that name. */
  lemma AliasedJoinLeadsHome(name: string, s1: string, s2: string, a1: string, a2: string, cols: seq<Column>)
    requires name != "" && s1 != "" && s2 != "" && s1 != s2 && a1 != "" && a2 != ""
    requires a1 !in {name, InSchema(s2, name), a2} && a2 != InSchema(s1, name)
    ensures var rels := [Relation("", s1, name, a1, []), Relation("", s2, name, a2, [])];
            !NoSharedNames(rels) && TablesStay(rels) && LeadHome(rels, rels, cols)
  {
    var rels := [Relation("", s1, name, a1, []), Relation("", s2, name, a2, [])];
    AliasesSuffice(name, s1, s2, a1, a2);
    StayingTables(rels);
    forall c, i: nat | c in cols && Binds(rels, c.table, i)
      ensures KeptBy(rels, c, rels[i])
    {
      assert rels[i] in rels;
      assert KnownAs(rels[i], c.table) && c.table == [rels[i].alias];
      assert TableOf(c) == rels[i].alias;
      KeepsMore(SourcesOf(rels, PARSER_SCHEMA), TableOf(c), {FullName(rels[i])}, Spellings(rels, Locate(rels[i])));
    }
  }

  /** And so does every join of two spellings of one table, although one takes over the other. */
  lemma SpellingsOfOneTableLeadHome(rels: seq<Relation>, id: TableId, scope: seq<Relation>, cols: seq<Column>)
    requires (forall rel | rel in rels :: Locate(rel) == id) && forall rel | rel in scope :: rel in rels
    ensures SpellingsStay(rels) && LeadHome(rels, scope, cols)
  {
    forall n
      ensures KeepsName(rels, n, Spellings(rels, id))
    {
      assert forall rel | rel in rels :: FullName(rel) in Spellings(rels, id);
      assert forall i | 0 <= i < |rels| :: rels[i] in rels;
    }
    assert forall i | 0 <= i < |scope| :: scope[i] in scope;
  }

  lemma RefIsListed(sel: SelectStmt, vecs: seq<Vector>, c: Column)
    requires SelectGroups(sel).Ok? && Renders(vecs, OpSelect, SelectGroups(sel).value) && c in StatementRefs(sel)
    ensures var m := NamesIn(Leaves(sel.from[0]));
            Acyclic(m) && TableOf(c) in m && c.column in ListedFor(vecs, Root(m, TableOf(c)))
  {
    var from := sel.from[0];
    AcceptedRefs(sel);
    StatementWalked(sel);
    PlacedRefIsListed(FullNamesOf(from), StatementRefs(sel), NamesIn(Leaves(from)), |Leaves(from)|, vecs, OpSelect, c);
  }

  /** In particular every argument of a call that is a plain column is a reference of the
      statement, and hence listed. */
  lemma ArgumentIsListed(sel: SelectStmt, vecs: seq<Vector>, t: TargetNode, arg: Node)
    requires SelectGroups(sel).Ok? && Renders(vecs, OpSelect, SelectGroups(sel).value)
    requires t in sel.targets && t.ResTarget? && t.val.FuncCall? && arg in t.val.args
    requires arg.ColumnRef? && PlainRef(arg.fields)
    ensures var c, m := Denoted(arg.fields), NamesIn(Leaves(sel.from[0]));
            && c in StatementRefs(sel)
            && Acyclic(m) && TableOf(c) in m && c.column in ListedFor(vecs, Root(m, TableOf(c)))
  {
    PlainArgumentIsRef(t.val.args, arg);
    TargetRefIsRef(sel.targets, t, Denoted(arg.fields));
    RefIsListed(sel, vecs, Denoted(arg.fields));
  }

  lemma {:induction false} PlainArgumentIsRef(args: seq<Node>, arg: Node)
    requires arg in args && arg.ColumnRef? && PlainRef(arg.fields)
    ensures Denoted(arg.fields) in ArgRefs(args)
  {
    ArgRefsStep(args);
    if arg != args[|args| - 1] {
      PlainArgumentIsRef(args[..|args| - 1], arg);
    }
  }

  lemma {:induction false} TargetRefIsRef(ts: seq<TargetNode>, t: TargetNode, c: Column)
    requires t in ts && c in TargetRefs(t)
    ensures c in TargetsRefs(ts)
  {
    if t != ts[|ts| - 1] {
      TargetRefIsRef(ts[..|ts| - 1], t, c);
    }
  }

  lemma PlacedRefIsListed(seed: set<string>, cols: seq<Column>, m: Edges, sources: nat, vecs: seq<Vector>, op: Op,
                          c: Column)
    requires Acyclic(m) && Distribute(seed, cols, m, sources).Ok? && c in cols
    requires Renders(vecs, op, Distribute(seed, cols, m, sources).value)
    ensures TableOf(c) in m && c.column in ListedFor(vecs, Root(m, TableOf(c)))
  {
    Grouping(seed, cols, m, sources);
    LeadingHas(cols, m, c);
    GroupIsListed(vecs, op, Distribute(seed, cols, m, sources).value, Root(m, TableOf(c)), c);
  }

  lemma GroupIsListed(vecs: seq<Vector>, op: Op, g: Groups, tbl: string, c: Column)
    requires Renders(vecs, op, g) && tbl in g && c in g[tbl]
    ensures c.column in ListedFor(vecs, tbl)
  {
    var v := NewVector(op, tbl, Names(g[tbl]));
    assert v in vecs;
    var k :| 0 <= k < |g[tbl]| && g[tbl][k] == c;
    assert Names(g[tbl])[k] == c.column;
    assert c.column in AllColumns(v);
  }

  lemma RefIsCovered(sel: SelectStmt, g: Groups, vecs: seq<Vector>, scope: seq<Relation>, c: Column)
    requires SelectGroups(sel) == Ok(g) && Renders(vecs, OpSelect, g) && c in StatementRefs(sel)
    requires (forall rel | rel in scope :: rel in Leaves(sel.from[0])) && LeadHome(Leaves(sel.from[0]), scope, [c])
    ensures Covered(scope, FootprintOf(vecs, Leaves(sel.from[0])), c)
  {
    forall i: nat | Binds(scope, c.table, i)
      ensures c.column in Readable(FootprintOf(vecs, Leaves(sel.from[0])), scope[i])
    {
      assert c in [c];
      BindingsAgree(sel, scope, c, i);
      RefIsListed(sel, vecs, c);
    }
  }

  lemma RefsAreCovered(sel: SelectStmt, g: Groups, vecs: seq<Vector>, scope: seq<Relation>, cols: seq<Column>)
    requires SelectGroups(sel) == Ok(g) && Renders(vecs, OpSelect, g)
    requires (forall c | c in cols :: c in StatementRefs(sel)) && LeadHome(Leaves(sel.from[0]), scope, cols)
    requires forall rel | rel in scope :: rel in Leaves(sel.from[0])
    ensures AllCovered(scope, FootprintOf(vecs, Leaves(sel.from[0])), cols)
  {
    forall c | c in cols
      ensures Covered(scope, FootprintOf(vecs, Leaves(sel.from[0])), c)
    {
      RefIsCovered(sel, g, vecs, scope, c);
    }
  }

  lemma {:induction false} JoinsAreCovered(sel: SelectStmt, g: Groups, vecs: seq<Vector>, from: FromItem)
    requires SelectGroups(sel) == Ok(g) && Renders(vecs, OpSelect, g)
    requires (forall c | c in JoinRefs(from) :: c in StatementRefs(sel)) && JoinsLeadHome(Leaves(sel.from[0]), from)
    requires forall rel | rel in Leaves(from) :: rel in Leaves(sel.from[0])
    ensures JoinsCovered(FootprintOf(vecs, Leaves(sel.from[0])), from)
  {
    match from
    case JoinExpr(_, _, _, _, _, l, r, on) =>
      assert forall rel | rel in Leaves(l) || rel in Leaves(r) :: rel in Leaves(from);
      assert forall c | c in JoinRefs(l) || c in JoinRefs(r) || c in Refs(on) :: c in JoinRefs(from);
      JoinsAreCovered(sel, g, vecs, l);
      JoinsAreCovered(sel, g, vecs, r);
      RefsAreCovered(sel, g, vecs, Leaves(l) + Leaves(r), Refs(on));
    case _ =>
  }

  /** What a SELECT must keep to for its vectors to say everything it reads: its references lead
      home, whole rows are only counted, row counts are constants, and no source has its columns
      renamed. */
  ghost predicate Tracked(sel: SelectStmt)
    requires |sel.from| == 1
  {
    RefsLeadHome(sel) && StarsOnlyCounted(sel) && ConstantCounts(sel) && NoneRenamed(Leaves(sel.from[0]))
  }

  /** Footprint of SELECT: two databases with as many rows in every source, which have the
      columns the vectors list for its table and are equal in them, give an accepted statement
      that is tracked the same result. */
  lemma SelectDependsOnFootprint(ops: Ops, a: Database, b: Database, sel: SelectStmt, g: Groups, vecs: seq<Vector>)
    requires SelectGroups(sel) == Ok(g) && Renders(vecs, OpSelect, g) && Tracked(sel)
    requires Agree(Leaves(sel.from[0]), FootprintOf(vecs, Leaves(sel.from[0])), a, b)
    ensures SelectResult(ops, a, sel) == SelectResult(ops, b, sel)
  {
    var scope := Leaves(sel.from[0]);
    JoinsAreCovered(sel, g, vecs, sel.from[0]);
    RefsAreCovered(sel, g, vecs, scope,
                   TargetsRefs(sel.targets) + Refs(sel.where) + SortRefs(sel.sort) + RefsOfAll(sel.group));
    ResultReadsRefs(ops, a, b, FootprintOf(vecs, scope), sel);
  }
}
