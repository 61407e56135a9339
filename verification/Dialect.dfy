/** The SQL dialect the analyser accepts, written down as a grammar instead of a walk: a
    statement is accepted if and only if it lies in the dialect and every qualifier in it
    resolves. */
module Dialect {
  import opened Common
  import opened Ast
  import opened TableNames
  import opened Columns
  import opened Predicates
  import opened Vectors
  import opened SelectParser
  import opened SelectMeaning
  import opened SelectFootprint
  import opened WriteParser

  // ---- SELECT -------------------------------------------------------------------------------

  predicate IsPlainRef(n: Node) {
    n.ColumnRef? && PlainRef(n.fields)
  }

  /** Tables with names, joined without NATURAL, USING or an alias for the join itself. */
  predicate IsPlainFrom(from: FromItem) {
    match from
    case RangeVar(rel) => rel.name != ""
    case JoinExpr(_, natural, using, usingAlias, aliased, l, r, on) =>
      !natural && !using && !usingAlias && !aliased && IsPlainFrom(l) && IsPlainFrom(r)
    case OtherFrom => false
  }

  /** A function takes columns and whole rows, written with a star at the end. */
  predicate IsArgument(arg: Node) {
    arg.ColumnRef? && (PlainRef(arg.fields) || (arg.fields != [] && arg.fields[|arg.fields| - 1] == Star))
  }

  /** Equal but for the case of letters in the first. */
  predicate SameInLowerCase(f: string, g: string) {
    |f| == |g| && forall i | 0 <= i < |f| :: f[i] == g[i] || ('A' <= f[i] <= 'Z' && f[i] as int + 32 == g[i] as int)
  }

  /** The six functions, however their letters are cased. */
  predicate IsFunctionName(f: string) {
    || SameInLowerCase(f, "count") || SameInLowerCase(f, "lower") || SameInLowerCase(f, "upper")
    || SameInLowerCase(f, "sum") || SameInLowerCase(f, "min") || SameInLowerCase(f, "max")
  }

  predicate IsAllowedCall(n: Node) {
    && n.FuncCall? && !n.over && !n.filtered && !n.ordered
    && |n.funcname| == 1 && n.funcname[0].NameString? && IsFunctionName(n.funcname[0].s)
    && forall arg | arg in n.args :: IsArgument(arg)
  }

  predicate IsTarget(t: TargetNode) {
    t.ResTarget? && !t.indirection && (IsPlainRef(t.val) || IsAllowedCall(t.val))
  }

  predicate IsSort(s: SortNode) {
    s.SortBy? && !s.useOp && IsPlainRef(s.node)
  }

  predicate InSelectDialect(sel: SelectStmt) {
    && sel.clauses == {} && sel.values == []
    && |sel.from| == 1 && IsPlainFrom(sel.from[0]) && JoinConditionsOk(sel.from[0])
    && (forall t | t in sel.targets :: IsTarget(t))
    && IsCondition(sel.where)
    && (forall s | s in sel.sort :: IsSort(s))
    && (forall g | g in sel.group :: IsPlainRef(g))
  }

  lemma {:induction false} CollectAccepts<T>(xs: seq<T>, f: T -> Result<seq<Column>>, good: T -> bool)
    requires forall x | x in xs :: f(x).Ok? <==> good(x)
    ensures Collect(xs, f).Ok? <==> forall x | x in xs :: good(x)
  {
    if xs != [] {
      var front, last := xs[..|xs| - 1], xs[|xs| - 1];
      assert xs == front + [last];
      CollectAccepts(front, f, good);
    }
  }

  lemma {:induction false} PlainFromCollects(from: FromItem)
    ensures FromError(from).None? <==> IsPlainFrom(from)
  {
    match from
    case JoinExpr(_, _, _, _, _, l, r, _) =>
      PlainFromCollects(l);
      PlainFromCollects(r);
    case _ =>
  }

  lemma LowerCase(f: string, g: string)
    requires forall c | c in g :: 'a' <= c <= 'z'
    ensures ToLower(f) == g <==> SameInLowerCase(f, g)
  {
    assert forall i | 0 <= i < |g| :: g[i] in g;
    assert SameInLowerCase(f, g) ==> forall i | 0 <= i < |f| :: ToLower(f)[i] == g[i];
  }

  /** The names the analyser lets pass are those six. */
  lemma AllowedNames(f: string)
    ensures ToLower(f) in ALLOWED_FUNCTIONS <==> IsFunctionName(f)
  {
    LowerCase(f, "count");
    LowerCase(f, "lower");
    LowerCase(f, "upper");
    LowerCase(f, "sum");
    LowerCase(f, "min");
    LowerCase(f, "max");
  }

  lemma TargetAccepted(t: TargetNode)
    ensures TargetColumns(t).Ok? <==> IsTarget(t)
  {
    if t.ResTarget? && t.val.FuncCall? && |t.val.funcname| == 1 && t.val.funcname[0].NameString? {
      AllowedNames(t.val.funcname[0].s);
    }
    if t.ResTarget? && t.val.FuncCall? {
      CollectAccepts(t.val.args, SelectParser.ArgColumns, IsArgument);
    }
  }

  lemma WalkAccepted(sel: SelectStmt)
    requires |sel.from| == 1 && IsPlainFrom(sel.from[0])
    ensures StatementColumns(sel).Ok? <==>
            && (forall t | t in sel.targets :: IsTarget(t))
            && IsCondition(sel.where) && JoinConditionsOk(sel.from[0])
            && (forall s | s in sel.sort :: IsSort(s))
            && (forall g | g in sel.group :: IsPlainRef(g))
  {
    forall t | t in sel.targets
      ensures TargetColumns(t).Ok? <==> IsTarget(t)
    {
      TargetAccepted(t);
    }
    PlainFromCollects(sel.from[0]);
    CollectAccepts(sel.targets, TargetColumns, IsTarget);
    ConditionWhitelist(sel.where);
    JoinPassesAgree(sel.from[0]);
    CollectAccepts(sel.sort, SortColumns, IsSort);
    CollectAccepts(sel.group, GroupColumns, IsPlainRef);
  }

  /** A SELECT is accepted exactly if it lies in the dialect and each of its references names
      a source, by a qualifier if there are several sources. */
  lemma SelectAccepted(sel: SelectStmt)
    ensures SelectGroups(sel).Ok? <==>
            && InSelectDialect(sel)
            && forall c | c in StatementRefs(sel) :: Resolves(c, NamesIn(Leaves(sel.from[0])), |Leaves(sel.from[0])|)
  {
    if |sel.from| == 1 {
      var from := sel.from[0];
      PlainFromCollects(from);
      if IsPlainFrom(from) {
        WalkAccepted(sel);
        FromSourcesAreNamed(from);
        if StatementColumns(sel).Ok? {
          StatementWalked(sel);
          Grouping(FullNamesOf(from), StatementRefs(sel), NamesIn(Leaves(from)), |Leaves(from)|);
        }
      }
    }
  }

  // ---- Writes -------------------------------------------------------------------------------

  predicate IsItem(t: TargetNode) {
    match t
    case IndexElem(_, plain) => plain
    case ResTarget(name, indirection, val) => !indirection && (name != "" || IsPlainRef(val))
    case OtherTarget => false
  }

  predicate IsAssignment(t: TargetNode) {
    match t
    case IndexElem(_, plain) => plain
    case ResTarget(_, indirection, val) =>
      !indirection && (val.AConst? || val.SetToDefault? || IsPlainRef(val) || IsExpression(val))
    case OtherTarget => false
  }

  predicate IsConflict(c: OnConflict) {
    && !c.action.OtherAction? && !c.hasWhere && !c.inferWhere && c.inferName == ""
    && (forall t | t in c.inferElems :: IsItem(t))
    && (forall t | t in c.targets :: IsItem(t))
  }

  /** VALUES with rows of literals and DEFAULT, and no other clause. */
  predicate IsValuesList(sel: SelectStmt) {
    && sel == SelectStmt({}, [], [], Nil, [], [], NoCount, NoCount, LimitUnset, sel.values)
    && forall row | row in sel.values ::
         row.RowList? && forall item | item in row.items :: item.AConst? || item == SetToDefault
  }

  predicate InInsertDialect(ins: InsertStmt) {
    && !ins.hasWith && !ins.overriding && ins.rel.name != ""
    && (forall t | t in ins.cols :: IsItem(t))
    && (ins.source.NoSource? || (ins.source.SelectSource? && IsValuesList(ins.source.sel)))
    && (forall t | t in ins.returning :: IsItem(t))
    && (ins.onConflict.Some? ==> IsConflict(ins.onConflict.value))
  }

  predicate InUpdateDialect(upd: UpdateStmt) {
    && !upd.hasFrom && !upd.hasWith && upd.rel.name != ""
    && (forall t | t in upd.targets :: IsAssignment(t))
    && (forall t | t in upd.returning :: IsItem(t))
    && IsCondition(upd.where)
  }

  predicate InDeleteDialect(del: DeleteStmt) {
    && !del.hasUsing && !del.hasWith && del.rel.name != ""
    && (forall t | t in del.returning :: IsItem(t))
    && IsCondition(del.where)
  }

  lemma ItemsAccepted(ts: seq<TargetNode>, table: string)
    ensures Collect(ts, ItemWalk(table)).Ok? <==> forall t | t in ts :: IsItem(t)
  {
    CollectAccepts(ts, ItemWalk(table), IsItem);
  }

  lemma AssignmentsAccepted(ts: seq<TargetNode>, table: string)
    ensures Collect(ts, SetWalk(table)).Ok? <==> forall t | t in ts :: IsAssignment(t)
  {
    forall t | t in ts
      ensures SetWalk(table)(t).Ok? <==> IsAssignment(t)
    {
      if t.ResTarget? && t.val.AExpr? {
        ExpressionWhitelist(t.val);
      }
    }
    CollectAccepts(ts, SetWalk(table), IsAssignment);
  }

  /** Every qualifier of a write is a name of its only table. */
  predicate AllNameIt(rel: Relation, cols: seq<Column>) {
    forall c | c in cols :: TableOf(c) in NamesIn([rel]).Keys
  }

  lemma ResolveAccepts(rel: Relation, seed: set<string>, cols: seq<Column>)
    requires rel.name != ""
    ensures Resolve(rel, seed, cols).Ok? <==> AllNameIt(rel, cols)
  {
    NamesInFacts([rel]);
    Grouping(seed, cols, NamesIn([rel]), 1);
  }

  /** Every qualifier in the unnamed items of a list is a name of the only table; items with a
      name of their own have none. */
  predicate ItemsNameIt(rel: Relation, ts: seq<TargetNode>) {
    forall t | t in ts && t.ResTarget? && t.name == "" :: AllNameIt(rel, Refs(t.val))
  }

  predicate AssignmentsNameIt(rel: Relation, ts: seq<TargetNode>) {
    forall t | t in ts && t.ResTarget? :: AllNameIt(rel, Refs(t.val))
  }

  lemma {:induction false} ItemsResolve(rel: Relation, ts: seq<TargetNode>)
    requires rel.name != "" && Collect(ts, ItemWalk(FullName(rel))).Ok?
    ensures AllNameIt(rel, Collect(ts, ItemWalk(FullName(rel))).value) <==> ItemsNameIt(rel, ts)
  {
    if ts != [] {
      var front, last := ts[..|ts| - 1], ts[|ts| - 1];
      var before, found := Collect(front, ItemWalk(FullName(rel))).value, ItemColumns(last, FullName(rel)).value;
      ItemsResolve(rel, front);
      ItemResolves(rel, last);
      assert AllNameIt(rel, before + found) <==> AllNameIt(rel, before) && AllNameIt(rel, found);
      assert ts == front + [last];
      assert forall t :: t in ts <==> t in front || t in [last];
    }
  }

  lemma ItemResolves(rel: Relation, t: TargetNode)
    requires rel.name != "" && ItemColumns(t, FullName(rel)).Ok?
    ensures AllNameIt(rel, ItemColumns(t, FullName(rel)).value) <==> ItemsNameIt(rel, [t])
  {
    OwnNameIsKey(rel);
    assert t in [t];
    var found := ItemColumns(t, FullName(rel)).value;
    assert found == [found[0]] && found[0] in found && (TableOf(found[0]) == FullName(rel) || found == Refs(t.val));
  }

  lemma {:induction false} AssignmentsResolve(rel: Relation, ts: seq<TargetNode>)
    requires rel.name != "" && Collect(ts, SetWalk(FullName(rel))).Ok?
    ensures AllNameIt(rel, Collect(ts, SetWalk(FullName(rel))).value) <==> AssignmentsNameIt(rel, ts)
  {
    if ts != [] {
      var front, last := ts[..|ts| - 1], ts[|ts| - 1];
      var before, found := Collect(front, SetWalk(FullName(rel))).value, SetColumns(last, FullName(rel)).value;
      AssignmentsResolve(rel, front);
      OwnNameIsKey(rel);
      AssignmentResolves(rel, last);
      assert AllNameIt(rel, before + found) <==> AllNameIt(rel, before) && AllNameIt(rel, found);
      assert ts == front + [last];
    }
  }

  lemma AssignmentResolves(rel: Relation, t: TargetNode)
    requires rel.name != "" && SetColumns(t, FullName(rel)).Ok?
    ensures AllNameIt(rel, SetColumns(t, FullName(rel)).value) <==> AssignmentsNameIt(rel, [t])
  {
    OwnNameIsKey(rel);
    assert t in [t];
    if t.ResTarget? {
      if t.val.AExpr? {
        ExpressionWhitelist(t.val);
      }
      var written := Column([FullName(rel)], t.name);
      assert SetColumns(t, FullName(rel)).value == [written] + Refs(t.val);
      assert TableOf(written) == FullName(rel);
    }
  }

  predicate ConflictNamesIt(rel: Relation, conflict: Option<OnConflict>) {
    conflict.Some? ==> ItemsNameIt(rel, conflict.value.inferElems) && ItemsNameIt(rel, conflict.value.targets)
  }

  lemma ConflictResolves(rel: Relation, conflict: Option<OnConflict>)
    requires rel.name != "" && ConflictColumns(conflict, FullName(rel)).Ok?
    ensures AllNameIt(rel, ConflictColumns(conflict, FullName(rel)).value) <==> ConflictNamesIt(rel, conflict)
  {
    if conflict.Some? {
      ItemsResolve(rel, conflict.value.inferElems);
      ItemsResolve(rel, conflict.value.targets);
    }
  }

  lemma InsertWalkAccepted(ins: InsertStmt)
    requires !ins.hasWith && !ins.overriding && ins.rel.name != ""
    ensures InsertColumns(ins).Ok? <==> InInsertDialect(ins)
  {
    var table := FullName(ins.rel);
    ItemsAccepted(ins.cols, table);
    ItemsAccepted(ins.returning, table);
    if ins.onConflict.Some? {
      ItemsAccepted(ins.onConflict.value.inferElems, table);
      ItemsAccepted(ins.onConflict.value.targets, table);
    }
  }

  lemma InsertResolves(ins: InsertStmt)
    requires ins.rel.name != "" && InsertColumns(ins).Ok?
    ensures AllNameIt(ins.rel, InsertColumns(ins).value) <==>
            ItemsNameIt(ins.rel, ins.cols) && ItemsNameIt(ins.rel, ins.returning)
                && ConflictNamesIt(ins.rel, ins.onConflict)
  {
    ItemsResolve(ins.rel, ins.cols);
    ItemsResolve(ins.rel, ins.returning);
    ConflictResolves(ins.rel, ins.onConflict);
  }

  /** An INSERT is accepted exactly if it lies in its dialect and each qualifier written in its
      lists names its table. */
  lemma InsertAccepted(ins: InsertStmt)
    ensures InsertGroups(ins).Ok? <==>
            && InInsertDialect(ins)
            && ItemsNameIt(ins.rel, ins.cols) && ItemsNameIt(ins.rel, ins.returning)
                && ConflictNamesIt(ins.rel, ins.onConflict)
  {
    if !ins.hasWith && !ins.overriding && ins.rel.name != "" {
      InsertWalkAccepted(ins);
      if InsertColumns(ins).Ok? {
        ResolveAccepts(ins.rel, {FullName(ins.rel)}, InsertColumns(ins).value);
        InsertResolves(ins);
      }
    }
  }

  lemma UpdateAccepted(upd: UpdateStmt)
    ensures UpdateGroups(upd).Ok? <==>
            && InUpdateDialect(upd)
            && AssignmentsNameIt(upd.rel, upd.targets) && ItemsNameIt(upd.rel, upd.returning)
            && AllNameIt(upd.rel, Refs(upd.where))
  {
    var table := FullName(upd.rel);
    AssignmentsAccepted(upd.targets, table);
    ItemsAccepted(upd.returning, table);
    ConditionWhitelist(upd.where);
    if upd.rel.name != "" && UpdateColumns(upd).Ok? {
      ResolveAccepts(upd.rel, {}, UpdateColumns(upd).value);
      AssignmentsResolve(upd.rel, upd.targets);
      ItemsResolve(upd.rel, upd.returning);
    }
  }

  lemma DeleteAccepted(del: DeleteStmt)
    ensures DeleteGroups(del).Ok? <==>
            && InDeleteDialect(del)
            && ItemsNameIt(del.rel, del.returning) && AllNameIt(del.rel, Refs(del.where))
  {
    ItemsAccepted(del.returning, FullName(del.rel));
    ConditionWhitelist(del.where);
    if del.rel.name != "" && DeleteColumns(del).Ok? {
      ResolveAccepts(del.rel, {FullName(del.rel)}, DeleteColumns(del).value);
      ItemsResolve(del.rel, del.returning);
    }
  }
}
