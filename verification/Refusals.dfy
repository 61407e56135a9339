/** Why the analyser refuses a statement. It tells two kinds of refusal apart: what it does not
    support, which the gateway calls complicated, and what is wrong. Each kind of refusal has a
    reason of that kind in the statement, read off the tree. */
module Refusals {
  import opened Common
  import opened Ast
  import opened NameGraph
  import opened TableNames
  import opened Columns
  import opened Predicates
  import opened Vectors
  import opened SelectParser
  import opened SelectMeaning
  import opened SelectFootprint
  import opened WriteParser
  import opened Dialect

  /** A refusal of either kind has its reason. */
  predicate HasReason<T>(r: Result<T>, unsupported: bool, wrong: bool) {
    (r == Err(NotImplemented) ==> unsupported) && (r == Err(Invalid) ==> wrong)
  }

  // ---- References -----------------------------------------------------------------------------

  /** No name at all, or more than four of them. */
  predicate IsWrongRef(fields: seq<Field>) {
    (forall f | f in fields :: f.Name?) && (|fields| == 0 || |fields| > 4)
  }

  predicate IsUnsupportedRef(fields: seq<Field>) {
    exists f | f in fields :: !f.Name?
  }

  lemma RefRefusedFor(fields: seq<Field>)
    ensures RefColumn(fields) == Err(NotImplemented) <==> IsUnsupportedRef(fields)
    ensures RefColumn(fields) == Err(Invalid) <==> IsWrongRef(fields)
  {
  }

  lemma {:induction false} SomeElementRefused<T>(xs: seq<T>, f: T -> Result<seq<Column>>)
    requires Collect(xs, f).Err?
    ensures exists x | x in xs :: f(x) == Err(Collect(xs, f).error)
  {
    if Collect(xs[..|xs| - 1], f).Err? {
      SomeElementRefused(xs[..|xs| - 1], f);
      var x :| x in xs[..|xs| - 1] && f(x) == Err(Collect(xs, f).error);
      assert x in xs;
    } else {
      assert xs[|xs| - 1] in xs;
    }
  }

  // ---- Conditions -----------------------------------------------------------------------------

  predicate WrongIn(n: Node)
    decreases n
  {
    match n
    case ColumnRef(fields) => IsWrongRef(fields)
    case AExpr(_, name, l, r) => |name| != 1 || WrongIn(l) || WrongIn(r)
    case NullTest(_, arg) => WrongIn(arg)
    case BoolExpr(_, args) => exists arg | arg in args :: WrongIn(arg)
    case _ => false
  }

  predicate IsUnsupportedOperand(n: Node)
    decreases n, 1
  {
    match n
    case ColumnRef(fields) => IsUnsupportedRef(fields)
    case AExpr(_, _, _, _) => IsUnsupportedExpr(n)
    case _ => true
  }

  predicate IsUnsupportedExpr(n: Node)
    requires n.AExpr?
    decreases n, 0
  {
    || n.kind.OtherKind?
    || (exists o | o in n.name :: !(o.NameString? && IsOperator(o.s)))
    || IsUnsupportedOperand(n.lexpr) || IsUnsupportedRight(n.rexpr)
  }

  predicate IsUnsupportedCondition(n: Node)
    decreases n
  {
    match n
    case Nil => false
    case AExpr(_, _, _, _) => IsUnsupportedExpr(n)
    case NullTest(_, arg) => IsUnsupportedOperand(arg)
    case BoolExpr(_, args) => exists arg | arg in args :: arg.Nil? || IsUnsupportedCondition(arg)
    case _ => true
  }

  predicate IsUnsupportedRight(n: Node) {
    match n
    case AConst(_) => false
    case ColumnRef(fields) => IsUnsupportedRef(fields)
    case NodeList(items) => exists item | item in items :: !item.AConst?
    case _ => true
  }

  lemma RightRefusedFor(n: Node)
    ensures HasReason(RightColumns(n), IsUnsupportedRight(n), WrongIn(n))
  {
    if n.ColumnRef? {
      RefRefusedFor(n.fields);
    }
  }

  lemma OperatorRefusedFor(n: Node)
    requires n.AExpr?
    ensures OperatorError(n) == Some(NotImplemented) ==>
              n.kind.OtherKind? || exists o | o in n.name :: !(o.NameString? && IsOperator(o.s))
    ensures OperatorError(n) == Some(Invalid) ==> |n.name| != 1
  {
    if |n.name| == 1 {
      assert n.name[0] in n.name;
    }
  }

  lemma {:induction false} ExpressionRefusedFor(n: Node)
    requires n.AExpr?
    ensures HasReason(ExprColumns(n), IsUnsupportedExpr(n), WrongIn(n))
    decreases n, 0
  {
    OperatorRefusedFor(n);
    LeftRefusedFor(n.lexpr);
    RightRefusedFor(n.rexpr);
  }

  lemma {:induction false} LeftRefusedFor(n: Node)
    ensures HasReason(LeftColumns(n), IsUnsupportedOperand(n), WrongIn(n))
    decreases n, 1
  {
    match n
    case AExpr(_, _, _, _) => ExpressionRefusedFor(n);
    case ColumnRef(fields) => RefRefusedFor(fields);
    case _ =>
  }

  lemma {:induction false} ConditionRefusedFor(n: Node)
    ensures HasReason(ConditionColumns(n), IsUnsupportedCondition(n), WrongIn(n))
    decreases n, 2
  {
    match n
    case BoolExpr(_, args) => ArgsRefusedFor(args);
    case AExpr(_, _, _, _) => ExpressionRefusedFor(n);
    case NullTest(_, arg) => LeftRefusedFor(arg);
    case _ =>
  }

  lemma {:induction false} ArgsRefusedFor(args: seq<Node>)
    ensures HasReason(Predicates.ArgColumns(args),
                      exists arg | arg in args :: arg.Nil? || IsUnsupportedCondition(arg),
                      exists arg | arg in args :: WrongIn(arg))
    decreases args, 3
  {
    if args != [] {
      var front, arg := args[..|args| - 1], args[|args| - 1];
      ArgsRefusedFor(front);
      ConditionRefusedFor(arg);
      assert args == front + [arg];
      assert arg in args && forall a | a in front :: a in args;
    }
  }

  // ---- SELECT ---------------------------------------------------------------------------------

  predicate IsUnsupportedFrom(from: FromItem) {
    match from
    case RangeVar(_) => false
    case OtherFrom => true
    case JoinExpr(_, natural, using, usingAlias, aliased, l, r, on) =>
      || natural || using || usingAlias || aliased
      || IsUnsupportedFrom(l) || IsUnsupportedFrom(r) || IsUnsupportedCondition(on)
  }

  predicate IsWrongFrom(from: FromItem) {
    match from
    case RangeVar(rel) => rel.name == ""
    case OtherFrom => false
    case JoinExpr(_, _, _, _, _, l, r, on) => IsWrongFrom(l) || IsWrongFrom(r) || WrongIn(on)
  }

  lemma {:induction false} FromRefusedFor(from: FromItem)
    ensures FromError(from) == Some(NotImplemented) ==> IsUnsupportedFrom(from)
    ensures FromError(from) == Some(Invalid) ==> IsWrongFrom(from)
    ensures HasReason(JoinColumns(from), IsUnsupportedFrom(from), IsWrongFrom(from))
  {
    match from
    case JoinExpr(_, _, _, _, _, l, r, on) =>
      FromRefusedFor(l);
      FromRefusedFor(r);
      ConditionRefusedFor(on);
    case _ =>
  }

  /** A call takes columns and whole rows; any other argument is wrong. */
  predicate IsWrongTarget(t: TargetNode) {
    && t.ResTarget?
    && match t.val
       case ColumnRef(fields) => IsWrongRef(fields)
       case FuncCall(_, args, _, _, _, _) => exists arg | arg in args :: !arg.ColumnRef? || IsWrongRef(arg.fields)
       case _ => false
  }

  predicate IsUnsupportedTarget(t: TargetNode) {
    || !t.ResTarget? || t.indirection
    || match t.val
       case ColumnRef(fields) => IsUnsupportedRef(fields)
       case FuncCall(names, args, _, over, filtered, ordered) =>
         || over || filtered || ordered
         || |names| != 1 || !names[0].NameString? || !IsFunctionName(names[0].s)
         || exists arg | arg in args :: arg.ColumnRef? && IsUnsupportedRef(arg.fields)
       case _ => true
  }

  predicate IsWrongSort(s: SortNode) {
    s.SortBy? && s.node.ColumnRef? && IsWrongRef(s.node.fields)
  }

  predicate IsUnsupportedSort(s: SortNode) {
    !s.SortBy? || s.useOp || !s.node.ColumnRef? || IsUnsupportedRef(s.node.fields)
  }

  predicate IsUnsupportedGroup(n: Node) {
    !n.ColumnRef? || IsUnsupportedRef(n.fields)
  }

  lemma TargetRefusedFor(t: TargetNode)
    ensures HasReason(TargetColumns(t), IsUnsupportedTarget(t), IsWrongTarget(t))
  {
    if t.ResTarget? && !t.indirection {
      match t.val
      case ColumnRef(fields) => RefRefusedFor(fields);
      case FuncCall(names, args, _, _, _, _) =>
        if |names| == 1 && names[0].NameString? {
          AllowedNames(names[0].s);
        }
        if Collect(args, SelectParser.ArgColumns).Err? {
          SomeElementRefused(args, SelectParser.ArgColumns);
        }
      case _ =>
    }
  }

  predicate WalkUnsupported(sel: SelectStmt)
    requires |sel.from| == 1
  {
    || (exists t | t in sel.targets :: IsUnsupportedTarget(t))
    || IsUnsupportedCondition(sel.where) || IsUnsupportedFrom(sel.from[0])
    || (exists s | s in sel.sort :: IsUnsupportedSort(s))
    || exists n | n in sel.group :: IsUnsupportedGroup(n)
  }

  predicate WalkWrong(sel: SelectStmt)
    requires |sel.from| == 1
  {
    || (exists t | t in sel.targets :: IsWrongTarget(t))
    || WrongIn(sel.where) || IsWrongFrom(sel.from[0])
    || (exists s | s in sel.sort :: IsWrongSort(s))
    || exists n | n in sel.group :: n.ColumnRef? && IsWrongRef(n.fields)
  }

  lemma WalkRefusedFor(sel: SelectStmt)
    requires |sel.from| == 1
    ensures HasReason(StatementColumns(sel), WalkUnsupported(sel), WalkWrong(sel))
  {
    if Collect(sel.targets, TargetColumns).Err? {
      SomeElementRefused(sel.targets, TargetColumns);
      var t :| t in sel.targets && TargetColumns(t) == Err(Collect(sel.targets, TargetColumns).error);
      TargetRefusedFor(t);
    }
    ConditionRefusedFor(sel.where);
    FromRefusedFor(sel.from[0]);
    if Collect(sel.sort, SortColumns).Err? {
      SomeElementRefused(sel.sort, SortColumns);
    }
    if Collect(sel.group, GroupColumns).Err? {
      SomeElementRefused(sel.group, GroupColumns);
    }
  }

  lemma {:induction false} GroupingRefusedFor(seed: set<string>, cols: seq<Column>, m: Edges, sources: nat)
    requires Acyclic(m)
    ensures HasReason(Distribute(seed, cols, m, sources),
                      exists c | c in cols :: TableOf(c) == "" && sources > 1,
                      exists c | c in cols :: TableOf(c) !in m)
  {
    if cols != [] {
      GroupingRefusedFor(seed, cols[..|cols| - 1], m, sources);
      assert cols[|cols| - 1] in cols && forall c | c in cols[..|cols| - 1] :: c in cols;
    }
  }

  /** A SELECT that is refused as complicated has an unsupported part or an unqualified reference
      among several sources; one that is refused as wrong has not exactly one FROM item, a
      reference without or with too many names, a call on something that is neither column nor
      row, a nameless source, an operator of several names, or an unknown qualifier. */
  lemma SelectRefusedFor(sel: SelectStmt)
    ensures HasReason(SelectGroups(sel),
                      || sel.clauses != {} || sel.values != []
                      || (|sel.from| == 1 && (|| WalkUnsupported(sel)
                                              || exists c | c in StatementRefs(sel) ::
                                                   TableOf(c) == "" && |Leaves(sel.from[0])| > 1)),
                      || |sel.from| != 1 || WalkWrong(sel)
                      || exists c | c in StatementRefs(sel) :: TableOf(c) !in NamesIn(Leaves(sel.from[0])))
  {
    if |sel.from| == 1 {
      var from := sel.from[0];
      FromRefusedFor(from);
      WalkRefusedFor(sel);
      if FromError(from).None? && StatementColumns(sel).Ok? {
        StatementWalked(sel);
        FromSourcesAreNamed(from);
        GroupingRefusedFor(FullNamesOf(from), StatementRefs(sel), NamesIn(Leaves(from)), |Leaves(from)|);
      }
    }
  }

  // ---- Writes ---------------------------------------------------------------------------------

  predicate IsWrongItem(t: TargetNode) {
    t.ResTarget? && t.val.ColumnRef? && IsWrongRef(t.val.fields)
  }

  predicate IsUnsupportedItem(t: TargetNode) {
    match t
    case IndexElem(_, plain) => !plain
    case ResTarget(name, indirection, val) =>
      indirection || (name == "" && (!val.ColumnRef? || IsUnsupportedRef(val.fields)))
    case OtherTarget => true
  }

  predicate IsWrongAssignment(t: TargetNode) {
    t.ResTarget? && WrongIn(t.val)
  }

  predicate IsUnsupportedAssignment(t: TargetNode) {
    match t
    case IndexElem(_, plain) => !plain
    case ResTarget(_, indirection, val) => indirection || (!val.AConst? && !val.SetToDefault?
                                                           && IsUnsupportedOperand(val))
    case OtherTarget => true
  }

  lemma ItemsRefusedFor(ts: seq<TargetNode>, table: string)
    ensures HasReason(Collect(ts, ItemWalk(table)), exists t | t in ts :: IsUnsupportedItem(t),
                      exists t | t in ts :: IsWrongItem(t))
  {
    if Collect(ts, ItemWalk(table)).Err? {
      SomeElementRefused(ts, ItemWalk(table));
    }
  }

  lemma AssignmentsRefusedFor(ts: seq<TargetNode>, table: string)
    ensures HasReason(Collect(ts, SetWalk(table)), exists t | t in ts :: IsUnsupportedAssignment(t),
                      exists t | t in ts :: IsWrongAssignment(t))
  {
    if Collect(ts, SetWalk(table)).Err? {
      SomeElementRefused(ts, SetWalk(table));
      var t :| t in ts && SetWalk(table)(t) == Err(Collect(ts, SetWalk(table)).error);
      if t.ResTarget? && t.val.AExpr? {
        ExpressionRefusedFor(t.val);
      }
    }
  }

  /** Over one table, a write whose lists and condition are supported can only be refused for a
      qualifier that does not name the table, which is wrong and not complicated. */
  lemma ResolveRefusedFor(rel: Relation, seed: set<string>, cols: seq<Column>)
    requires rel.name != ""
    ensures HasReason(Resolve(rel, seed, cols), false, !AllNameIt(rel, cols))
  {
    NamesInFacts([rel]);
    GroupingRefusedFor(seed, cols, NamesIn([rel]), 1);
  }

  predicate ConflictUnsupported(conflict: Option<OnConflict>) {
    conflict.Some? &&
    var c := conflict.value;
    || c.action.OtherAction? || c.hasWhere || c.inferWhere || c.inferName != ""
    || exists t | t in c.inferElems + c.targets :: IsUnsupportedItem(t)
  }

  predicate ConflictWrong(conflict: Option<OnConflict>) {
    conflict.Some? && exists t | t in conflict.value.inferElems + conflict.value.targets :: IsWrongItem(t)
  }

  lemma ConflictRefusedFor(conflict: Option<OnConflict>, table: string)
    ensures HasReason(ConflictColumns(conflict, table), ConflictUnsupported(conflict), ConflictWrong(conflict))
  {
    if conflict.Some? {
      var c := conflict.value;
      ItemsRefusedFor(c.inferElems, table);
      ItemsRefusedFor(c.targets, table);
      assert forall t | t in c.inferElems || t in c.targets :: t in c.inferElems + c.targets;
    }
  }

  lemma InsertRefusedFor(ins: InsertStmt)
    ensures HasReason(InsertGroups(ins),
                      || ins.hasWith || ins.overriding || (exists t | t in ins.cols + ins.returning ::
                                                           IsUnsupportedItem(t))
                      || ins.source.OtherSource? || (ins.source.SelectSource? && !IsValuesList(ins.source.sel))
                      || ConflictUnsupported(ins.onConflict),
                      || ins.rel.name == "" || (exists t | t in ins.cols + ins.returning :: IsWrongItem(t))
                      || ConflictWrong(ins.onConflict)
                      || !ItemsNameIt(ins.rel, ins.cols) || !ItemsNameIt(ins.rel, ins.returning)
                      || !ConflictNamesIt(ins.rel, ins.onConflict))
  {
    var table := FullName(ins.rel);
    ItemsRefusedFor(ins.cols, table);
    ItemsRefusedFor(ins.returning, table);
    ConflictRefusedFor(ins.onConflict, table);
    assert forall t | t in ins.cols || t in ins.returning :: t in ins.cols + ins.returning;
    if ins.rel.name != "" && InsertColumns(ins).Ok? {
      ResolveRefusedFor(ins.rel, {table}, InsertColumns(ins).value);
      InsertResolves(ins);
    }
  }

  lemma UpdateRefusedFor(upd: UpdateStmt)
    ensures HasReason(UpdateGroups(upd),
                      || upd.hasFrom || upd.hasWith || (exists t | t in upd.targets :: IsUnsupportedAssignment(t))
                      || (exists t | t in upd.returning :: IsUnsupportedItem(t)) || IsUnsupportedCondition(upd.where),
                      || upd.rel.name == "" || (exists t | t in upd.targets :: IsWrongAssignment(t))
                      || (exists t | t in upd.returning :: IsWrongItem(t)) || WrongIn(upd.where)
                      || !AssignmentsNameIt(upd.rel, upd.targets) || !ItemsNameIt(upd.rel, upd.returning)
                      || !AllNameIt(upd.rel, Refs(upd.where)))
  {
    var table := FullName(upd.rel);
    AssignmentsRefusedFor(upd.targets, table);
    ItemsRefusedFor(upd.returning, table);
    ConditionRefusedFor(upd.where);
    if upd.rel.name != "" && UpdateColumns(upd).Ok? {
      ResolveRefusedFor(upd.rel, {}, UpdateColumns(upd).value);
      ConditionWhitelist(upd.where);
      AssignmentsResolve(upd.rel, upd.targets);
      ItemsResolve(upd.rel, upd.returning);
    }
  }

  lemma DeleteRefusedFor(del: DeleteStmt)
    ensures HasReason(DeleteGroups(del),
                      || del.hasUsing || del.hasWith || (exists t | t in del.returning :: IsUnsupportedItem(t))
                      || IsUnsupportedCondition(del.where),
                      || del.rel.name == "" || (exists t | t in del.returning :: IsWrongItem(t)) || WrongIn(del.where)
                      || !ItemsNameIt(del.rel, del.returning) || !AllNameIt(del.rel, Refs(del.where)))
  {
    var table := FullName(del.rel);
    ItemsRefusedFor(del.returning, table);
    ConditionRefusedFor(del.where);
    if del.rel.name != "" && DeleteColumns(del).Ok? {
      ResolveRefusedFor(del.rel, {table}, DeleteColumns(del).value);
      ConditionWhitelist(del.where);
      ItemsResolve(del.rel, del.returning);
    }
  }
}
