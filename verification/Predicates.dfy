/** The expression whitelist: comparisons and conditions in WHERE, ON and SET. */
module Predicates {
  import opened Common
  import opened Ast
  import opened Columns

  const ALLOWED_OPERATORS := {"*", "-", "+", "=", ">", "<", "<=", ">=", "!=", "<>", "~~", "||", "BETWEEN"}

  // ---- The reference traversal and the grammar ------------------------------------------

  /** Every column reference anywhere in a tree, in order, whatever kind of node holds it. */
  function Refs(n: Node): seq<Column>
    decreases n
  {
    match n
    case ColumnRef(fields) => [Denoted(fields)]
    case AExpr(_, _, l, r) => Refs(l) + Refs(r)
    case BoolExpr(_, args) => RefsOfAll(args)
    case NullTest(_, arg) => Refs(arg)
    case NodeList(items) => RefsOfAll(items)
    case FuncCall(_, args, _, _, _, _) => RefsOfAll(args)
    case _ => []
  }

  function RefsOfAll(ns: seq<Node>): seq<Column>
    decreases ns
  {
    if ns == [] then [] else RefsOfAll(ns[..|ns| - 1]) + Refs(ns[|ns| - 1])
  }

  /** Arithmetic, comparison, LIKE, concatenation and BETWEEN. */
  predicate IsOperator(s: string) {
    || s == "*" || s == "-" || s == "+"
    || s == "=" || s == ">" || s == "<" || s == "<=" || s == ">=" || s == "!=" || s == "<>"
    || s == "~~" || s == "||" || s == "BETWEEN"
  }

  /** `left op right`: the left side a column or another such expression, the right side a
      column, a constant or a list of constants. */
  predicate IsExpression(n: Node)
    decreases n
  {
    && n.AExpr?
    && (n.kind.KindOp? || n.kind.KindIn? || n.kind.KindLike? || n.kind.KindILike? || n.kind.KindBetween?)
    && |n.name| == 1 && n.name[0].NameString? && IsOperator(n.name[0].s)
    && (match n.lexpr
        case ColumnRef(fields) => PlainRef(fields)
        case _ => IsExpression(n.lexpr))
    && (match n.rexpr
        case AConst(_) => true
        case ColumnRef(fields) => PlainRef(fields)
        case NodeList(items) => forall item | item in items :: item.AConst?
        case _ => false)
  }

  /** A condition: nothing at all, an expression, a null test of a column or an expression,
      or a boolean combination of conditions none of which is absent. */
  predicate IsCondition(n: Node)
    decreases n
  {
    match n
    case Nil => true
    case AExpr(_, _, _, _) => IsExpression(n)
    case NullTest(_, ColumnRef(fields)) => PlainRef(fields)
    case NullTest(_, arg) => IsExpression(arg)
    case BoolExpr(_, args) => forall arg | arg in args :: !arg.Nil? && IsCondition(arg)
    case _ => false
  }

  // ---- The walkers ----------------------------------------------------------------------

  function OperatorError(n: Node): Option<Failure>
    requires n.AExpr?
  {
    if n.kind.OtherKind? then Some(NotImplemented)
    else if |n.name| != 1 then Some(Invalid)
    else if n.name[0].NameString? && n.name[0].s in ALLOWED_OPERATORS then None
    else Some(NotImplemented)
  }

  function LeftColumns(n: Node): Result<seq<Column>>
    decreases n, 1
  {
    match n
    case AExpr(_, _, _, _) => ExprColumns(n)
    case ColumnRef(fields) => var c :- RefColumn(fields); Ok([c])
    case _ => Err(NotImplemented)
  }

  function RightColumns(n: Node): Result<seq<Column>> {
    match n
    case AConst(_) => Ok([])
    case ColumnRef(fields) => var c :- RefColumn(fields); Ok([c])
    case NodeList(items) => if forall item | item in items :: item.AConst? then Ok([]) else Err(NotImplemented)
    case _ => Err(NotImplemented)
  }

  /** The columns of an expression, left to right, or the first error. */
  function ExprColumns(n: Node): Result<seq<Column>>
    requires n.AExpr?
    decreases n, 0
  {
    match OperatorError(n)
    case Some(e) => Err(e)
    case None =>
      var left :- LeftColumns(n.lexpr);
      var right :- RightColumns(n.rexpr);
      Ok(left + right)
  }

  function ConditionColumns(n: Node): Result<seq<Column>>
    decreases n, 0
  {
    match n
    case Nil => Ok([])
    case BoolExpr(_, args) => ArgColumns(args)
    case AExpr(_, _, _, _) => ExprColumns(n)
    case NullTest(_, arg) => LeftColumns(arg)
    case _ => Err(NotImplemented)
  }

  function ArgColumns(args: seq<Node>): Result<seq<Column>>
    decreases args, 1
  {
    if args == [] then Ok([])
    else
      var front :- ArgColumns(args[..|args| - 1]);
      var arg := args[|args| - 1];
      var last :- if arg.NullTest? || arg.BoolExpr? || arg.AExpr? then ConditionColumns(arg) else Err(NotImplemented);
      Ok(front + last)
  }

  method ParseAexpr(n: Node) returns (r: Result<seq<Column>>)
    requires n.AExpr?
    ensures r == ExprColumns(n)
    decreases n
  {
    var columns: seq<Column> := [];
    if n.kind.OtherKind? {
      return Err(NotImplemented);
    }
    if |n.name| != 1 {
      return Err(Invalid);
    }
    match n.name[0] {
      case NameString(s) =>
        if s !in ALLOWED_OPERATORS {
          return Err(NotImplemented);
        }
      case _ => return Err(NotImplemented);
    }

    match n.lexpr {
      case AExpr(_, _, _, _) =>
        var nested := ParseAexpr(n.lexpr);
        if nested.Err? {
          return nested;
        }
        columns := columns + nested.value;
        assert columns == nested.value;
      case ColumnRef(fields) =>
        var column := PNodeColumnRef(fields);
        if column.Err? {
          return Err(column.error);
        }
        columns := columns + [column.value];
        assert columns == [column.value];
      case _ => return Err(NotImplemented);
    }

    assert LeftColumns(n.lexpr) == Ok(columns);
    ghost var left := columns;
    match n.rexpr {
      case AConst(_) =>
      case ColumnRef(fields) =>
        var column := PNodeColumnRef(fields);
        if column.Err? {
          return Err(column.error);
        }
        columns := columns + [column.value];
      case NodeList(items) =>
        for i := 0 to |items|
          invariant forall k | 0 <= k < i :: items[k].AConst?
        {
          if !items[i].AConst? {
            return Err(NotImplemented);
          }
        }
      case _ => return Err(NotImplemented);
    }
    assert left + [] == left;
    assert RightColumns(n.rexpr).Ok? && columns == left + RightColumns(n.rexpr).value;
    return Ok(columns);
  }

  method ParseWhereClause(n: Node) returns (r: Result<seq<Column>>)
    ensures r == ConditionColumns(n)
    decreases n
  {
    var columns: seq<Column> := [];
    match n {
      case Nil =>
      case BoolExpr(_, args) =>
        for i := 0 to |args|
          invariant ArgColumns(args[..i]) == Ok(columns)
        {
          ArgStep(args, i);
          var arg := args[i];
          if arg.NullTest? || arg.BoolExpr? || arg.AExpr? {
            var cols := ParseWhereClause(arg);
            if cols.Err? {
              return cols;
            }
            columns := columns + cols.value;
          } else {
            return Err(NotImplemented);
          }
        }
        assert args[..|args|] == args;
      case AExpr(_, _, _, _) =>
        var cols := ParseAexpr(n);
        if cols.Err? {
          return cols;
        }
        columns := columns + cols.value;
        assert columns == cols.value;
      case NullTest(_, ColumnRef(fields)) =>
        var column := PNodeColumnRef(fields);
        if column.Err? {
          return Err(column.error);
        }
        columns := columns + [column.value];
        assert columns == [column.value];
      case NullTest(_, AExpr(k, o, l, e)) =>
        var cols := ParseAexpr(n.arg);
        if cols.Err? {
          return cols;
        }
        columns := columns + cols.value;
        assert columns == cols.value;
      case _ => return Err(NotImplemented);
    }
    return Ok(columns);
  }

  lemma ArgStep(args: seq<Node>, i: nat)
    requires i < |args| && ArgColumns(args[..i]).Ok?
    ensures var step := if args[i].NullTest? || args[i].BoolExpr? || args[i].AExpr?
                        then ConditionColumns(args[i]) else Err(NotImplemented);
            && (step.Ok? ==> ArgColumns(args[..i + 1]) == Ok(ArgColumns(args[..i]).value + step.value))
            && (step.Err? ==> ArgColumns(args) == Err(step.error))
  {
    assert args[..i + 1][..i] == args[..i];
    if ArgColumns(args[..i + 1]).Err? {
      ArgsKeepError(args, i + 1);
    }
  }

  lemma {:induction false} ArgsKeepError(args: seq<Node>, n: nat)
    requires n <= |args| && ArgColumns(args[..n]).Err?
    ensures ArgColumns(args) == ArgColumns(args[..n])
    decreases |args|
  {
    if n < |args| {
      assert args[..|args| - 1][..n] == args[..n];
      ArgsKeepError(args[..|args| - 1], n);
    } else {
      assert args[..n] == args;
    }
  }

  // ---- The walkers accept exactly the grammar, and miss no reference --------------------

  lemma {:induction false} ExpressionWhitelist(n: Node)
    requires n.AExpr?
    ensures ExprColumns(n).Ok? <==> IsExpression(n)
    ensures ExprColumns(n).Ok? ==> ExprColumns(n).value == Refs(n)
    decreases n
  {
    if n.lexpr.AExpr? {
      ExpressionWhitelist(n.lexpr);
    }
    if n.rexpr.NodeList? && forall item | item in n.rexpr.items :: item.AConst? {
      ConstantsHoldNoRefs(n.rexpr.items);
    }
  }

  lemma {:induction false} ConstantsHoldNoRefs(items: seq<Node>)
    requires forall item | item in items :: item.AConst?
    ensures RefsOfAll(items) == []
  {
    if items != [] {
      ConstantsHoldNoRefs(items[..|items| - 1]);
    }
  }

  /** A condition is accepted if and only if it lies in the grammar, and the columns found
      are then exactly its references, in order. */
  lemma {:induction false} ConditionWhitelist(n: Node)
    ensures ConditionColumns(n).Ok? <==> IsCondition(n)
    ensures ConditionColumns(n).Ok? ==> ConditionColumns(n).value == Refs(n)
    decreases n, 0
  {
    match n
    case BoolExpr(_, args) => ArgsWhitelist(args);
    case AExpr(_, _, _, _) => ExpressionWhitelist(n);
    case NullTest(_, arg) =>
      if arg.AExpr? {
        ExpressionWhitelist(arg);
      }
    case _ =>
  }

  lemma {:induction false} ArgsWhitelist(args: seq<Node>)
    ensures ArgColumns(args).Ok? <==> forall arg | arg in args :: !arg.Nil? && IsCondition(arg)
    ensures ArgColumns(args).Ok? ==> ArgColumns(args).value == RefsOfAll(args)
    decreases args, 1
  {
    if args != [] {
      var front, arg := args[..|args| - 1], args[|args| - 1];
      ArgsWhitelist(front);
      ConditionWhitelist(arg);
      assert args == front + [arg];
    }
  }
}
