/** The part of the PostgreSQL syntax tree the gateway walks. Every type switch of the
    walkers has a constructor here for its `default` branch (`Other...`), and a clause
    that is only tested for presence is a member of a set or a flag. */
module Ast {
  import opened Common

  datatype Value = Null | Bool(b: bool) | Int(i: int) | Text(s: string)

  datatype Field = Name(s: string) | Star | ConstField | OtherField

  datatype ExprKind = KindOp | KindIn | KindLike | KindILike | KindBetween | OtherKind

  datatype NameNode = NameString(s: string) | OtherName

  datatype BoolOp = And | Or | Not

  datatype Node =
    | Nil
    | ColumnRef(fields: seq<Field>)
    | AConst(value: Value)
    | SetToDefault
    | AExpr(kind: ExprKind, name: seq<NameNode>, lexpr: Node, rexpr: Node)
    | BoolExpr(op: BoolOp, args: seq<Node>)
    | NullTest(isNull: bool, arg: Node)
    | NodeList(items: seq<Node>)
    | FuncCall(funcname: seq<NameNode>, args: seq<Node>, distinct: bool,
               over: bool, filtered: bool, ordered: bool)
    | OtherNode

  /** A table in a FROM clause or the target of a write; an absent catalog, schema or
      alias is the empty string, as the accessors of the syntax tree return it. The columns
      are the list an alias may carry, as in `clients AS c(x, y)`. */
  datatype Relation = Relation(catalog: string, schema: string, name: string, alias: string, columns: seq<string>)

  datatype JoinKind = InnerJoin | LeftJoin | RightJoin | FullJoin

  datatype FromItem =
    | RangeVar(rel: Relation)
    | JoinExpr(kind: JoinKind, natural: bool, using: bool, usingAlias: bool, aliased: bool,
               larg: FromItem, rarg: FromItem, quals: Node)
    | OtherFrom

  datatype TargetNode =
    | ResTarget(name: string, indirection: bool, val: Node)
    | IndexElem(column: string, plain: bool)
    | OtherTarget

  datatype SortDir = SortDefault | SortAsc | SortDesc

  datatype SortNode = SortBy(useOp: bool, dir: SortDir, node: Node) | OtherSort

  /** A row count in LIMIT or OFFSET: absent, a constant, or any other expression,
      named by a number. */
  datatype RowCount = NoCount | ConstCount(n: nat) | OtherCount(id: nat)

  datatype ValuesRow = RowList(items: seq<Node>) | OtherRow

  datatype LimitOption = LimitUnset | LimitPlain | LimitWithTies

  datatype SelectClause =
    DistinctRows | Into | Having | Window | GroupDistinct | SetOperation | Locking | With | Larg | Rarg | All

  datatype SelectStmt = SelectStmt(
    clauses: set<SelectClause>,
    targets: seq<TargetNode>,
    from: seq<FromItem>,
    where: Node,
    group: seq<Node>,
    sort: seq<SortNode>,
    limit: RowCount,
    offset: RowCount,
    limitOption: LimitOption,
    values: seq<ValuesRow>)

  datatype InsertSource = NoSource | SelectSource(sel: SelectStmt) | OtherSource

  datatype ConflictAction = ConflictNone | ConflictNothing | ConflictUpdate | OtherAction

  datatype OnConflict = OnConflict(
    action: ConflictAction,
    hasWhere: bool,
    inferWhere: bool,
    inferName: string,
    inferElems: seq<TargetNode>,
    targets: seq<TargetNode>)

  datatype InsertStmt = InsertStmt(
    rel: Relation,
    hasWith: bool,
    overriding: bool,
    cols: seq<TargetNode>,
    source: InsertSource,
    returning: seq<TargetNode>,
    onConflict: Option<OnConflict>)

  datatype UpdateStmt = UpdateStmt(
    rel: Relation,
    hasFrom: bool,
    hasWith: bool,
    targets: seq<TargetNode>,
    where: Node,
    returning: seq<TargetNode>)

  datatype DeleteStmt = DeleteStmt(
    rel: Relation,
    hasUsing: bool,
    hasWith: bool,
    where: Node,
    returning: seq<TargetNode>)

  datatype Statement =
    | Select(sel: SelectStmt)
    | Insert(ins: InsertStmt)
    | Update(upd: UpdateStmt)
    | Delete(del: DeleteStmt)
    | OtherStatement

  /** What the SQL text parser hands over. */
  datatype ParseTree = SyntaxError | Statements(stmts: seq<Statement>)
}
