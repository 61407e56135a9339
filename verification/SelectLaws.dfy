/** What ties the meaning of statements down: the laws every implementation of these clauses
    obeys, whatever order it takes rows in. */
module SelectLaws {
  import opened Common
  import opened Ast
  import opened Relational
  import opened SelectMeaning
  import opened WriteFootprint
  import opened InsertFootprint

  // ---- Conditions -----------------------------------------------------------------------------

  /** False below unknown below true. */
  function Degree(v: Value): int {
    if v == Bool(true) then 2 else if v == Bool(false) then 0 else 1
  }

  predicate IsTruth(v: Value) {
    v.Bool? || v == Null
  }

  /** AND is the least and OR the greatest of its arguments, and NOT turns the order around. */
  lemma TruthOrder(vals: seq<Value>, v: Value)
    requires (forall x | x in vals :: IsTruth(x)) && IsTruth(v)
    ensures forall x | x in vals :: Degree(Combine(And, vals)) <= Degree(x) <= Degree(Combine(Or, vals))
    ensures vals != [] ==> exists x | x in vals :: Degree(x) == Degree(Combine(And, vals))
    ensures vals != [] ==> exists x | x in vals :: Degree(x) == Degree(Combine(Or, vals))
    ensures Degree(Combine(Not, [v])) == 2 - Degree(v)
  {
    if vals != [] {
      assert vals[0] in vals;
    }
  }

  ghost function IfHolds(ops: Ops, scope: seq<Relation>, cond: Node, t: Tuple): seq<Tuple> {
    if Holds(ops, scope, t, cond) then [t] else []
  }

  lemma IfHoldsExactly(ops: Ops, scope: seq<Relation>, cond: Node, x: Tuple, t: Tuple)
    ensures multiset(IfHolds(ops, scope, cond, x))[t] == if Holds(ops, scope, t, cond) then multiset([x])[t] else 0
  {
  }

  lemma {:induction false} WhereCount(ops: Ops, scope: seq<Relation>, cond: Node, ts: seq<Tuple>, t: Tuple,
                                      passes: bool)
    requires passes == Holds(ops, scope, t, cond)
    ensures multiset(Where(ops, scope, cond, ts))[t] == if passes then multiset(ts)[t] else 0
  {
    if ts != [] {
      var front, last := ts[..|ts| - 1], ts[|ts| - 1];
      var before, kept := Where(ops, scope, cond, front), IfHolds(ops, scope, cond, last);
      WhereCount(ops, scope, cond, front, t, passes);
      IfHoldsExactly(ops, scope, cond, last, t);
      CountConcat(before, kept, t);
      CountConcat(front, [last], t);
      assert ts == front + [last] && Where(ops, scope, cond, ts) == before + kept;
    }
  }

  /** WHERE keeps every row that passes as often as it was there, and no other. */
  lemma WhereExactly(ops: Ops, scope: seq<Relation>, cond: Node, ts: seq<Tuple>, t: Tuple)
    ensures multiset(Where(ops, scope, cond, ts))[t] == if Holds(ops, scope, t, cond) then multiset(ts)[t] else 0
  {
    WhereCount(ops, scope, cond, ts, t, Holds(ops, scope, t, cond));
  }

  /** A condition that is unknown lets no row pass, and neither does its negation. */
  lemma UnknownDoesNotPass(ops: Ops, scope: seq<Relation>, t: Tuple, n: Node)
    requires !n.Nil? && Eval(ops, scope, t, n) == Null
    ensures !Holds(ops, scope, t, n) && !Holds(ops, scope, t, BoolExpr(Not, [n]))
  {
    assert [n][..0] == [];
    assert EvalAll(ops, scope, t, [n]) == [Null];
  }

  /** An alias hides the name of the table. */
  lemma AliasHidesName(rel: Relation)
    requires rel.name != ""
    ensures KnownAs(rel, [rel.name]) <==> rel.alias == "" || rel.alias == rel.name
    ensures rel.alias != "" ==> KnownAs(rel, [rel.alias])
  {
  }

  // ---- Joins ----------------------------------------------------------------------------------

  ghost predicate Pairs(ops: Ops, scope: seq<Relation>, on: Node, l: Tuple, r: Tuple) {
    Holds(ops, scope, l + r, on)
  }

  ghost predicate HasMatch(ops: Ops, scope: seq<Relation>, on: Node, l: Tuple, rs: seq<Tuple>, t: Tuple) {
    exists r | r in rs :: Pairs(ops, scope, on, l, r) && t == l + r
  }

  lemma OneMoreMatch(ops: Ops, scope: seq<Relation>, on: Node, l: Tuple, rs: seq<Tuple>, r: Tuple, t: Tuple)
    ensures HasMatch(ops, scope, on, l, rs + [r], t) <==>
            HasMatch(ops, scope, on, l, rs, t) || (Pairs(ops, scope, on, l, r) && t == l + r)
  {
    assert forall x :: x in rs + [r] <==> x in rs || x == r;
  }

  lemma {:induction false} MatchesExactly(ops: Ops, scope: seq<Relation>, on: Node, l: Tuple, rs: seq<Tuple>, t: Tuple)
    ensures t in MatchesOf(ops, scope, on, l, rs) <==> HasMatch(ops, scope, on, l, rs, t)
  {
    if rs != [] {
      var front, last := rs[..|rs| - 1], rs[|rs| - 1];
      MatchesExactly(ops, scope, on, l, front, t);
      OneMoreMatch(ops, scope, on, l, front, last, t);
      assert rs == front + [last];
    }
  }

  ghost predicate LeftAlone(ops: Ops, scope: seq<Relation>, on: Node, l: Tuple, rs: seq<Tuple>) {
    forall r | r in rs :: !Pairs(ops, scope, on, l, r)
  }

  ghost predicate RightAlone(ops: Ops, scope: seq<Relation>, on: Node, ls: seq<Tuple>, r: Tuple) {
    forall l | l in ls :: !Pairs(ops, scope, on, l, r)
  }

  lemma LeftRowExactly(ops: Ops, scope: seq<Relation>, on: Node, keep: bool, pad: nat, l: Tuple, rs: seq<Tuple>,
                       t: Tuple)
    ensures t in LeftRow(ops, scope, on, keep, pad, l, rs) <==>
            || HasMatch(ops, scope, on, l, rs, t)
            || (keep && LeftAlone(ops, scope, on, l, rs) && t == l + NullTuple(pad))
  {
    var ms := MatchesOf(ops, scope, on, l, rs);
    forall m: Tuple
      ensures m in ms <==> HasMatch(ops, scope, on, l, rs, m)
    {
      MatchesExactly(ops, scope, on, l, rs, m);
    }
    if ms != [] {
      assert ms[0] in ms;
    }
    assert forall r | r in rs && Pairs(ops, scope, on, l, r) :: HasMatch(ops, scope, on, l, rs, l + r);
  }

  lemma {:induction false} LeftPartExactly(ops: Ops, scope: seq<Relation>, on: Node, keep: bool, pad: nat,
                                           ls: seq<Tuple>, rs: seq<Tuple>, t: Tuple)
    ensures t in LeftPart(ops, scope, on, keep, pad, ls, rs) <==>
            exists l | l in ls :: t in LeftRow(ops, scope, on, keep, pad, l, rs)
  {
    if ls != [] {
      var front, last := ls[..|ls| - 1], ls[|ls| - 1];
      LeftPartExactly(ops, scope, on, keep, pad, front, rs, t);
      assert ls == front + [last];
    }
  }

  lemma {:induction false} RightPartExactly(ops: Ops, scope: seq<Relation>, on: Node, pad: nat,
                                            ls: seq<Tuple>, rs: seq<Tuple>, t: Tuple)
    ensures t in RightPart(ops, scope, on, pad, ls, rs) <==>
            exists r | r in rs :: RightAlone(ops, scope, on, ls, r) && t == NullTuple(pad) + r
  {
    if rs != [] {
      var front, last := rs[..|rs| - 1], rs[|rs| - 1];
      RightPartExactly(ops, scope, on, pad, ls, front, t);
      assert rs == front + [last];
      assert AnyMatch(ops, scope, on, ls, last) <==> !RightAlone(ops, scope, on, ls, last) by {
        assert forall i | 0 <= i < |ls| :: ls[i] in ls;
      }
    }
  }

  /** A join has the matching pairs; a left or full one also the left rows without a match, a right
      or full one the right rows without a match, each beside nulls. */
  lemma JoinExactly(ops: Ops, kind: JoinKind, left: seq<Relation>, right: seq<Relation>, on: Node,
                    ls: seq<Tuple>, rs: seq<Tuple>, t: Tuple)
    ensures t in JoinTuples(ops, kind, left, right, on, ls, rs) <==>
            || (exists l | l in ls :: HasMatch(ops, left + right, on, l, rs, t))
            || ((kind == LeftJoin || kind == FullJoin) &&
                exists l | l in ls :: LeftAlone(ops, left + right, on, l, rs) && t == l + NullTuple(|right|))
            || ((kind == RightJoin || kind == FullJoin) &&
                exists r | r in rs :: RightAlone(ops, left + right, on, ls, r) && t == NullTuple(|left|) + r)
  {
    var keep := kind.LeftJoin? || kind.FullJoin?;
    LeftPartExactly(ops, left + right, on, keep, |right|, ls, rs, t);
    RightPartExactly(ops, left + right, on, |left|, ls, rs, t);
    forall l | l in ls
      ensures t in LeftRow(ops, left + right, on, keep, |right|, l, rs) <==>
              || HasMatch(ops, left + right, on, l, rs, t)
              || (keep && LeftAlone(ops, left + right, on, l, rs) && t == l + NullTuple(|right|))
    {
      LeftRowExactly(ops, left + right, on, keep, |right|, l, rs, t);
    }
  }

  // ---- Groups ---------------------------------------------------------------------------------

  function Joined(groups: seq<seq<Tuple>>): seq<Tuple> {
    if groups == [] then [] else groups[0] + Joined(groups[1..])
  }

  ghost predicate HasKey(ops: Ops, scope: seq<Relation>, group: seq<Node>, key: seq<Value>, keep: bool, t: Tuple) {
    (KeyOf(ops, scope, group, t) == key) == keep
  }

  lemma KeepIfExactly(ops: Ops, scope: seq<Relation>, group: seq<Node>, key: seq<Value>, keep: bool, x: Tuple, t: Tuple)
    ensures multiset(KeepIf(ops, scope, group, key, keep, x))[t]
         == if HasKey(ops, scope, group, key, keep, t) then multiset([x])[t] else 0
  {
  }

  lemma {:induction false} WithKeyCount(ops: Ops, scope: seq<Relation>, group: seq<Node>, key: seq<Value>,
                                        keep: bool, ts: seq<Tuple>, t: Tuple, has: bool)
    requires has == HasKey(ops, scope, group, key, keep, t)
    ensures multiset(WithKey(ops, scope, group, key, keep, ts))[t] == if has then multiset(ts)[t] else 0
  {
    if ts != [] {
      var front, last := ts[..|ts| - 1], ts[|ts| - 1];
      var before, kept := WithKey(ops, scope, group, key, keep, front), KeepIf(ops, scope, group, key, keep, last);
      WithKeyCount(ops, scope, group, key, keep, front, t, has);
      KeepIfExactly(ops, scope, group, key, keep, last, t);
      CountConcat(before, kept, t);
      CountConcat(front, [last], t);
      assert ts == front + [last] && WithKey(ops, scope, group, key, keep, ts) == before + kept;
    }
  }

  lemma WithKeyExactly(ops: Ops, scope: seq<Relation>, group: seq<Node>, key: seq<Value>,
                       keep: bool, ts: seq<Tuple>, t: Tuple)
    ensures multiset(WithKey(ops, scope, group, key, keep, ts))[t]
         == if HasKey(ops, scope, group, key, keep, t) then multiset(ts)[t] else 0
  {
    WithKeyCount(ops, scope, group, key, keep, ts, t, HasKey(ops, scope, group, key, keep, t));
  }

  /** Grouping loses and invents no row. */
  lemma {:induction false} GroupsConserve(ops: Ops, scope: seq<Relation>, group: seq<Node>, ts: seq<Tuple>, t: Tuple)
    ensures multiset(Joined(Partition(ops, scope, group, ts)))[t] == multiset(ts)[t]
    decreases |ts|
  {
    if ts != [] {
      var key, others := KeyOf(ops, scope, group, ts[0]), OtherGroups(ops, scope, group, ts);
      var first, rest := FirstGroup(ops, scope, group, ts), Partition(ops, scope, group, others);
      GroupsConserve(ops, scope, group, others, t);
      assert ([first] + rest)[1..] == rest;
      CountConcat(first, Joined(rest), t);
      FirstGroupSplits(ops, scope, group, ts, t);
    }
  }

  lemma FirstGroupSplits(ops: Ops, scope: seq<Relation>, group: seq<Node>, ts: seq<Tuple>, t: Tuple)
    requires ts != []
    ensures multiset(FirstGroup(ops, scope, group, ts))[t] + multiset(OtherGroups(ops, scope, group, ts))[t]
            == multiset(ts)[t]
  {
    var key := KeyOf(ops, scope, group, ts[0]);
    WithKeyExactly(ops, scope, group, key, true, ts[1..], t);
    WithKeyExactly(ops, scope, group, key, false, ts[1..], t);
    CountConcat([ts[0]], WithKey(ops, scope, group, key, true, ts[1..]), t);
    CountConcat([ts[0]], ts[1..], t);
    assert ts == [ts[0]] + ts[1..];
  }

  /** Rows share a group exactly if they agree on the grouped values. */
  lemma {:induction false} GroupsByKey(ops: Ops, scope: seq<Relation>, group: seq<Node>, ts: seq<Tuple>,
                                       i: nat, j: nat, a: Tuple, b: Tuple)
    requires i < |Partition(ops, scope, group, ts)| && j < |Partition(ops, scope, group, ts)|
    requires a in Partition(ops, scope, group, ts)[i] && b in Partition(ops, scope, group, ts)[j]
    ensures KeyOf(ops, scope, group, a) == KeyOf(ops, scope, group, b) <==> i == j
    decreases |ts|
  {
    var key, others := KeyOf(ops, scope, group, ts[0]), OtherGroups(ops, scope, group, ts);
    if i > 0 && j > 0 {
      GroupsByKey(ops, scope, group, others, i - 1, j - 1, a, b);
    } else {
      GroupMember(ops, scope, group, ts, i, a);
      GroupMember(ops, scope, group, ts, j, b);
    }
  }

  /** The first group holds the key of the first row, and no later group does. */
  lemma GroupMember(ops: Ops, scope: seq<Relation>, group: seq<Node>, ts: seq<Tuple>, i: nat, a: Tuple)
    requires i < |Partition(ops, scope, group, ts)| && a in Partition(ops, scope, group, ts)[i]
    ensures ts != [] && (KeyOf(ops, scope, group, a) == KeyOf(ops, scope, group, ts[0]) <==> i == 0)
  {
    if i == 0 {
      FirstGroupMember(ops, scope, group, ts, a);
    } else {
      GroupMemberIsRow(ops, scope, group, OtherGroups(ops, scope, group, ts), i - 1, a);
      OtherGroupMember(ops, scope, group, ts, a);
    }
  }

  lemma FirstGroupMember(ops: Ops, scope: seq<Relation>, group: seq<Node>, ts: seq<Tuple>, a: Tuple)
    requires ts != [] && a in FirstGroup(ops, scope, group, ts)
    ensures KeyOf(ops, scope, group, a) == KeyOf(ops, scope, group, ts[0])
  {
    if a != ts[0] {
      WithKeyExactly(ops, scope, group, KeyOf(ops, scope, group, ts[0]), true, ts[1..], a);
    }
  }

  lemma OtherGroupMember(ops: Ops, scope: seq<Relation>, group: seq<Node>, ts: seq<Tuple>, a: Tuple)
    requires ts != [] && a in OtherGroups(ops, scope, group, ts)
    ensures KeyOf(ops, scope, group, a) != KeyOf(ops, scope, group, ts[0])
  {
    WithKeyExactly(ops, scope, group, KeyOf(ops, scope, group, ts[0]), false, ts[1..], a);
  }

  lemma GroupMemberIsRow(ops: Ops, scope: seq<Relation>, group: seq<Node>, ts: seq<Tuple>, i: nat, a: Tuple)
    requires i < |Partition(ops, scope, group, ts)| && a in Partition(ops, scope, group, ts)[i]
    ensures a in ts
  {
    InJoined(Partition(ops, scope, group, ts), i, a);
    GroupsConserve(ops, scope, group, ts, a);
  }

  lemma {:induction false} InJoined(groups: seq<seq<Tuple>>, i: nat, a: Tuple)
    requires i < |groups| && a in groups[i]
    ensures a in Joined(groups)
  {
    if i > 0 {
      InJoined(groups[1..], i - 1, a);
    }
  }

  // ---- Order and limits -------------------------------------------------------------------------

  lemma {:induction false} InsertConserves(ops: Ops, dirs: seq<SortDir>, line: Line, sorted: seq<Line>)
    ensures multiset(SelectMeaning.Insert(ops, dirs, line, sorted)) == multiset(sorted) + multiset{line}
  {
    if sorted != [] && !ops.before(dirs, line.keys, sorted[0].keys) {
      InsertConserves(ops, dirs, line, sorted[1..]);
      assert sorted == [sorted[0]] + sorted[1..];
    }
  }

  /** Sorting loses and invents no line. */
  lemma {:induction false} SortConserves(ops: Ops, dirs: seq<SortDir>, lines: seq<Line>)
    ensures multiset(Sorted(ops, dirs, lines)) == multiset(lines)
  {
    if lines != [] {
      var front, last := lines[..|lines| - 1], lines[|lines| - 1];
      SortConserves(ops, dirs, front);
      InsertConserves(ops, dirs, last, Sorted(ops, dirs, front));
      assert lines == front + [last];
    }
  }

  predicate InOrder(ops: Ops, dirs: seq<SortDir>, lines: seq<Line>) {
    forall i, j | 0 <= i < j < |lines| :: !ops.before(dirs, lines[j].keys, lines[i].keys)
  }

  /** A strict order in which lines that are not before one another are ties. */
  ghost predicate OrdersLines(ops: Ops, dirs: seq<SortDir>) {
    && (forall a, b | ops.before(dirs, a, b) :: !ops.before(dirs, b, a))
    && (forall a, b, c | !ops.before(dirs, b, a) && !ops.before(dirs, c, b) :: !ops.before(dirs, c, a))
  }

  lemma {:induction false} InsertOrders(ops: Ops, dirs: seq<SortDir>, line: Line, sorted: seq<Line>)
    requires OrdersLines(ops, dirs) && InOrder(ops, dirs, sorted)
    ensures InOrder(ops, dirs, SelectMeaning.Insert(ops, dirs, line, sorted))
  {
    if sorted != [] {
      var rest := SelectMeaning.Insert(ops, dirs, line, sorted[1..]);
      if ops.before(dirs, line.keys, sorted[0].keys) {
        assert forall j | 0 <= j < |sorted| :: !ops.before(dirs, sorted[j].keys, line.keys);
      } else {
        InsertOrders(ops, dirs, line, sorted[1..]);
        InsertConserves(ops, dirs, line, sorted[1..]);
        forall j | 0 <= j < |rest|
          ensures !ops.before(dirs, rest[j].keys, sorted[0].keys)
        {
          assert rest[j] in multiset(rest);
          if rest[j] != line {
            assert rest[j] in sorted[1..];
          }
        }
      }
    }
  }

  /** If the database orders values at all, ORDER BY puts the lines in that order. */
  lemma {:induction false} SortOrders(ops: Ops, dirs: seq<SortDir>, lines: seq<Line>)
    requires OrdersLines(ops, dirs)
    ensures InOrder(ops, dirs, Sorted(ops, dirs, lines))
  {
    if lines != [] {
      SortOrders(ops, dirs, lines[..|lines| - 1]);
      InsertOrders(ops, dirs, lines[|lines| - 1], Sorted(ops, dirs, lines[..|lines| - 1]));
    }
  }

  /** LIMIT takes the first lines, as many as it says or as there are; WITH TIES goes on exactly as
      long as the keys stay those of the last line. */
  lemma {:induction false} TakeExactly(lines: seq<Line>, n: nat, ties: bool)
    ensures var k := |Take(lines, n, ties)|;
            && k <= |lines| && Take(lines, n, ties) == lines[..k]
            && (if n < |lines| then n <= k else k == |lines|)
            && (!ties && n < |lines| ==> k == n)
            && (n > 0 ==> forall i | n <= i < k :: lines[i].keys == lines[n - 1].keys)
            && (ties && 0 < n && n <= k < |lines| ==> lines[k].keys != lines[n - 1].keys)
    decreases |lines| - n
  {
    if n < |lines| && ties && n > 0 && lines[n].keys == lines[n - 1].keys {
      TakeExactly(lines, n + 1, ties);
    }
  }

  // ---- Assignments ------------------------------------------------------------------------------

  predicate Assigns(targets: seq<TargetNode>, c: string) {
    exists t | t in targets :: t.ResTarget? && t.name == c
  }

  /** An UPDATE gives a row it selects the values of its assignments, computed from the row as it
      was, and leaves every other cell and every other row alone. */
  lemma UpdateExactly(ops: Ops, upd: UpdateStmt, row: Row, c: string)
    requires forall i, j | 0 <= i < j < |upd.targets| && upd.targets[i].ResTarget? && upd.targets[j].ResTarget? ::
               upd.targets[i].name != upd.targets[j].name
    ensures !Selected(ops, upd.rel, upd.where, row) ==> UpdateRow(ops, upd, row) == row
    ensures Selected(ops, upd.rel, upd.where, row) && !Assigns(upd.targets, c) ==>
              (c in UpdateRow(ops, upd, row) <==> c in row) && Cell(UpdateRow(ops, upd, row), c) == Cell(row, c)
    ensures forall t | t in upd.targets && t.ResTarget? ::
              NewValue(ops, upd.rel, row, t) == if t.val == SetToDefault then ops.default(Locate(upd.rel), t.name)
                                                else Eval(ops, [upd.rel], [Some(row)], t.val)
    ensures Selected(ops, upd.rel, upd.where, row) ==> forall t | t in upd.targets && t.ResTarget? ::
              t.name in UpdateRow(ops, upd, row) && UpdateRow(ops, upd, row)[t.name] == NewValue(ops, upd.rel, row, t)
  {
    AssignedKeys(ops, upd.rel, row, upd.targets, c);
    if Selected(ops, upd.rel, upd.where, row) {
      forall t | t in upd.targets && t.ResTarget?
        ensures t.name in UpdateRow(ops, upd, row) && UpdateRow(ops, upd, row)[t.name] == NewValue(ops, upd.rel, row, t)
      {
        var k :| 0 <= k < |upd.targets| && upd.targets[k] == t;
        AssignedValue(ops, upd.rel, row, upd.targets, k);
      }
    }
  }

  lemma {:induction false} AssignedKeys(ops: Ops, rel: Relation, row: Row, targets: seq<TargetNode>, c: string)
    ensures c in Assigned(ops, rel, row, targets) <==> Assigns(targets, c)
  {
    if targets != [] {
      var front, last := targets[..|targets| - 1], targets[|targets| - 1];
      AssignedKeys(ops, rel, row, front, c);
      assert targets == front + [last];
    }
  }

  lemma {:induction false} AssignedValue(ops: Ops, rel: Relation, row: Row, targets: seq<TargetNode>, k: nat)
    requires k < |targets| && targets[k].ResTarget?
    requires forall j | k < j < |targets| && targets[j].ResTarget? :: targets[j].name != targets[k].name
    ensures targets[k].name in Assigned(ops, rel, row, targets)
    ensures Assigned(ops, rel, row, targets)[targets[k].name] == NewValue(ops, rel, row, targets[k])
  {
    if k < |targets| - 1 {
      AssignedValue(ops, rel, row, targets[..|targets| - 1], k);
    }
  }

  /** A new row is appended unless it clashes under a conflict clause; then DO UPDATE changes only
      the row it clashes with, and DO NOTHING changes none. */
  lemma ConflictExactly(ops: Ops, ins: InsertStmt, rows: seq<Row>, row: Row)
    ensures var after := InsertOne(ops, ins, rows, row);
            && (ins.onConflict.None? || ops.clash(rows, row).None? ==> after == rows + [row])
            && (ins.onConflict.Some? && ops.clash(rows, row).Some? ==>
                  && |after| == |rows|
                  && (forall i | 0 <= i < |rows| && i != ops.clash(rows, row).value :: after[i] == rows[i])
                  && (!ins.onConflict.value.action.ConflictUpdate? ==> after == rows)
                  && (ins.onConflict.value.action.ConflictUpdate? && ops.clash(rows, row).value < |rows| ==>
                        var k := ops.clash(rows, row).value;
                        after[k] == rows[k] + ConflictCells(ops, ins.onConflict.value.targets, rows[k], row)))
  {
  }
}
