/** Access vectors: column references grouped under the table each one resolves to. */
module Vectors {
  import opened Common
  import opened NameGraph
  import opened Columns

  datatype Op = OpSelect | OpInsert | OpUpdate | OpDelete

  datatype Vector =
    | SelectVec(tbl: string, target: seq<string>, filter: seq<string>, group: seq<string>, sort: seq<string>)
    | InsertVec(tbl: string, target: seq<string>)
    | UpdateVec(tbl: string, target: seq<string>, filter: seq<string>)
    | DeleteVec(tbl: string, target: seq<string>, filter: seq<string>)

  type Groups = map<string, seq<Column>>

  function NewVector(op: Op, tbl: string, names: seq<string>): (v: Vector)
    ensures v.tbl == tbl && v.target == names && OpOf(v) == op && AllColumns(v) == names
  {
    match op
    case OpSelect => SelectVec(tbl, names, [], [], [])
    case OpInsert => InsertVec(tbl, names)
    case OpUpdate => UpdateVec(tbl, names, [])
    case OpDelete => DeleteVec(tbl, names, [])
  }

  function OpOf(v: Vector): Op {
    match v
    case SelectVec(_, _, _, _, _) => OpSelect
    case InsertVec(_, _) => OpInsert
    case UpdateVec(_, _, _) => OpUpdate
    case DeleteVec(_, _, _) => OpDelete
  }

  /** The names a vector's `Columns` method concatenates before removing duplicates. */
  function AllColumns(v: Vector): seq<string> {
    match v
    case SelectVec(_, target, filter, group, sort) => target + group + sort + filter
    case InsertVec(_, target) => target
    case UpdateVec(_, target, filter) => target + filter
    case DeleteVec(_, target, filter) => target + filter
  }

  function At(g: Groups, tbl: string): seq<Column> {
    if tbl in g then g[tbl] else []
  }

  /** One round of the grouping loop: the reference joins the list of its table, unless its
      qualifier is empty among several sources or leads to no table. */
  function Place(g: Groups, c: Column, m: Edges, sources: nat): Result<Groups>
    requires Acyclic(m)
  {
    if TableOf(c) == "" && sources > 1 then Err(NotImplemented)
    else if TableOf(c) !in m then Err(Invalid)
    else
      var tbl := Root(m, TableOf(c));
      Ok(g[tbl := At(g, tbl) + [c]])
  }

  function Distribute(seed: set<string>, cols: seq<Column>, m: Edges, sources: nat): Result<Groups>
    requires Acyclic(m)
  {
    if cols == [] then Ok(map t | t in seed :: [])
    else
      var g :- Distribute(seed, cols[..|cols| - 1], m, sources);
      Place(g, cols[|cols| - 1], m, sources)
  }

  lemma DistributeStep(seed: set<string>, cols: seq<Column>, m: Edges, sources: nat, i: nat)
    requires Acyclic(m) && i < |cols| && Distribute(seed, cols[..i], m, sources).Ok?
    ensures var g := Distribute(seed, cols[..i], m, sources).value;
            && Distribute(seed, cols[..i + 1], m, sources) == Place(g, cols[i], m, sources)
            && (Place(g, cols[i], m, sources).Err? ==>
                  Distribute(seed, cols, m, sources) == Err(Place(g, cols[i], m, sources).error))
  {
    assert cols[..i + 1][..i] == cols[..i];
    if Distribute(seed, cols[..i + 1], m, sources).Err? {
      DistributeKeepsError(seed, cols, m, sources, i + 1);
    }
  }

  lemma {:induction false} DistributeKeepsError(seed: set<string>, cols: seq<Column>, m: Edges, sources: nat, n: nat)
    requires Acyclic(m) && n <= |cols| && Distribute(seed, cols[..n], m, sources).Err?
    ensures Distribute(seed, cols, m, sources) == Distribute(seed, cols[..n], m, sources)
    decreases |cols|
  {
    if n < |cols| {
      assert cols[..|cols| - 1][..n] == cols[..n];
      DistributeKeepsError(seed, cols[..|cols| - 1], m, sources, n);
    } else {
      assert cols[..n] == cols;
    }
  }

  // ---- What the grouping contains ---------------------------------------------------------

  predicate Resolves(c: Column, m: Edges, sources: nat) {
    TableOf(c) in m && (TableOf(c) == "" ==> sources <= 1)
  }

  /** The references that lead to `tbl`, in order. */
  function LeadingTo(cols: seq<Column>, m: Edges, tbl: string): seq<Column>
    requires Acyclic(m) && forall c | c in cols :: TableOf(c) in m
  {
    if cols == [] then []
    else
      var last := cols[|cols| - 1];
      LeadingTo(cols[..|cols| - 1], m, tbl) + (if Root(m, TableOf(last)) == tbl then [last] else [])
  }

  lemma {:induction false} GroupingAccepts(seed: set<string>, cols: seq<Column>, m: Edges, sources: nat)
    requires Acyclic(m)
    ensures Distribute(seed, cols, m, sources).Ok? <==> forall c | c in cols :: Resolves(c, m, sources)
  {
    if cols != [] {
      var front, last := cols[..|cols| - 1], cols[|cols| - 1];
      GroupingAccepts(seed, front, m, sources);
      assert Distribute(seed, cols, m, sources).Ok?
          <==> Distribute(seed, front, m, sources).Ok? && Resolves(last, m, sources);
      assert cols == front + [last];
      assert forall c :: c in cols <==> c in front || c == last;
    }
  }

  /** The tables the references lead to. */
  function LedTo(cols: seq<Column>, m: Edges): set<string>
    requires Acyclic(m) && forall c | c in cols :: TableOf(c) in m
  {
    set c | c in cols :: Root(m, TableOf(c))
  }

  lemma LedToOneMore(front: seq<Column>, last: Column, m: Edges)
    requires Acyclic(m) && (forall c | c in front :: TableOf(c) in m) && TableOf(last) in m
    ensures forall c | c in front + [last] :: TableOf(c) in m
    ensures LedTo(front + [last], m) == LedTo(front, m) + {Root(m, TableOf(last))}
  {
    assert last in front + [last];
    assert forall c :: c in front + [last] <==> c in front || c == last;
  }

  lemma PlacedContents(g: Groups, front: seq<Column>, last: Column, m: Edges)
    requires Acyclic(m) && (forall c | c in front :: TableOf(c) in m) && TableOf(last) in m
    requires forall t | t in g :: g[t] == LeadingTo(front, m, t)
    requires forall c | c in front :: Root(m, TableOf(c)) in g
    ensures var t, g' := Root(m, TableOf(last)), g[Root(m, TableOf(last)) := At(g, Root(m, TableOf(last))) + [last]];
            && (forall c | c in front + [last] :: TableOf(c) in m)
            && forall u | u in g' :: g'[u] == LeadingTo(front + [last], m, u)
  {
    var t := Root(m, TableOf(last));
    LedToOneMore(front, last, m);
    assert (front + [last])[..|front|] == front;
    if t !in g {
      LeadingNowhere(front, m, t);
    }
    forall u | u in g
      ensures u != t ==> LeadingTo(front + [last], m, u) == LeadingTo(front, m, u)
    {
      assert LeadingTo(front, m, u) + [] == LeadingTo(front, m, u);
    }
  }

  lemma {:induction false} GroupingContents(seed: set<string>, cols: seq<Column>, m: Edges, sources: nat)
    requires Acyclic(m) && Distribute(seed, cols, m, sources).Ok?
    ensures forall c | c in cols :: TableOf(c) in m
    ensures Distribute(seed, cols, m, sources).value.Keys == seed + LedTo(cols, m)
    ensures forall t | t in Distribute(seed, cols, m, sources).value ::
              Distribute(seed, cols, m, sources).value[t] == LeadingTo(cols, m, t)
  {
    if cols != [] {
      var front, last := cols[..|cols| - 1], cols[|cols| - 1];
      var g := Distribute(seed, front, m, sources).value;
      GroupingContents(seed, front, m, sources);
      assert cols == front + [last];
      forall c | c in front
        ensures Root(m, TableOf(c)) in g
      {
        assert Root(m, TableOf(c)) in LedTo(front, m);
      }
      PlacedContents(g, front, last, m);
      LedToOneMore(front, last, m);
    }
  }

  /** Grouping succeeds if and only if every reference resolves; the tables are then the
      seed and the tables led to, and each list is exactly the references leading there. */
  lemma Grouping(seed: set<string>, cols: seq<Column>, m: Edges, sources: nat)
    requires Acyclic(m)
    ensures var d := Distribute(seed, cols, m, sources);
            && (d.Ok? <==> forall c | c in cols :: Resolves(c, m, sources))
            && (d.Ok? ==>
                  && d.value.Keys == seed + LedTo(cols, m)
                  && forall t | t in d.value :: d.value[t] == LeadingTo(cols, m, t))
  {
    GroupingAccepts(seed, cols, m, sources);
    if Distribute(seed, cols, m, sources).Ok? {
      GroupingContents(seed, cols, m, sources);
    }
  }

  /** A list for each table, and a single reference under one of them. */
  predicate OnlyUnder(g: Groups, tables: set<string>, tbl: string, c: Column) {
    g.Keys == tables && forall t | t in g :: g[t] == if t == tbl then [c] else []
  }

  lemma OneReference(seed: set<string>, m: Edges, c: Column, sources: nat)
    requires Acyclic(m) && Resolves(c, m, sources) && Root(m, TableOf(c)) in seed
    ensures Distribute(seed, [c], m, sources).Ok?
    ensures OnlyUnder(Distribute(seed, [c], m, sources).value, seed, Root(m, TableOf(c)), c)
  {
    var none: seq<Column> := [];
    assert [c][..0] == none && none + [c] == [c];
  }

  lemma {:induction false} AllLeading(cols: seq<Column>, m: Edges, tbl: string)
    requires Acyclic(m) && forall c | c in cols :: TableOf(c) in m && Root(m, TableOf(c)) == tbl
    ensures LeadingTo(cols, m, tbl) == cols
  {
    if cols != [] {
      var front, last := cols[..|cols| - 1], cols[|cols| - 1];
      AllLeading(front, m, tbl);
      assert last in cols && front + [last] == cols;
    }
  }

  /** When every name leads to the one seeded table, grouping succeeds if every reference
      resolves, and puts every reference under that table. */
  lemma GroupsOfOneRoot(m: Edges, root: string, cols: seq<Column>, sources: nat)
    requires Acyclic(m) && Roots(m) == {root}
    ensures var d := Distribute({root}, cols, m, sources);
            && (d.Ok? <==> forall c | c in cols :: Resolves(c, m, sources))
            && (d.Ok? ==> d.value == map[root := cols])
  {
    GroupingAccepts({root}, cols, m, sources);
    if Distribute({root}, cols, m, sources).Ok? {
      GroupingContents({root}, cols, m, sources);
      AllLeading(cols, m, root);
      assert Distribute({root}, cols, m, sources).value.Keys == {root};
    }
  }

  lemma {:induction false} LeadingNowhere(cols: seq<Column>, m: Edges, tbl: string)
    requires Acyclic(m) && forall c | c in cols :: TableOf(c) in m && Root(m, TableOf(c)) != tbl
    ensures LeadingTo(cols, m, tbl) == []
  {
    if cols != [] {
      LeadingNowhere(cols[..|cols| - 1], m, tbl);
    }
  }

  lemma {:induction false} LeadingHas(cols: seq<Column>, m: Edges, c: Column)
    requires Acyclic(m) && (forall c | c in cols :: TableOf(c) in m) && c in cols
    ensures c in LeadingTo(cols, m, Root(m, TableOf(c)))
  {
    if c != cols[|cols| - 1] {
      LeadingHas(cols[..|cols| - 1], m, c);
    }
  }

  lemma {:induction false} LeadingOnly(cols: seq<Column>, m: Edges, tbl: string, c: Column)
    requires Acyclic(m) && (forall c | c in cols :: TableOf(c) in m) && c in LeadingTo(cols, m, tbl)
    ensures c in cols && Root(m, TableOf(c)) == tbl
  {
    var front, last := cols[..|cols| - 1], cols[|cols| - 1];
    if c in LeadingTo(front, m, tbl) {
      LeadingOnly(front, m, tbl, c);
    }
  }

  // ---- Vectors in the order of a map iteration ----------------------------------------------

  /** `vecs` lists the groups, one vector each, in some order. */
  ghost predicate Renders(vecs: seq<Vector>, op: Op, g: Groups) {
    && (forall i, j | 0 <= i < j < |vecs| :: vecs[i].tbl != vecs[j].tbl)
    && (forall v | v in vecs :: v.tbl in g && v == NewVector(op, v.tbl, Names(g[v.tbl])))
    && (forall t | t in g :: NewVector(op, t, Names(g[t])) in vecs)
  }

  method MakeAll(op: Op, g: Groups) returns (vecs: seq<Vector>)
    ensures Renders(vecs, op, g)
  {
    vecs := [];
    var todo := g.Keys;
    while todo != {}
      invariant todo <= g.Keys
      invariant Renders(vecs, op, map t | t in g.Keys - todo :: g[t])
      decreases |todo|
    {
      ghost var seen := map t | t in g.Keys - todo :: g[t];
      ghost var before := vecs;
      var tbl :| tbl in todo;
      var names := ListNames(g[tbl]);
      var v := NewVector(op, tbl, names);
      vecs := vecs + [v];
      todo := todo - {tbl};
      assert (map t | t in g.Keys - todo :: g[t]) == seen[tbl := g[tbl]];
      RendersOneMore(before, op, seen, tbl, g[tbl]);
    }
    assert (map t | t in g.Keys - todo :: g[t]) == g;
  }

  lemma RendersOneMore(vecs: seq<Vector>, op: Op, g: Groups, tbl: string, cols: seq<Column>)
    requires Renders(vecs, op, g) && tbl !in g
    ensures Renders(vecs + [NewVector(op, tbl, Names(cols))], op, g[tbl := cols])
  {
    var v := NewVector(op, tbl, Names(cols));
    var g' := g[tbl := cols];
    forall t | t in g'
      ensures NewVector(op, t, Names(g'[t])) in vecs + [v]
    {
      if t != tbl {
        assert NewVector(op, t, Names(g[t])) in vecs;
      }
    }
    forall i, j | 0 <= i < j < |vecs + [v]|
      ensures (vecs + [v])[i].tbl != (vecs + [v])[j].tbl
    {
      if j == |vecs| {
        assert vecs[i] in vecs;
      }
    }
  }

  /** Whatever the order of iteration, the vectors are the same up to order. */
  lemma {:induction false} OrderIsAllThatVaries(a: seq<Vector>, b: seq<Vector>, op: Op, g: Groups)
    requires Renders(a, op, g) && Renders(b, op, g)
    ensures multiset(a) == multiset(b)
  {
    forall v
      ensures multiset(a)[v] == multiset(b)[v]
    {
      OccursOnce(a, v);
      OccursOnce(b, v);
      assert v in a <==> v in b;
    }
  }

  lemma {:induction false} OccursOnce(vecs: seq<Vector>, v: Vector)
    requires forall i, j | 0 <= i < j < |vecs| :: vecs[i].tbl != vecs[j].tbl
    ensures multiset(vecs)[v] == if v in vecs then 1 else 0
  {
    if vecs != [] {
      var front, last := vecs[..|vecs| - 1], vecs[|vecs| - 1];
      OccursOnce(front, v);
      assert vecs == front + [last];
      assert multiset(vecs)[v] == multiset(front)[v] + multiset([last])[v];
    }
  }

  // ---- Conservation ----------------------------------------------------------------------

  datatype Access = Access(tbl: string, column: string)

  function Under(tbl: string, names: seq<string>): (r: seq<Access>)
    ensures |r| == |names| && forall i | 0 <= i < |r| :: r[i] == Access(tbl, names[i])
  {
    seq(|names|, i requires 0 <= i < |names| => Access(tbl, names[i]))
  }

  /** Every table and column pair of a list of vectors, with repetitions. */
  function AccessesOf(vecs: seq<Vector>): seq<Access> {
    if vecs == [] then []
    else AccessesOf(vecs[..|vecs| - 1]) + Under(vecs[|vecs| - 1].tbl, AllColumns(vecs[|vecs| - 1]))
  }

  /** The table and column each reference means. */
  function Meant(cols: seq<Column>, m: Edges): seq<Access>
    requires Acyclic(m) && forall c | c in cols :: TableOf(c) in m
  {
    if cols == [] then []
    else
      var last := cols[|cols| - 1];
      Meant(cols[..|cols| - 1], m) + [Access(Root(m, TableOf(last)), last.column)]
  }

  /** No reference is lost, duplicated, invented or put under another table: as multisets,
      the columns of the vectors are the columns the references mean. */
  lemma Conservation(vecs: seq<Vector>, op: Op, seed: set<string>, cols: seq<Column>, m: Edges, sources: nat)
    requires Acyclic(m) && Distribute(seed, cols, m, sources).Ok?
    requires Renders(vecs, op, Distribute(seed, cols, m, sources).value)
    ensures forall c | c in cols :: TableOf(c) in m
    ensures multiset(AccessesOf(vecs)) == multiset(Meant(cols, m))
  {
    var g := Distribute(seed, cols, m, sources).value;
    Grouping(seed, cols, m, sources);
    forall a: Access
      ensures multiset(AccessesOf(vecs))[a] == multiset(Meant(cols, m))[a]
    {
      CountMeant(cols, m, a);
      if a.tbl in g {
        var i :| 0 <= i < |vecs| && vecs[i] == NewVector(op, a.tbl, Names(g[a.tbl]));
        CountAccesses(vecs, i, a);
      } else {
        CountNoAccesses(vecs, a);
        forall c | c in cols
          ensures Root(m, TableOf(c)) != a.tbl
        {
        }
        LeadingNowhere(cols, m, a.tbl);
      }
    }
  }

  lemma {:induction false} CountMeant(cols: seq<Column>, m: Edges, a: Access)
    requires Acyclic(m) && forall c | c in cols :: TableOf(c) in m
    ensures multiset(Meant(cols, m))[a] == multiset(Names(LeadingTo(cols, m, a.tbl)))[a.column]
  {
    if cols != [] {
      var front, last := cols[..|cols| - 1], cols[|cols| - 1];
      CountMeant(front, m, a);
      CountStep(Meant(front, m), LeadingTo(front, m, a.tbl), Root(m, TableOf(last)), last, a);
    }
  }

  lemma CountStep(meant: seq<Access>, leading: seq<Column>, tbl: string, last: Column, a: Access)
    requires multiset(meant)[a] == multiset(Names(leading))[a.column]
    ensures multiset(meant + [Access(tbl, last.column)])[a]
         == multiset(Names(leading + (if tbl == a.tbl then [last] else [])))[a.column]
  {
    CountOneMore(meant, Access(tbl, last.column), a);
    if tbl == a.tbl {
      assert Names(leading + [last]) == Names(leading) + [last.column];
      CountOneMore(Names(leading), last.column, a.column);
    } else {
      assert leading + [] == leading;
    }
  }

  lemma CountOneMore<T>(front: seq<T>, last: T, x: T)
    ensures multiset(front + [last])[x] == multiset(front)[x] + if last == x then 1 else 0
  {
    assert multiset(front + [last]) == multiset(front) + multiset{last};
  }

  lemma {:induction false} CountUnder(tbl: string, names: seq<string>, a: Access)
    ensures multiset(Under(tbl, names))[a] == if a.tbl == tbl then multiset(names)[a.column] else 0
  {
    if names != [] {
      var front, last := names[..|names| - 1], names[|names| - 1];
      CountUnder(tbl, front, a);
      assert names == front + [last];
      assert Under(tbl, names) == Under(tbl, front) + [Access(tbl, last)];
    }
  }

  lemma {:induction false} CountNoAccesses(vecs: seq<Vector>, a: Access)
    requires forall v | v in vecs :: v.tbl != a.tbl
    ensures multiset(AccessesOf(vecs))[a] == 0
  {
    if vecs != [] {
      var front, last := vecs[..|vecs| - 1], vecs[|vecs| - 1];
      CountNoAccesses(front, a);
      CountUnder(last.tbl, AllColumns(last), a);
    }
  }

  lemma {:induction false} CountAccesses(vecs: seq<Vector>, i: nat, a: Access)
    requires forall i, j | 0 <= i < j < |vecs| :: vecs[i].tbl != vecs[j].tbl
    requires i < |vecs| && vecs[i].tbl == a.tbl
    ensures multiset(AccessesOf(vecs))[a] == multiset(AllColumns(vecs[i]))[a.column]
  {
    var front, last := vecs[..|vecs| - 1], vecs[|vecs| - 1];
    CountUnder(last.tbl, AllColumns(last), a);
    if i == |vecs| - 1 {
      CountNoAccesses(front, a);
    } else {
      CountAccesses(front, i, a);
    }
  }
}
