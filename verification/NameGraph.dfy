/** The graph of names behind the analyser's table lookup: every name a source goes by has
    an edge to the full name of that source. Here a source is just its full name and its
    set of names; the lemmas say what any run of insertions builds, that following edges
    always ends, and when a name leads to its own source. */
module NameGraph {
  datatype Source = Source(full: string, names: set<string>)

  type Edges = map<string, string>

  predicate Named(sources: seq<Source>) {
    forall s | s in sources :: s.full in s.names
  }

  function PutEdges(m: Edges, source: Source): Edges {
    m + map n | n in source.names :: source.full
  }

  /** The edges after inserting `sources` in order into an empty graph. */
  function Graph(sources: seq<Source>): Edges {
    if sources == [] then map[] else PutEdges(Graph(sources[..|sources| - 1]), sources[|sources| - 1])
  }

  function Roots(m: Edges): set<string> {
    set n | n in m && m[n] == n
  }

  // ---- Acyclicity -------------------------------------------------------------------

  /** `rank` shows that every edge leads to a key, and strictly downwards unless it is a loop. */
  ghost predicate Ranks(rank: map<string, nat>, m: Edges) {
    && m.Keys <= rank.Keys
    && forall n {:trigger Descends(rank, m, n)} | n in m :: Descends(rank, m, n)
  }

  ghost predicate Descends(rank: map<string, nat>, m: Edges, n: string)
    requires n in m && m.Keys <= rank.Keys
  {
    m[n] in m && (m[n] == n || rank[m[n]] < rank[n])
  }

  ghost predicate Acyclic(m: Edges) {
    exists rank :: Ranks(rank, m)
  }

  ghost function RankOf(m: Edges): (rank: map<string, nat>)
    requires Acyclic(m)
    ensures Ranks(rank, m)
  {
    var rank :| Ranks(rank, m);
    rank
  }

  /** Where following the edges from `name` ends: always at a loop. */
  function Root(m: Edges, name: string): (root: string)
    requires Acyclic(m) && name in m
    ensures root in Roots(m)
    decreases RankOf(m)[name]
  {
    assert Descends(RankOf(m), m, name);
    if m[name] == name then name else Root(m, m[name])
  }

  lemma PutKeepsAcyclic(m: Edges, source: Source)
    requires Acyclic(m) && source.full in source.names
    ensures Acyclic(PutEdges(m, source))
  {
    var before := RankOf(m);
    var rank: map<string, nat> := map n | n in m.Keys + source.names ::
      if n == source.full then 0 else if n in source.names then 1 else before[n] + 1;
    forall n | n in PutEdges(m, source)
      ensures Descends(rank, PutEdges(m, source), n)
    {
      if n !in source.names {
        assert Descends(before, m, n);
      }
    }
    assert Ranks(rank, PutEdges(m, source));
  }

  lemma {:induction false} GraphAcyclic(sources: seq<Source>)
    requires Named(sources)
    ensures Acyclic(Graph(sources))
  {
    if sources == [] {
      assert Ranks(map[], map[]);
    } else {
      GraphAcyclic(sources[..|sources| - 1]);
      PutKeepsAcyclic(Graph(sources[..|sources| - 1]), sources[|sources| - 1]);
    }
  }

  lemma FreshEdgeKeepsAcyclic(m: Edges, name: string, root: string)
    requires Acyclic(m) && name !in m && root in Roots(m)
    ensures Acyclic(m[name := root])
  {
    var m' := m[name := root];
    var before := RankOf(m);
    var rank: map<string, nat> := map n | n in m' :: if n == name then before[root] + 1 else before[n];
    forall n | n in m'
      ensures Descends(rank, m', n)
    {
      if n != name {
        assert Descends(before, m, n);
      }
    }
    assert Ranks(rank, m');
  }

  /** Sending a name that was no key to a root changes the root of no key. */
  lemma FreshEdgeKeepsRoots(m: Edges, name: string, root: string)
    requires Acyclic(m) && name !in m && root in Roots(m)
    ensures Acyclic(m[name := root])
    ensures forall n | n in m :: Root(m[name := root], n) == Root(m, n)
    ensures Root(m[name := root], name) == root
    ensures Roots(m[name := root]) == Roots(m)
  {
    var m' := m[name := root];
    FreshEdgeKeepsAcyclic(m, name, root);
    forall n | n in m
      ensures Root(m', n) == Root(m, n)
    {
      FreshEdgeKeepsRoot(m, name, root, n);
    }
    assert m'[root] == root;
  }

  lemma {:induction false} FreshEdgeKeepsRoot(m: Edges, name: string, root: string, n: string)
    requires Acyclic(m) && name !in m && root in Roots(m) && Acyclic(m[name := root]) && n in m
    ensures Root(m[name := root], n) == Root(m, n)
    decreases RankOf(m)[n]
  {
    assert Descends(RankOf(m), m, n);
    if m[n] != n {
      FreshEdgeKeepsRoot(m, name, root, m[n]);
    }
  }

  lemma PutOneMore(m: Edges, full: string, names: set<string>, n: string)
    ensures PutEdges(m, Source(full, names))[n := full] == PutEdges(m, Source(full, names + {n}))
  {
  }

  // ---- Which source a name leads to -------------------------------------------------

  /** A key of the graph leads, in one edge, to the last source inserted under it. */
  lemma {:induction false} LastWriter(sources: seq<Source>, n: string) returns (j: nat)
    requires n in Graph(sources)
    ensures j < |sources| && n in sources[j].names
    ensures Graph(sources)[n] == sources[j].full
    ensures forall k | j < k < |sources| :: n !in sources[k].names
  {
    var last := |sources| - 1;
    if n in sources[last].names {
      j := last;
    } else {
      j := LastWriter(sources[..last], n);
    }
  }

  lemma {:induction false} NameIsKey(sources: seq<Source>, i: nat, n: string)
    requires i < |sources| && n in sources[i].names
    ensures n in Graph(sources)
  {
    if i < |sources| - 1 {
      NameIsKey(sources[..|sources| - 1], i, n);
    }
  }

  function FullNames(sources: seq<Source>): set<string> {
    set s | s in sources :: s.full
  }

  /** Every source that writes `n` for a table outside `home` is followed by one that writes it
      for a table in `home` again. */
  predicate Keeps(sources: seq<Source>, n: string, home: set<string>) {
    forall j | 0 <= j < |sources| && n in sources[j].names && sources[j].full !in home ::
      WrittenAfter(sources, j, n, home)
  }

  predicate WrittenAfter(sources: seq<Source>, j: nat, n: string, home: set<string>) {
    exists k | j < k < |sources| :: n in sources[k].names && sources[k].full in home
  }

  lemma KeepsMore(sources: seq<Source>, n: string, fewer: set<string>, more: set<string>)
    requires Keeps(sources, n, fewer) && fewer <= more
    ensures Keeps(sources, n, more)
  {
    forall j | 0 <= j < |sources| && n in sources[j].names && sources[j].full !in more
      ensures WrittenAfter(sources, j, n, more)
    {
      assert WrittenAfter(sources, j, n, fewer);
    }
  }

  /** Every source keeps its full name: none is taken over by another for good. */
  predicate NoTakeover(sources: seq<Source>) {
    forall s | s in sources :: Keeps(sources, s.full, {s.full})
  }

  /** A set of tables keeps a name exactly if that name leads into the set in one edge. */
  lemma KeptNames(sources: seq<Source>, n: string, home: set<string>)
    requires n in Graph(sources)
    ensures Graph(sources)[n] in home <==> Keeps(sources, n, home)
  {
    var j := LastWriter(sources, n);
    assert !WrittenAfter(sources, j, n, home);
  }

  lemma RootsAreFullNames(sources: seq<Source>)
    ensures Roots(Graph(sources)) <= FullNames(sources)
  {
    forall n | n in Roots(Graph(sources))
      ensures n in FullNames(sources)
    {
      var j := LastWriter(sources, n);
      assert sources[j] in sources;
    }
  }

  /** The tables a graph ends with are exactly the tables inserted, if and only if there
      was no takeover. */
  lemma NoSourceLost(sources: seq<Source>)
    requires Named(sources)
    ensures Roots(Graph(sources)) == FullNames(sources) <==> NoTakeover(sources)
  {
    RootsAreFullNames(sources);
    forall s | s in sources
      ensures s.full in FullNames(sources)
      ensures s.full in Roots(Graph(sources)) <==> Keeps(sources, s.full, {s.full})
    {
      FullNameIsKey(sources, s);
      KeptNames(sources, s.full, {s.full});
    }
  }

  lemma FullNameIsKey(sources: seq<Source>, s: Source)
    requires Named(sources) && s in sources
    ensures s.full in Graph(sources)
  {
    var i :| 0 <= i < |sources| && sources[i] == s;
    NameIsKey(sources, i, s.full);
  }

  /** The edges from a two-source insertion in which the second source takes the full name
      of the first as one of its own names. */
  lemma TakeoverOfTwo(first: Source, second: Source, n: string)
    requires first.full in first.names && second.full in second.names
    requires first.full in second.names && second.full != first.full
    requires n in first.names && n !in second.names
    ensures Acyclic(Graph([first, second]))
    ensures Roots(Graph([first, second])) == {second.full}
    ensures n in Graph([first, second]) && Root(Graph([first, second]), n) == second.full
  {
    var m := Graph([first, second]);
    GraphAcyclic([first, second]);
    assert [first, second][..1] == [first] && [first][..0] == [];
    assert Graph([first]) == PutEdges(map[], first);
    assert m == PutEdges(PutEdges(map[], first), second);
    assert m[second.full] == second.full;
    assert m[first.full] == second.full;
    assert m[n] == first.full;
    assert Root(m, first.full) == Root(m, second.full);
  }

  /** Sources with different full names share no name. */
  predicate Separate(sources: seq<Source>) {
    forall i, j | 0 <= i < |sources| && 0 <= j < |sources| && sources[i].full != sources[j].full ::
      sources[i].names !! sources[j].names
  }

  lemma SeparateHasNoTakeover(sources: seq<Source>)
    requires Named(sources) && Separate(sources)
    ensures NoTakeover(sources)
  {
    forall s | s in sources
      ensures Keeps(sources, s.full, {s.full})
    {
      var i :| 0 <= i < |sources| && sources[i] == s;
      assert s.full in sources[i].names;
    }
  }

  /** A key leads into a set of tables that keeps the key and the full names of its tables. */
  lemma {:induction false} LeadsHome(sources: seq<Source>, n: string, home: set<string>)
    requires Named(sources) && Acyclic(Graph(sources)) && n in Graph(sources)
    requires Keeps(sources, n, home) && forall f | f in home :: Keeps(sources, f, home)
    ensures Root(Graph(sources), n) in home
    decreases RankOf(Graph(sources))[n]
  {
    var m := Graph(sources);
    KeptNames(sources, n, home);
    assert Descends(RankOf(m), m, n);
    if m[n] != n {
      LeadsHome(sources, m[n], home);
    }
  }

  /** Without takeovers a key leads into a set of tables exactly if that set keeps it. */
  lemma LeadsHomeExactly(sources: seq<Source>, n: string, home: set<string>)
    requires Named(sources) && NoTakeover(sources) && n in Graph(sources)
    ensures Acyclic(Graph(sources))
    ensures Root(Graph(sources), n) in home <==> Keeps(sources, n, home)
  {
    var m := Graph(sources);
    GraphAcyclic(sources);
    KeptNames(sources, n, home);
    var j := LastWriter(sources, n);
    assert sources[j] in sources;
    FullNameIsKey(sources, sources[j]);
    KeptNames(sources, m[n], {m[n]});
    assert Root(m, m[n]) == m[n];
  }

  // ---- The name that stands for the only source --------------------------------------

  function Finalized(m: Edges, count: nat): Edges {
    if count == 1 && |Roots(m)| == 1 then m["" := TheOnly(Roots(m))] else m
  }

  function TheOnly(names: set<string>): (name: string)
    requires |names| == 1
    ensures names == {name}
  {
    OnlyIsUnique(names);
    var name :| name in names;
    name
  }

  lemma OnlyIsUnique(names: set<string>)
    requires |names| == 1
    ensures exists n :: names == {n}
    ensures forall x, y | x in names && y in names :: x == y
  {
    var n :| n in names;
    assert |names - {n}| == 0;
    assert names == {n};
  }

  lemma SingleSource(s: Source)
    requires s.full in s.names
    ensures Graph([s]) == map n | n in s.names :: s.full
    ensures Roots(Graph([s])) == {s.full}
  {
    assert [s][..0] == [];
    assert Graph([s]) == PutEdges(map[], s);
  }

  /** `Finalized` adds the empty name, leading to the only source, and changes no other root. */
  lemma FinalizedGraph(sources: seq<Source>)
    requires Named(sources) && forall s | s in sources :: "" !in s.names
    ensures var m, f := Graph(sources), Finalized(Graph(sources), |sources|);
            && Acyclic(m) && Acyclic(f)
            && "" !in m
            && Roots(f) == Roots(m)
            && (forall n | n in m :: n in f && Root(f, n) == Root(m, n))
            && ("" in f <==> |sources| == 1)
            && (|sources| == 1 ==> Root(f, "") == sources[0].full)
            && f.Keys <= m.Keys + {""}
  {
    GraphAcyclic(sources);
    var m := Graph(sources);
    assert "" !in m by {
      if "" in m {
        var j := LastWriter(sources, "");
        assert false;
      }
    }
    if |sources| == 1 {
      assert sources == [sources[0]];
      SingleSource(sources[0]);
      FreshEdgeKeepsRoots(m, "", sources[0].full);
      assert Finalized(m, 1) == m["" := sources[0].full];
    }
  }
}
