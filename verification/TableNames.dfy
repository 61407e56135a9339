/** `Tables`: the object that collects the source tables of one statement and resolves the
    qualifiers of its column references. */
module TableNames {
  import opened Common
  import opened Ast
  import opened NameGraph

  const PARSER_SCHEMA := "public"

  /** The name a source was written with: catalog, schema and relation joined by dots. */
  function FullName(rel: Relation): string {
    (if rel.catalog != "" then rel.catalog + "." else "")
    + (if rel.schema != "" then rel.schema + "." else "")
    + rel.name
  }

  /** The table the database calls `schema.name`. */
  function InSchema(schema: string, name: string): string {
    schema + "." + name
  }

  /** Every key `Put` writes for a source. */
  function SourceOf(rel: Relation, defaultSchema: string): (s: Source)
    ensures s.full == FullName(rel) && s.full in s.names
  {
    Source(FullName(rel),
           {rel.name, FullName(rel)}
           + (if rel.schema == "" && defaultSchema != "" then {InSchema(defaultSchema, rel.name)} else {})
           + (if rel.alias != "" then {rel.alias} else {}))
  }

  function SourcesOf(rels: seq<Relation>, defaultSchema: string): (sources: seq<Source>)
    ensures |sources| == |rels| && Named(sources)
    ensures forall i | 0 <= i < |rels| :: sources[i] == SourceOf(rels[i], defaultSchema)
  {
    seq(|rels|, i requires 0 <= i < |rels| => SourceOf(rels[i], defaultSchema))
  }

  /** The finished name graph of a statement over the sources `rels`. */
  function NamesIn(rels: seq<Relation>): (m: Edges)
  {
    Finalized(Graph(SourcesOf(rels, PARSER_SCHEMA)), |rels|)
  }

  predicate Puttable(rels: seq<Relation>) {
    forall r | r in rels :: r.name != ""
  }

  lemma FullNameNotEmpty(rel: Relation)
    requires rel.name != ""
    ensures FullName(rel) != "" && "" !in SourceOf(rel, PARSER_SCHEMA).names
  {
    assert |FullName(rel)| >= |rel.name| > 0;
    assert |InSchema(PARSER_SCHEMA, rel.name)| > 0;
  }

  lemma EmptyIsNoKey(rels: seq<Relation>)
    requires Puttable(rels)
    ensures "" !in Graph(SourcesOf(rels, PARSER_SCHEMA))
  {
    NamesInFacts(rels);
  }

  lemma NamesInFacts(rels: seq<Relation>)
    requires Puttable(rels)
    ensures var m, g := NamesIn(rels), Graph(SourcesOf(rels, PARSER_SCHEMA));
            && Acyclic(m) && Acyclic(g)
            && "" !in g
            && Roots(m) == Roots(g)
            && (forall n | n in g :: n in m && Root(m, n) == Root(g, n))
            && ("" in m <==> |rels| == 1)
            && (|rels| == 1 ==> Root(m, "") == FullName(rels[0]))
            && m.Keys <= g.Keys + {""}
  {
    var sources := SourcesOf(rels, PARSER_SCHEMA);
    forall s | s in sources
      ensures "" !in s.names
    {
      var i :| 0 <= i < |sources| && sources[i] == s;
      FullNameNotEmpty(rels[i]);
    }
    FinalizedGraph(sources);
  }

  /** With one source, every key leads to it. */
  lemma OneSourceLeadsHome(rel: Relation, n: string)
    requires rel.name != "" && n in NamesIn([rel])
    ensures Acyclic(NamesIn([rel])) && Root(NamesIn([rel]), n) == FullName(rel)
  {
    NamesInFacts([rel]);
    assert SourcesOf([rel], PARSER_SCHEMA) == [SourceOf(rel, PARSER_SCHEMA)];
    SingleSource(SourceOf(rel, PARSER_SCHEMA));
  }

  lemma OwnNameIsKey(rel: Relation)
    requires rel.name != ""
    ensures FullName(rel) in NamesIn([rel]).Keys
  {
    NamesInFacts([rel]);
    assert SourcesOf([rel], PARSER_SCHEMA) == [SourceOf(rel, PARSER_SCHEMA)];
    SingleSource(SourceOf(rel, PARSER_SCHEMA));
  }

  lemma OneSourceKeys(rel: Relation)
    requires rel.name != ""
    ensures NamesIn([rel]).Keys == SourceOf(rel, PARSER_SCHEMA).names + {""}
  {
    NamesInFacts([rel]);
    assert SourcesOf([rel], PARSER_SCHEMA) == [SourceOf(rel, PARSER_SCHEMA)];
    SingleSource(SourceOf(rel, PARSER_SCHEMA));
  }

  /** The qualifiers a statement over one source may use: the name, the alias and the full name of
      the source, the name in the default schema if the source has no schema, and none at all. */
  lemma QualifiersExactly(rel: Relation, n: string)
    requires rel.name != ""
    ensures n in NamesIn([rel]).Keys <==>
            || n == "" || n == rel.name || n == FullName(rel)
            || (rel.schema == "" && n == "public." + rel.name)
            || (rel.alias != "" && n == rel.alias)
  {
    OneSourceKeys(rel);
    PublicName(rel.name);
  }

  lemma PublicName(name: string)
    ensures InSchema(PARSER_SCHEMA, name) == "public." + name
  {
    assert "public" + "." == "public.";
  }

  /** Every name the analyser or the database may know a source by. */
  function Claims(rel: Relation): set<string> {
    SourceOf(rel, PARSER_SCHEMA).names + (if rel.schema != "" then {InSchema(rel.schema, rel.name)} else {})
  }

  /** No source takes over the full name of another for good. */
  predicate TablesStay(rels: seq<Relation>) {
    NoTakeover(SourcesOf(rels, PARSER_SCHEMA))
  }

  /** Every source that goes by `n` for a table outside `home` is followed by one in `home`. */
  predicate KeepsName(rels: seq<Relation>, n: string, home: set<string>) {
    Keeps(SourcesOf(rels, PARSER_SCHEMA), n, home)
  }

  /** Sources with different full names share no name. */
  predicate NoSharedNames(rels: seq<Relation>) {
    forall a, b | a in rels && b in rels && FullName(a) != FullName(b) :: Claims(a) !! Claims(b)
  }

  /** A key leads into a set of tables that keeps the key and the full names of its tables. */
  lemma NameLeadsHome(rels: seq<Relation>, n: string, home: set<string>)
    requires Puttable(rels) && n != "" && n in NamesIn(rels)
    requires KeepsName(rels, n, home) && forall f | f in home :: KeepsName(rels, f, home)
    ensures Acyclic(NamesIn(rels)) && Root(NamesIn(rels), n) in home
  {
    NamesInFacts(rels);
    LeadsHome(SourcesOf(rels, PARSER_SCHEMA), n, home);
  }

  /** When no table is lost, a key leads into a set of tables if and only if the set keeps it. */
  lemma NameLeadsHomeExactly(rels: seq<Relation>, n: string, home: set<string>)
    requires Puttable(rels) && TablesStay(rels) && n != "" && n in NamesIn(rels)
    ensures Acyclic(NamesIn(rels))
    ensures Root(NamesIn(rels), n) in home <==> KeepsName(rels, n, home)
  {
    NamesInFacts(rels);
    LeadsHomeExactly(SourcesOf(rels, PARSER_SCHEMA), n, home);
  }

  lemma TableKeepsFullName(rels: seq<Relation>, rel: Relation, home: set<string>)
    requires TablesStay(rels) && rel in rels && FullName(rel) in home
    ensures KeepsName(rels, FullName(rel), home)
  {
    var sources := SourcesOf(rels, PARSER_SCHEMA);
    var i :| 0 <= i < |rels| && rels[i] == rel;
    assert sources[i] in sources;
    KeepsMore(sources, FullName(rel), {FullName(rel)}, home);
  }

  /** Sources that share no name keep all of theirs. */
  lemma SharingNothingKeepsNames(rels: seq<Relation>)
    requires NoSharedNames(rels)
    ensures TablesStay(rels)
    ensures forall rel, n | rel in rels && n in Claims(rel) :: KeepsName(rels, n, {FullName(rel)})
  {
    var sources := SourcesOf(rels, PARSER_SCHEMA);
    forall i | 0 <= i < |sources|
      ensures rels[i] in rels && sources[i].names <= Claims(rels[i])
    {
    }
    SeparateHasNoTakeover(sources);
  }

  /** It is not necessary: two tables of one name in two schemas share that name, but under
      aliases of their own each keeps its alias. */
  lemma AliasesSuffice(name: string, s1: string, s2: string, a1: string, a2: string)
    requires name != "" && s1 != "" && s2 != "" && s1 != s2 && a1 != "" && a2 != ""
    requires a1 !in {name, InSchema(s2, name), a2} && a2 != InSchema(s1, name)
    ensures var x, y := Relation("", s1, name, a1, []), Relation("", s2, name, a2, []);
            && !NoSharedNames([x, y]) && TablesStay([x, y])
            && KeepsName([x, y], a1, {FullName(x)}) && KeepsName([x, y], a2, {FullName(y)})
  {
    var x, y := Relation("", s1, name, a1, []), Relation("", s2, name, a2, []);
    var sources := SourcesOf([x, y], PARSER_SCHEMA);
    assert FullName(x) == InSchema(s1, name) && FullName(y) == InSchema(s2, name);
    SchemasTellApart(s1, s2, name);
    assert sources == [SourceOf(x, PARSER_SCHEMA), SourceOf(y, PARSER_SCHEMA)];
    assert sources[0].names == {name, InSchema(s1, name), a1} && sources[1].names == {name, InSchema(s2, name), a2};
    assert x in [x, y] && y in [x, y] && name in Claims(x) && name in Claims(y);
    assert sources[1].full == FullName(y);
    assert |InSchema(s1, name)| > |name|;
  }

  lemma SchemasTellApart(s1: string, s2: string, name: string)
    requires s1 != s2
    ensures InSchema(s1, name) != InSchema(s2, name)
  {
    assert |InSchema(s1, name)| == |s1| + 1 + |name| && |InSchema(s2, name)| == |s2| + 1 + |name|;
    assert InSchema(s1, name)[..|s1|] == s1 && InSchema(s2, name)[..|s2|] == s2;
  }

  /** The statement keeps every table it names, if and only if no source takes over the full
      name of another. */
  lemma TablesKept(rels: seq<Relation>)
    requires Puttable(rels)
    ensures Acyclic(NamesIn(rels))
    ensures Roots(NamesIn(rels)) == TablesOf(rels) <==> TablesStay(rels)
  {
    var sources := SourcesOf(rels, PARSER_SCHEMA);
    NamesInFacts(rels);
    NoSourceLost(sources);
    FullNamesOfSources(rels);
  }

  function TablesOf(rels: seq<Relation>): set<string> {
    set r | r in rels :: FullName(r)
  }

  lemma FullNamesOfSources(rels: seq<Relation>)
    ensures FullNames(SourcesOf(rels, PARSER_SCHEMA)) == TablesOf(rels)
  {
    var sources := SourcesOf(rels, PARSER_SCHEMA);
    forall s | s in sources
      ensures s.full in TablesOf(rels)
    {
      var i :| 0 <= i < |sources| && sources[i] == s;
      assert rels[i] in rels;
    }
    forall r | r in rels
      ensures FullName(r) in FullNames(sources)
    {
      var i :| 0 <= i < |rels| && rels[i] == r;
      assert sources[i] in sources;
    }
  }

  /** FROM clauses that lose a source, `t AS x` beside `u AS t`: afterwards `x` leads to `u`,
      and `t` is no table of the statement. */
  lemma TakeoverLosesSource(t: string, u: string, x: string)
    requires t != "" && u != "" && x != "" && t != u && x !in {t, u, InSchema(PARSER_SCHEMA, u)}
    ensures var rels := [Relation("", "", t, x, []), Relation("", "", u, t, [])];
            && Acyclic(NamesIn(rels)) && Roots(NamesIn(rels)) == {u} && x in NamesIn(rels)
                && Root(NamesIn(rels), x) == u
            && !TablesStay(rels)
  {
    var a, b := Relation("", "", t, x, []), Relation("", "", u, t, []);
    var first, second := SourceOf(a, PARSER_SCHEMA), SourceOf(b, PARSER_SCHEMA);
    assert SourcesOf([a, b], PARSER_SCHEMA) == [first, second];
    assert first.full == t && second.full == u;
    TakeoverOfTwo(first, second, x);
    NamesInFacts([a, b]);
    LostNotKept([a, b], a);
  }

  lemma LostNotKept(rels: seq<Relation>, rel: Relation)
    requires Puttable(rels) && rel in rels && Acyclic(NamesIn(rels)) && FullName(rel) !in Roots(NamesIn(rels))
    ensures !TablesStay(rels)
  {
    TablesKept(rels);
    assert FullName(rel) in TablesOf(rels);
  }

  /** The buffer `Put` fills part by part. */
  method WriteFullName(rel: Relation) returns (fqtn: string)
    ensures fqtn == FullName(rel)
  {
    fqtn := "";
    if rel.catalog != "" {
      fqtn := fqtn + rel.catalog;
      fqtn := fqtn + ".";
    }
    if rel.schema != "" {
      fqtn := fqtn + rel.schema;
      fqtn := fqtn + ".";
    }
    fqtn := fqtn + rel.name;
  }

  class Tables {
    var m: Edges
    const defaultSchema: string
    var sources: nat

    ghost predicate Valid()
      reads this
    {
      Acyclic(m)
    }

    constructor (defaultSchema: string)
      ensures Valid() && m == Graph([]) && sources == 0 && this.defaultSchema == defaultSchema
    {
      m := map[];
      this.defaultSchema := defaultSchema;
      sources := 0;
      new;
      GraphAcyclic([]);
    }

    method Put(rel: Relation) returns (r: Result<string>)
      requires Valid()
      modifies this
      ensures Valid()
      ensures rel.name == "" ==> r == Err(Invalid) && m == old(m) && sources == old(sources)
      ensures rel.name != "" ==> r == Ok(FullName(rel)) && sources == old(sources) + 1
                                 && m == PutEdges(old(m), SourceOf(rel, defaultSchema))
    {
      if rel.name == "" {
        return Err(Invalid);
      }
      var fqtn := WriteFullName(rel);
      ghost var names := {rel.name, fqtn};
      sources := sources + 1;

      m := m[rel.name := fqtn];
      m := m[fqtn := fqtn];
      assert m == PutEdges(old(m), Source(fqtn, names));
      if rel.schema == "" && defaultSchema != "" {
        PutOneMore(old(m), fqtn, names, InSchema(defaultSchema, rel.name));
        names := names + {InSchema(defaultSchema, rel.name)};
        m := m[InSchema(defaultSchema, rel.name) := fqtn];
      }
      if rel.alias != "" {
        PutOneMore(old(m), fqtn, names, rel.alias);
        names := names + {rel.alias};
        m := m[rel.alias := fqtn];
      }
      assert names == SourceOf(rel, defaultSchema).names;
      PutKeepsAcyclic(old(m), SourceOf(rel, defaultSchema));
      return Ok(fqtn);
    }

    /** The table a name leads to. The recursion ends because the edges have a rank. */
    function Get(name: string): (r: Option<string>)
      requires Valid()
      reads this
      ensures r == if name in m then Some(Root(m, name)) else None
      decreases if name in m then RankOf(m)[name] + 1 else 0
    {
      if name !in m then None
      else if m[name] == name then Some(name)
      else
        assert Descends(RankOf(m), m, name);
        Get(m[name])
    }

    /** All tables the names lead to, in the arbitrary order of a map iteration. The error
        branch, for a name that leads nowhere, is never taken. */
    method GetAll() returns (r: Result<seq<string>>)
      requires Valid()
      ensures r.Ok? && Common.Distinct(r.value)
      ensures forall n :: n in r.value <==> n in Roots(m)
    {
      var final: set<string> := {};
      var todo := m.Keys;
      while todo != {}
        invariant todo <= m.Keys && final <= Roots(m)
        invariant forall k | k in m.Keys - todo :: Root(m, k) in final
        decreases |todo|
      {
        var k :| k in todo;
        var res := Get(k);
        if res.None? {
          return Err(Invalid);
        }
        final := final + {res.value};
        todo := todo - {k};
      }
      forall n | n in Roots(m)
        ensures n in final
      {
        assert n in m.Keys - todo;
        assert Root(m, n) == n;
      }
      var keys := ToSeq(final);
      return Ok(keys);
    }

    /** In case of a single source, lets the empty name stand for it. Never fails. */
    method Finalize() returns (r: Result<()>)
      requires Valid() && "" !in m
      modifies this
      ensures r.Ok? && Valid() && sources == old(sources)
      ensures m == Finalized(old(m), sources)
    {
      var all := GetAll();
      if all.Err? {
        return Err(Invalid);
      }
      ListsSet(all.value, Roots(m));
      if sources == 1 && |all.value| == 1 {
        assert all.value[0] in Roots(m);
        FreshEdgeKeepsRoots(m, "", all.value[0]);
        m := m["" := all.value[0]];
      }
      return Ok(());
    }
  }

  /** The elements of a set in some order. */
  method ToSeq<T(==)>(s: set<T>) returns (xs: seq<T>)
    ensures Common.Distinct(xs)
    ensures forall x :: x in xs <==> x in s
  {
    xs := [];
    var todo := s;
    while todo != {}
      invariant todo <= s
      invariant Common.Distinct(xs)
      invariant forall x :: x in xs <==> x in s - todo
      decreases |todo|
    {
      var x :| x in todo;
      assert x !in xs;
      xs := xs + [x];
      todo := todo - {x};
    }
  }

  lemma {:induction false} ListsSet<T>(xs: seq<T>, s: set<T>)
    requires Common.Distinct(xs) && forall x :: x in xs <==> x in s
    ensures |xs| == |s|
    decreases |xs|
  {
    if xs == [] {
      assert s == {};
    } else {
      assert xs[0] in s;
      forall x
        ensures x in xs[1..] <==> x in s - {xs[0]}
      {
        assert xs == [xs[0]] + xs[1..];
      }
      ListsSet(xs[1..], s - {xs[0]});
    }
  }
}
