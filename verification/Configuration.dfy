/** Which table of the database a configured entry means. The configuration and the analyser
    deal in names; the database deals in tables. */
module Configuration {
  import opened Common
  import opened Ast
  import opened TableNames
  import opened Relational
  import opened SelectFootprint
  import opened Validator

  /** The name of a table in the configuration. */
  function NameOf(id: TableId): string {
    (if id.catalog != "" then id.catalog + "." else "") + InSchema(id.schema, id.name)
  }

  predicate DotFree(id: TableId) {
    !HasDot(id.catalog) && !HasDot(id.schema) && !HasDot(id.name)
  }

  /** An entry means the table whose name it is, read with dots as separators only. */
  predicate Denotes(entry: string, id: TableId) {
    DotFree(id) && entry == NameOf(id)
  }

  lemma SplitAtDot(x: string, y: string, x': string, y': string)
    requires !HasDot(x) && !HasDot(x') && x + "." + y == x' + "." + y'
    ensures x == x' && y == y'
  {
    var s, s' := x + "." + y, x' + "." + y';
    assert s[|x|] == '.' && s'[|x'|] == '.';
    assert forall i | 0 <= i < |x| :: x[i] in x && s[i] == x[i];
    assert forall i | 0 <= i < |x'| :: x'[i] in x' && s'[i] == x'[i];
    assert x == s[..|x|] && x' == s'[..|x'|];
    assert y == s[|x| + 1..] && y' == s'[|x'| + 1..];
  }

  /** So an entry means at most one table. */
  lemma DenotesOneTable(entry: string, a: TableId, b: TableId)
    requires Denotes(entry, a) && Denotes(entry, b)
    ensures a == b
  {
    var first, second := if a.catalog != "" then a.catalog else a.schema, if b.catalog != "" then b.catalog
        else b.schema;
    var rest := if a.catalog != "" then InSchema(a.schema, a.name) else a.name;
    var rest' := if b.catalog != "" then InSchema(b.schema, b.name) else b.name;
    assert entry == first + "." + rest && entry == second + "." + rest';
    SplitAtDot(first, rest, second, rest');
    QualifiedHasDot(a.schema, a.name);
    QualifiedHasDot(b.schema, b.name);
    if a.catalog != "" {
      SplitAtDot(a.schema, a.name, b.schema, b.name);
    }
  }

  function EntryOf(schema: DbSchema, id: TableId): (r: Option<TargetTable>)
    ensures r.Some? ==> r.value in schema.tables && Denotes(r.value.table, id)
    ensures r.None? ==> forall t | t in schema.tables :: !Denotes(t.table, id)
  {
    if DotFree(id) then FindFirst(schema.tables, [NameOf(id)]) else None
  }

  predicate Configured(schema: DbSchema, id: TableId) {
    EntryOf(schema, id).Some?
  }

  function ConfiguredColumns(schema: DbSchema, id: TableId): set<string> {
    match EntryOf(schema, id)
    case Some(entry) => set f | f in entry.fields
    case None => {}
  }

  /** Two databases hold as many rows in each configured table, with all its configured columns
      and equal in them. Nothing is asked of other tables. */
  ghost predicate AgreeOnConfigured(schema: DbSchema, a: Database, b: Database) {
    forall id | Configured(schema, id) :: SameRows(ConfiguredColumns(schema, id), TableRows(a, id), TableRows(b, id))
  }

  // ---- Where names and tables part ------------------------------------------------------------

  /** A source whose name in the statement is read by the gateway as by the database. */
  predicate Located(defaultSchema: string, rel: Relation) {
    && DotFree(Locate(rel))
    && (rel.schema != "" || (rel.catalog == "" && defaultSchema == SEARCH_PATH))
  }

  /** In a valid configuration, the entry a source finds means the table the database takes the
      source for, if and only if the source has no dots inside its names and either writes its
      schema or leaves it to a default that is the database's own. */
  lemma EntryIsTable(schema: DbSchema, rel: Relation)
    requires TablesHaveSchemas(schema) && FindTable(schema, FullName(rel)).Some?
    ensures Denotes(FindTable(schema, FullName(rel)).value.table, Locate(rel)) <==> Located(schema.defaultSchema, rel)
  {
    NamesOfSource(rel);
    if rel.schema == "" && rel.catalog == "" && !HasDot(rel.name) {
      if schema.defaultSchema != SEARCH_PATH {
        SchemasTellApart(schema.defaultSchema, SEARCH_PATH, rel.name);
      }
    }
  }

  /** What a located source finds is the entry of its table. */
  lemma LocatedFindsEntry(schema: DbSchema, rel: Relation)
    requires TablesHaveSchemas(schema) && Located(schema.defaultSchema, rel)
    ensures FindTable(schema, FullName(rel)) == EntryOf(schema, Locate(rel))
  {
    NamesOfSource(rel);
    if rel.schema == "" {
      SameEntry(schema.tables, rel.name, InSchema(schema.defaultSchema, rel.name));
    }
  }

  /** How the name of a source relates to the name of its table. */
  lemma NamesOfSource(rel: Relation)
    ensures rel.schema != "" ==> FullName(rel) == NameOf(Locate(rel)) && HasDot(FullName(rel))
    ensures rel.schema == "" ==> FullName(rel) != NameOf(Locate(rel))
    ensures rel.schema == "" && rel.catalog != "" ==> HasDot(FullName(rel))
    ensures rel.schema == "" && rel.catalog == ""
            ==> FullName(rel) == rel.name && NameOf(Locate(rel)) == InSchema(SEARCH_PATH, rel.name)
    ensures !HasDot(SEARCH_PATH) && !HasDot("")
  {
    if rel.schema != "" {
      assert FullName(rel) == NameOf(Locate(rel));
      QualifiedHasDot(rel.schema, rel.name);
      assert InSchema(rel.schema, rel.name)[|rel.schema|] == '.';
      assert FullName(rel)[|FullName(rel)| - |InSchema(rel.schema, rel.name)| + |rel.schema|] == '.';
    } else {
      assert |FullName(rel)| < |NameOf(Locate(rel))|;
      if rel.catalog != "" {
        assert FullName(rel)[|rel.catalog|] == '.';
      }
    }
  }

  /** A located source that the schema check finds reads and writes a configured table, and the
      columns the check allows are the configured ones of that table. */
  lemma LocatedIsConfigured(schema: DbSchema, rel: Relation)
    requires TablesHaveSchemas(schema) && Located(schema.defaultSchema, rel)
    ensures FindTable(schema, FullName(rel)).Some? ==>
              && Configured(schema, Locate(rel))
              && CanonicalTable(schema, FullName(rel)) == NameOf(Locate(rel))
    ensures FieldsOf(schema, FullName(rel)) <= ConfiguredColumns(schema, Locate(rel))
  {
    LocatedFindsEntry(schema, rel);
  }

  /** For every other source there is a valid configuration that lets the source pass without
      having the table the database takes it for. */
  lemma UnlocatedIsFound(defaultSchema: string, rel: Relation, fields: seq<string>) returns (schema: DbSchema)
    requires rel.name != "" && !Located(defaultSchema, rel)
    ensures schema.defaultSchema == defaultSchema && TablesHaveSchemas(schema)
    ensures FindTable(schema, FullName(rel)).Some? && FindTable(schema, FullName(rel)).value.fields == fields
    ensures !Configured(schema, Locate(rel))
  {
    NamesOfSource(rel);
    QualifiedHasDot(defaultSchema, rel.name);
    var entry := if HasDot(FullName(rel)) then FullName(rel) else InSchema(defaultSchema, rel.name);
    schema := DbSchema(defaultSchema, [TargetTable(entry, fields)]);
    EntryIsTable(schema, rel);
  }

  /** Located sources with one full name have one table. */
  lemma LocatedNamesTellTables(defaultSchema: string, rels: seq<Relation>)
    requires forall rel | rel in rels :: Located(defaultSchema, rel)
    ensures NamesTellTables(rels)
  {
    forall a, b | a in rels && b in rels && FullName(a) == FullName(b)
      ensures Locate(a) == Locate(b)
    {
      NamesOfSource(a);
      NamesOfSource(b);
      if a.schema != "" && b.schema != "" {
        DenotesOneTable(FullName(a), Locate(a), Locate(b));
      }
    }
  }

  /** So every valid configuration with a given default schema that finds a source has its table,
      if and only if the source is located. */
  lemma ConfiguredExactlyIfLocated(defaultSchema: string, rel: Relation)
    requires rel.name != ""
    ensures (forall schema: DbSchema | schema.defaultSchema == defaultSchema && TablesHaveSchemas(schema)
                                       && FindTable(schema, FullName(rel)).Some? ::
               Configured(schema, Locate(rel)))
            <==> Located(defaultSchema, rel)
  {
    if Located(defaultSchema, rel) {
      forall schema: DbSchema | schema.defaultSchema == defaultSchema && TablesHaveSchemas(schema)
                                && FindTable(schema, FullName(rel)).Some?
        ensures Configured(schema, Locate(rel))
      {
        LocatedIsConfigured(schema, rel);
      }
    } else {
      var schema := UnlocatedIsFound(defaultSchema, rel, []);
    }
  }
}
