# Database gateway: a verified model

The gateway lets people run SQL on shared PostgreSQL targets. It never rewrites a statement. It
parses it, walks the syntax tree, and works out which columns of which tables the statement
touches: one *access vector* per table. The vectors are looked up in the configured tables of
the target and put to a policy, and only then is the statement sent. Everything rests on one
idea: a statement can see and change nothing that its vectors do not list.

This project models the path from syntax tree to verdict, the service around it, and a small
semantics of the SQL statements it accepts, and proves what the vectors do promise. Where a
promise needs a condition the code does not enforce, the condition is a precondition of the
theorem, and a lemma gives statements that break it and the promise with it, or says exactly
when the promise holds.

`dafny verify dfyconfig.toml` checks the project. There is one module per file.

| area | modules |
|---|---|
| syntax tree, shared vocabulary | `Ast`, `Common`, `Columns` |
| statement to vectors | `NameGraph`, `TableNames`, `Predicates`, `SelectParser`, `WriteParser`, `Vectors`, `Dialect`, `Refusals` |
| what statements mean | `Relational`, `SelectMeaning`, `SelectLaws`, `WriteFootprint`, `InsertFootprint` |
| what vectors promise | `SelectFootprint`, `WriteFootprint`, `InsertFootprint`, `FootprintLimits` |
| the verdict | `Validator`, `Configuration`, `Gate`, `Preflight`, `Spelling` |
| the service | `Targets`, `Queries`, `Bookmarks`, `Pools`, `Paging` |

## How to read it

*The analyser.* Each walker is a method with the loops of the original, proved equal to a pure
function (`ParseWhereClause` against `ConditionColumns`, `HandleSelect` against `SelectGroups`,
and so on), and the theorems are about those functions. `Tables` is a class whose map is proved
to stay a forest of self-loops after every `Put`; that rank is what makes its recursive `Get`
terminate. Go iterates maps in arbitrary order, and so do the methods here: `Renders` and
`Describes` say "these vectors, in some order", and the theorems hold for every such order.

*The meaning of SQL.* A database maps table ids to rows, and rows to nullable cells. The
semantics covers inner, left, right and full joins, three-valued conditions, GROUP BY,
aggregates, ORDER BY (bare names mean output columns first), OFFSET, LIMIT and WITH TIES,
UPDATE, DELETE, RETURNING and INSERT with ON CONFLICT. Operators, functions, aggregates, value
ordering, column defaults and conflicts are fields of `Ops`, arbitrary functions over which
every theorem is quantified. `SelectLaws` ties the clauses down by laws of their own: which pairs a
join has, that WHERE, GROUP BY and ORDER BY lose and invent no row, what LIMIT takes and what an
UPDATE leaves alone.

*Sources that share names.* `Put` overwrites earlier keys, so one source can take over the name
of another; after `clients AS x JOIN secret AS clients` the table `clients` is gone and `x`
leads to `secret`. A table *keeps* a name if every other writer of that name is followed by one
of its own; sources that spell one table differently are one table here. `SpellingsStayExactly`
says that no table is lost exactly if every table keeps its spellings, and
`BindingsAgreeExactly` that a reference is then led to the table the database binds it to
exactly if that table keeps the qualifier used. The footprint of SELECT asks this of the
references of the statement (`RefsLeadHome`), and `ConfinedExactlyIfKept` shows that it must.

*What a column name means.* A name that is a column of the row it is bound to means that column.
PostgreSQL may take any other name for the whole row, as with the alias of the source itself, or
for a function of the row. Here such a name reads an arbitrary function of the row (`absent` in
`Ops`), and databases *agree* in columns only if they have them.

*Names and tables.* The gateway compares names, the database reads tables. A source is *located*
if both take it the same way: no dots inside its identifiers, and its schema either written or
left to a default schema that is the search path of the database. `EntryIsTable` says that this
is exactly when the entry a source finds means the table it reads. The theorems of `Gate` and
`Queries` are about located sources and speak of tables: agreement is on the configured columns
of the configured tables.

*Where the code does other than one may expect.* The errors of `GetAll` and `Finalize` for a
name that leads nowhere are never returned: no such name exists. An UPDATE that mentions no
column has no vector (`UpdateHasOneVector`). `pNodes2Columns` lists a RETURNING item by its alias
and does not visit its value (`NamedReturningEscapes`). A star argument is skipped for every
allowed function, not only for `count`, and also under DISTINCT (`StarArgumentEscapes`). LIMIT and OFFSET are not walked
(`RowCountEscapes`). A table that is taken over is not checked (`TakeoverEscapes`), a
reference may be checked against a table it does not mean (`MisplacedEscapes`), and a name that
holds a dot may find the entry of another table (`UnlocatedEscapes`). Column lists of aliases are
not looked at (`RenamedExactly`), nor whether a configured column exists (`AbsentColumnEscapes`).
An INSERT without a
column list may write columns its vector does not list (`InsertFillsExactly`). The kind of a
refusal may depend on map iteration (`KindVariesExactly`). Page offsets wrap around
(`FarPageWrapsAround`).

## Model

| member | source | states |
|---|---|---|
| Columns.PNodeColumnRef | internal/parser/op_select.go:54-76 | A reference is readable exactly if it is one to four plain identifiers; it denotes its last identifier, qualified by the others; a star is "not implemented". |
| Columns.DenotedParts | internal/parser/op_select.go:54-76 | The qualifier and the column of a readable reference are its identifiers, in order. |
| Columns.ListNames | internal/parser/parser.go:224-230 | The names of a column list, in order, none dropped. |
| Predicates.ParseAexpr | internal/parser/op_update.go:42-108 | The expression walker computes `ExprColumns`: same columns in the same order, same error kind. |
| Predicates.ParseWhereClause | internal/parser/op_update.go:218-282 | The condition walker computes `ConditionColumns`, for unbounded nesting. |
| Predicates.ExpressionWhitelist | internal/parser/op_update.go:42-108 | An expression is accepted if and only if it lies in the grammar `IsExpression`; the columns found are then every reference anywhere in it, in order. |
| Predicates.ConditionWhitelist | internal/parser/op_update.go:218-282 | A condition is accepted if and only if it lies in the grammar `IsCondition`; the columns found are then every reference anywhere in it, in order. |
| NameGraph.PutKeepsAcyclic | internal/parser/parser.go:98-129 | Inserting a source keeps the rank: every edge leads to a key, and strictly down unless it is a self-loop. |
| NameGraph.GraphAcyclic | internal/parser/parser.go:98-129 | Hence any sequence of insertions builds an acyclic graph. |
| NameGraph.LastWriter | internal/parser/parser.go:119-126 | A key leads, in one edge, to the last source inserted under it. |
| NameGraph.FreshEdgeKeepsRoots | internal/parser/parser.go:160-171 | Sending a new name to a root changes where no other name leads. |
| NameGraph.FinalizedGraph | internal/parser/parser.go:160-171 | After `Finalize` the graph is acyclic, has the same tables, and maps the empty name if and only if there is exactly one source, to that source. |
| NameGraph.NoSourceLost | internal/parser/parser.go:98-129 | The tables a graph ends with are exactly the tables inserted, if and only if no source takes over the full name of another for good. |
| NameGraph.KeptNames | internal/parser/parser.go:119-126 | A set of tables keeps a name (every other writer of it is followed by one of the set) exactly if that name maps into the set. |
| NameGraph.LeadsHome | internal/parser/parser.go:135-146 | A key leads into a set of tables that keeps both that key and the full names of its tables. |
| NameGraph.LeadsHomeExactly | internal/parser/parser.go:135-146 | When no table is lost, a key leads into a set of tables if and only if the set keeps it. |
| TableNames.WriteFullName | internal/parser/parser.go:98-117 | The buffer holds catalog, schema and name joined by dots, leaving out what is absent. |
| TableNames.Tables.Put | internal/parser/parser.go:98-129 | A nameless relation is refused and changes nothing; any other overwrites the keys bare, full, default-qualified and alias, counts one more source, and keeps the graph acyclic. |
| TableNames.Tables.Get | internal/parser/parser.go:135-146 | The recursion ends, and finds the self-loop a key leads to; only names that are no keys fail. |
| TableNames.Tables.GetAll | internal/parser/parser.go:182-200 | Never fails; lists each table some name leads to exactly once, in arbitrary order. |
| TableNames.Tables.Finalize | internal/parser/parser.go:160-171 | Never fails; adds the empty name for an only source and nothing else. |
| TableNames.NamesInFacts | internal/parser/parser.go:98-200 | The finished graph of any FROM clause is acyclic, and the empty name is a key if and only if the clause has one source. |
| TableNames.QualifiersExactly | internal/parser/parser.go:119-126 | Over one source, the qualifiers that resolve are exactly its name, alias and full name, its name in `public` if it has no schema, and none at all. |
| TableNames.TablesKept | internal/parser/parser.go:119-126 | A statement keeps every table it names, if and only if there is no takeover. |
| TableNames.TakeoverLosesSource | internal/parser/parser.go:119-126 | For all names `t`, `u`, `x`: after `t AS x` beside `u AS t`, table `t` is lost and `x` leads to `u`. |
| TableNames.SharingNothingKeepsNames | internal/parser/parser.go:98-200 | Sources that share no name lose no table and keep all their names. |
| TableNames.AliasesSuffice | internal/parser/parser.go:98-200 | Sharing nothing is not necessary: tables of one name in two schemas keep aliases of their own. |
| TableNames.NameLeadsHome | internal/parser/parser.go:135-146 | In the finished graph of a statement, a key leads into a set of tables that keeps it and the full names of its tables. |
| TableNames.NameLeadsHomeExactly | internal/parser/parser.go:135-146 | When no table is lost, it leads there if and only if the set keeps it. |
| Vectors.GroupingContents | internal/parser/op_select.go:306-327 | After grouping, the tables are the seeded ones and those led to, and each list is exactly the references leading there, in order. |
| Vectors.Grouping | internal/parser/op_select.go:306-327 | Grouping succeeds if and only if every reference resolves, and has the contents above. |
| Vectors.MakeAll | internal/parser/op_select.go:329-338 | Every group becomes one vector, in arbitrary order. |
| Vectors.OrderIsAllThatVaries | internal/parser/op_select.go:329-338 | Two iteration orders give vectors that are permutations of each other. |
| Vectors.Conservation | internal/parser/op_select.go:306-338 | As multisets, the columns of the vectors are the references, each under the table it leads to: none lost, duplicated, invented or moved. |
| SelectParser.CollectSelectFromTables | internal/parser/op_select.go:103-129 | Inserts exactly the leaves of the join tree, left to right, and counts them; fails with the first unsupported or nameless item. |
| SelectParser.ParseSelectJoinColumns | internal/parser/op_select.go:131-157 | Finds the columns of every nested ON, left, right, then own. |
| SelectParser.JoinPassesAgree | internal/parser/op_select.go:103-157 | If the first pass accepts a tree, the second fails only inside an ON clause, and misses no reference of one. |
| SelectParser.StatementWalk | internal/parser/op_select.go:189-304 | The loops over targets, WHERE, ON, ORDER BY and GROUP BY find `StatementColumns`, or the first error in that order. |
| SelectParser.GroupByTable | internal/parser/op_select.go:306-340 | The grouping loops compute the groups of `Distribute`, and its error, and render them as vectors in some order. |
| SelectParser.HandleSelect | internal/parser/op_select.go:159-341 | The handler accepts exactly when `SelectGroups` does, with its error kind otherwise, and its vectors are those groups in some order. |
| SelectFootprint.StatementWalked | internal/parser/op_select.go:189-304 | The columns walked are exactly the references of an independent traversal of the whole statement. |
| SelectFootprint.ArgumentIsListed | internal/parser/op_select.go:232-246 | Every argument of a call that is a plain column is listed under the table it leads to; only references with a star are skipped. |
| SelectFootprint.SelectConservation | internal/parser/op_select.go:159-341 | For an accepted SELECT, the vectors hold as a multiset exactly its references, each under its own table. |
| SelectFootprint.SeveralSourcesQualify | internal/parser/op_select.go:316-327 | An accepted SELECT over several sources has no unqualified reference. |
| SelectFootprint.VectorTables | internal/parser/op_select.go:306-340 | The tables of the vectors are those of the FROM clause, if and only if there is no takeover. |
| SelectFootprint.BindingsAgree | internal/parser/op_select.go:316-327 | A reference whose qualifier is kept by the table the database binds it to is led by the analyser to a spelling of that table. |
| SelectFootprint.BindingsAgreeExactly | internal/parser/op_select.go:316-327 | When no source takes over another, it is led there if and only if the qualifier is kept. |
| SelectFootprint.SpellingsStayExactly | internal/parser/parser.go:98-200 | Where full names tell tables apart, every source leads to a spelling of its own table if and only if no table is lost to another; one spelling of a table may take over another. |
| SelectFootprint.SharingNothingSuffices | internal/parser/op_select.go:316-327 | Every accepted SELECT over sources that share no name loses no table, and all its references lead home. |
| SelectFootprint.AliasedJoinLeadsHome | internal/parser/op_select.go:316-327 | So do the references of a join of two tables of one name in two schemas under aliases of their own. |
| SelectFootprint.SpellingsOfOneTableLeadHome | internal/parser/op_select.go:316-327 | And those over any number of spellings of one table, although one takes over another. |
| SelectMeaning.ResultReadsRefs | internal/parser/op_select.go:159-341 | In the SQL semantics, databases that have the columns a SELECT refers to and agree in them give the same result, if whole rows are only counted, row counts are constants and no columns are renamed. |
| SelectFootprint.SelectDependsOnFootprint | internal/parser/op_select.go:159-341 | Footprint of SELECT: databases with equal row counts, which have the columns the vectors list and are equal in them, give an accepted and tracked SELECT the same result. |
| FootprintLimits.StarArgumentEscapes | internal/parser/op_select.go:216-238 | Every allowed call over `q.*` but a plain `count`, so also `count(DISTINCT q.*)`, is accepted with a vector that lists no column, and its result is the same on two contents of the table if and only if the call makes the same of their whole rows. |
| FootprintLimits.RowCountEscapes | internal/parser/op_select.go:288-290 | Acceptance ignores LIMIT. A row count that is 0 in one database and not in another makes the results differ, unless they are empty anyway. |
| FootprintLimits.TakeoverEscapes | internal/parser/parser.go:119-126 | `SELECT x.c FROM t AS x CROSS JOIN u AS t` lists only `u`, passes a configuration without `t`, and its result depends on `t`. |
| FootprintLimits.UnlocatedEscapes | internal/validator/schema.go:40-54 | For every source that is not located, some valid configuration lets a SELECT from it pass while its table is not configured and decides the result. |
| FootprintLimits.ConfinedExactlyIfLocated | internal/validator/schema.go:40-54 | The schema check confines `SELECT c FROM rel` to configured columns under every valid configuration with a given default schema, if and only if the source is located. |
| FootprintLimits.MisplacedEscapes | internal/parser/op_select.go:316-327 | A reference to a name its own table does not keep is checked against another table: the statement passes a configuration in which only the other table has the column, and is not confined. |
| FootprintLimits.ConfinedExactlyIfKept | internal/parser/op_select.go:316-327 | Over two located tables side by side, none of which is lost, `SELECT q.c` is confined by every valid configuration that lets it pass, if and only if the table that `q` means keeps that name. |
| FootprintLimits.AliasOfAnother | internal/parser/parser.go:119-126 | Such statements exist: in `SELECT t.c FROM u AS t CROSS JOIN t AS a` no table is lost, and `u` does not keep its alias `t`. |
| FootprintLimits.AbsentColumnEscapes | internal/validator/validator.go:53-70 | A configured column that its table lacks lets `SELECT c` pass, and its result is whatever the database makes of that name in whole rows. |
| FootprintLimits.RenamedExactly | internal/parser/op_select.go:90-101 | With a column list on the alias, `SELECT c` is accepted with `c` listed, and depends only on `c` if and only if the list gives the name `c` to the column `c`. |
| Dialect.SelectAccepted | internal/parser/op_select.go:159-341 | A SELECT is accepted if and only if it lies in a declarative dialect and each reference resolves. |
| Dialect.AllowedNames | internal/parser/op_select.go:45-52 | The functions let pass are count, lower, upper, sum, min and max, in any case of letters. |
| Dialect.InsertAccepted | internal/parser/op_insert.go:40-167 | An INSERT is accepted if and only if it lies in its dialect and each qualifier names its table. |
| Dialect.UpdateAccepted | internal/parser/op_update.go:110-216 | The same for UPDATE. |
| Dialect.DeleteAccepted | internal/parser/op_delete.go:41-90 | The same for DELETE. |
| Refusals.RefRefusedFor | internal/parser/op_select.go:54-76 | A reference is unsupported exactly if it holds anything but identifiers, and otherwise wrong exactly if it has none or more than four. |
| Refusals.ConditionRefusedFor | internal/parser/op_update.go:42-108 | A refused condition has a reason of the kind it is refused for, at any depth. |
| Refusals.SelectRefusedFor | internal/parser/op_select.go:159-341 | A SELECT refused as not implemented has an unsupported part or an unqualified reference among several sources; one refused otherwise has something wrong, listed case by case. |
| Refusals.InsertRefusedFor | internal/parser/op_insert.go:40-167 | The same for INSERT. |
| Refusals.UpdateRefusedFor | internal/parser/op_update.go:110-216 | The same for UPDATE. |
| Refusals.DeleteRefusedFor | internal/parser/op_delete.go:41-90 | The same for DELETE. |
| WriteParser.PNodes2Columns | internal/parser/op_insert.go:169-224 | A named item stands for that column of the default table without a look at its value; an unnamed one must be a column reference. |
| WriteParser.CheckSource | internal/parser/op_insert.go:61-112 | Only literal rows, or none, may be inserted. |
| WriteParser.HandleInsert | internal/parser/op_insert.go:40-167 | The handler accepts exactly when `InsertGroups` does, same error kind, same groups in some order. |
| WriteParser.SetListWalk | internal/parser/op_update.go:126-182 | Each assignment lists the column written and every column its value reads. |
| WriteParser.HandleUpdate | internal/parser/op_update.go:110-216 | The handler accepts exactly when `UpdateGroups` does, same error kind, same groups in some order. |
| WriteParser.HandleDelete | internal/parser/op_delete.go:41-90 | The handler accepts exactly when `DeleteGroups` does, same error kind, same groups in some order. |
| WriteParser.InsertHasOneVector | internal/parser/op_insert.go:147-166 | An accepted INSERT has exactly one vector: its operation, its table's full name, and the columns of its column list, RETURNING list, conflict keys and conflict targets, in order. |
| WriteParser.DeleteHasOneVector | internal/parser/op_delete.go:69-89 | An accepted DELETE has exactly one vector: its operation, its table's full name, and the columns of its RETURNING list and of its condition, in order. |
| WriteParser.UpdateHasOneVector | internal/parser/op_update.go:196-215 | An accepted UPDATE has at most one vector, and none exactly if it mentions no column: its operation, its table's full name, and the columns its assignments write and read, those of its RETURNING list and of its condition, in order. |
| WriteFootprint.UpdateWritesFootprint | internal/parser/op_update.go:110-216 | An accepted UPDATE changes only its table, adds and removes no row, and changes no cell outside the listed columns. |
| WriteFootprint.UpdateReadsFootprint | internal/parser/op_update.go:110-216 | On databases that have the listed columns and agree in them it selects the same rows, leaves databases that agree and, if it returns only listed columns, returns the same values. |
| WriteFootprint.UpdateReturnsExactly | internal/parser/op_update.go:110-216 | Where an UPDATE selects a row that has the listed columns, and returns columns, what it returns depends only on listed columns if and only if every returned column is listed. |
| WriteFootprint.DeleteFootprint | internal/parser/op_delete.go:41-90 | An accepted DELETE changes only its table; on databases that have the listed columns and agree in them it removes the same rows, leaves databases that agree and, if it returns only listed columns, returns the same values. |
| WriteFootprint.DeleteReturnsExactly | internal/parser/op_delete.go:41-90 | Where a DELETE removes a row that has the listed columns, and returns columns, what it returns depends only on listed columns if and only if every returned column is listed. |
| WriteFootprint.DeleteRemovesSelected | internal/parser/op_delete.go:41-90 | Exactly the selected rows go; the multiset of the others stays. |
| WriteFootprint.NamedReturningEscapes | internal/parser/op_insert.go:199-207 | `DELETE FROM t RETURNING column AS name` is accepted with only `name` listed; its values depend on an unlisted column if and only if the two differ. |
| InsertFootprint.InsertFillsExactly | internal/parser/op_insert.go:40-167 | An accepted INSERT leaves every unlisted column of a new row at its default, if and only if it has a column list or each literal stands for a listed column. |
| InsertFootprint.InsertIsCovered | internal/parser/op_insert.go:113-145 | The vector of an accepted INSERT covers what RETURNING items without a name return, the keys of its conflict clause and the columns that clause sets. |
| InsertFootprint.InsertWritesFootprint | internal/parser/op_insert.go:40-167 | It changes only its table; under that condition older rows keep their unlisted cells, ON CONFLICT or not, and new rows have defaults there. |
| InsertFootprint.InsertAppends | internal/parser/op_insert.go:113-145 | Without ON CONFLICT older rows stay as they are, followed by one new row for each value list. |
| Validator.GetTable | internal/validator/schema.go:40-54 | The first configured table whose name is the written one or, for a name without a dot, that name in the default schema. |
| Validator.FoundIsFirst | internal/validator/schema.go:47-51 | Of several configured entries that fit, the first one counts. |
| Validator.CanonicalNamesSameEntry | internal/validator/schema.go:40-63 | A name and its canonical form find the same entry, so policy and schema check speak of one table; canonical names are canonical. |
| Validator.Parse | internal/parser/parser.go:38-82 | Exactly one statement of a supported kind is analysed, by its own handler. |
| Validator.AnalysedExactly | internal/parser/parser.go:38-82 | A text is analysed, as an operation with its groups, if and only if it is exactly one statement, of one of the four kinds, and its handler says so. |
| Validator.ComplicatedExactly | internal/parser/parser.go:50-82 | It is complicated if and only if it is one statement that has no handler or whose handler does not implement it. |
| Validator.MakeVectors | internal/validator/vecs.go:39-82 | One vector per table with the statement's operation and exactly its columns, none repeated, in arbitrary order. |
| Validator.ValidateSchema | internal/validator/validator.go:53-70 | The verdict is that of the first vector that is not known: unknown table or unknown column; none means allowed. |
| Validator.IsAllowed | internal/validator/validator.go:35-50 | Complicated, parse failure, the verdict of the schema check, denied or allowed: denied if and only if the policy alone refuses, allowed if and only if the statement is analysed, every vector is configured and every vector is approved. |
| Validator.SchemaCheckIsSetLevel | internal/validator/validator.go:53-70 | For every iteration order, the schema check equals a check of the groups as a set. |
| Validator.AccessCheckIsSetLevel | internal/validator/validator.go:73-79 | For every iteration order, the access check asks about exactly the tables led to. |
| Validator.VerdictIgnoresOrder | internal/validator/validator.go:35-50 | Two runs that iterate their maps differently both allow a statement or both refuse it. |
| Validator.KindVariesExactly | internal/validator/validator.go:53-70 | The kind of a schema refusal is the same for every order, unless the statement leaves both the configured tables and the columns of a configured one. |
| Configuration.DenotesOneTable | internal/validator/schema.go:40-63 | A configured name means at most one table. |
| Configuration.EntryIsTable | internal/validator/schema.go:40-63 | In a valid configuration the entry a source finds means the table the database takes the source for, if and only if the source is located: no dots inside its names, and its schema written or left to a default that is the database's own. |
| Configuration.LocatedFindsEntry | internal/validator/schema.go:40-54 | What a located source finds is the entry of its own table, and nothing if there is none. |
| Configuration.ConfiguredExactlyIfLocated | internal/validator/schema.go:40-63 | Every valid configuration with a given default schema that finds a source has its table, if and only if the source is located. |
| Gate.KnownSelect | internal/validator/validator.go:53-70 | A SELECT that passes the schema check, loses no table and has located sources reads only configured tables, which the policy is asked about by their own names; if it is tracked, its result is the same on all databases that agree on the configured columns of configured tables. |
| Gate.AllowedSelect | internal/validator/validator.go:35-79 | If a SELECT that loses no table is allowed, every table of its FROM clause was found and approved under one of its spellings; with located sources these are the tables it reads, and if it is tracked its result depends only on their configured columns. |
| Gate.KnownUpdate | internal/validator/validator.go:53-70 | An UPDATE of a located table that passes the schema check changes only cells in configured columns of that table, and what it does depends only on configured columns. |
| Gate.KnownDelete | internal/validator/validator.go:53-70 | A DELETE from a located table that passes the schema check removes rows of that configured table only, and which ones depends only on configured columns. |
| Gate.KnownInsert | internal/validator/validator.go:53-70 | An INSERT into a located table that passes the schema check changes that configured table only; cells outside the configured columns stay or have defaults, exactly if the literals stand for configured columns. |
| Gate.AllowedUpdate | internal/validator/validator.go:35-79 | If an UPDATE that mentions a column is allowed, its table was approved; a located table is configured, and the UPDATE reads and writes only its configured columns. |
| Gate.AllowedDelete | internal/validator/validator.go:35-79 | If a DELETE is allowed, its table was approved; a located table is configured, the only one to change, and the rows removed depend only on configured columns. |
| Gate.AllowedInsert | internal/validator/validator.go:35-79 | If an INSERT is allowed, its table was approved; a located table is configured and the only one to change, and outside its configured columns nothing but defaults is written, exactly if the literals stand for configured columns. |
| Spelling.QualificationInvariance | internal/validator/schema.go:40-63 | `FROM t` and `FROM public.t` are accepted alike, with the same columns, pass the schema check alike and have the same canonical table. |
| Spelling.InsertRespelled | internal/parser/op_insert.go:40-167 | The same for `INSERT INTO t` and `public.t`. |
| Spelling.UpdateRespelled | internal/parser/op_update.go:110-216 | The same for `UPDATE t` and `public.t`. |
| Spelling.DeleteRespelled | internal/parser/op_delete.go:41-90 | The same for `DELETE FROM t` and `public.t`. |
| Spelling.SpellingsAgreeExactly | internal/validator/schema.go:40-54 | A name and its `public.` spelling find the same entry in every valid configuration, if and only if the name has no dots. |
| Spelling.SpellingIsIndifferent | internal/app/service.go:154-185 | The two spellings of a statement of any of the four kinds are approved alike, policy included, and if analysed refused for the same reason. |
| Targets.GetTargetByID | internal/app/private.go:68-82 | The first configured target with the id, if the policy allows it to the user. |
| Targets.TargetIsFirst | internal/app/private.go:70-79 | Of several configured targets with one id, the first one counts. |
| Targets.AdminPolicyIsObeyed | internal/app/private.go:68-82 | Under a policy for admins only, a target is reached if and only if the user is an admin and the id is configured. |
| Targets.RoleExactly | internal/app/service.go:639-644 | The policy is asked with the role of an admin exactly for admins, and with that of a user exactly for the others. |
| Targets.NamedExactly | internal/policy/opa/authorizer.go:113-115 | The policy is asked with the name of a user exactly for users with that trimmed id. |
| Targets.TreatedAlikeExactly | internal/app/service.go:639-644 | Every policy treats two users alike if and only if they have the same role and the same trimmed id. |
| Targets.TrimsSpace | internal/app/service.go:468-472 | Trimming takes white space from both ends and nothing else, and leaves nothing exactly of blank texts. |
| Targets.ReachableIsListed | internal/app/service.go:123-132 | A user reaches a target by id exactly if the target list shows that id, and it is the first one listed with it. |
| Preflight.CheckQuery | internal/app/service.go:154-185 | The checks before a statement is sent: refused as not analysed, outside the configuration or denied, in that order, or else approved; whatever the iteration order. |
| Preflight.RefusedFor | internal/app/service.go:154-185 | Each of the three refusals is given exactly for its own reason, the first that applies. |
| Preflight.FoundUnderDefault | internal/app/private.go:74 | A name without a dot is found exactly if it is configured as it is or under the default schema of the target. |
| Preflight.AdminPolicyIsObeyed | internal/app/service.go:154-162 | Under a policy for admins only, a statement that leads to a table is permitted if and only if the user is an admin. |
| Queries.Service.GetConnection | internal/app/private.go:31-66 | The cached pool, or a new one with the target's settings which is then cached; a failure leaves the cache alone. |
| Queries.Service.RunQuery | internal/app/service.go:143-247 | The whole new state: what is sent, cached and stored on each outcome, and the stage that refused. |
| Queries.RunReturnsRows | internal/app/service.go:191-246 | An approved statement on a visible target that runs and is stored answers with exactly the rows of the target, and its user fetches exactly these, with statement, target and time. |
| Queries.FetchedStays | internal/app/service.go:431-459 | Whatever calls follow, a user keeps fetching the same result. |
| Queries.FailuresStoreNothing | internal/app/service.go:143-247 | A failed call stores nothing; each reply is given exactly for its cause, and the statement is sent exactly if the call got as far as a connection. |
| Queries.Service.GetQueryResults | internal/app/service.go:431-459 | The stored result, if the reader owns it or is an admin; otherwise not found. |
| Queries.RunKeepsSafe | internal/app/service.go:143-247 | One call keeps the invariant below. |
| Queries.EveryRunIsSafe | internal/app/service.go:143-247 | In every run, every executed statement was visible, analysed, configured and approved for that user and target and went over that target's own settings; every stored result has an execution of its own with the same owner; ids are unique. |
| Queries.ExecutedIsOneStatement | internal/parser/parser.go:38-82 | In every run, whatever was executed is a single SELECT, INSERT, UPDATE or DELETE, and it is the groups of that statement, under that operation, which were configured and permitted. |
| Queries.ExecutedSelectsAreConfined | internal/app/service.go:143-247 | In every run, an executed SELECT that loses no table and has located sources reads only configured tables of its target that the policy lets its user select from; if it is tracked, it depends only on their configured columns. |
| Queries.ExecutedUpdatesAreConfined | internal/app/service.go:143-247 | In every run, an executed UPDATE of a located table is permitted by the policy and reads and writes only configured columns. |
| Queries.ExecutedDeletesAreConfined | internal/app/service.go:143-247 | In every run, an executed DELETE from a located table is permitted by the policy, changes only that table, and which rows it removes depends only on configured columns. |
| Queries.ExecutedInsertsAreConfined | internal/app/service.go:143-247 | In every run, an executed INSERT into a located table is permitted by the policy and changes only that table; if its literals stand for configured columns, it writes nothing but defaults outside those. |
| Queries.OthersResultsDoNotExist | internal/app/service.go:646-648 | To a user who is no admin, every fetch answers as if only the user's own results were stored. |
| Queries.FetchedExactly | internal/app/service.go:646-648 | A stored result is fetched by its owner and by admins, and by nobody else. |
| Bookmarks.Store.AddBookmark | internal/app/service.go:461-491 | Refuses empty titles and queries, invisible targets and taken ids; otherwise adds one trimmed row of that user and nothing else. |
| Bookmarks.Store.DeleteBookmark | internal/storage/api.go:170-184 | Removes the user's own bookmark with that id, or reports that there is none; never another user's. |
| Bookmarks.Store.ListBookmarks | internal/storage/api.go:186-218 | Exactly the user's rows for a visible target, newest first, none twice. |
| Bookmarks.Store.ListAllBookmarks | internal/storage/api.go:220-249 | Exactly the user's rows, newest first, none twice. |
| Bookmarks.NewestFirstOf | internal/storage/api.go:186-218 | The ORDER BY of the listings: the same rows, none twice, newest first. |
| Bookmarks.OwnStep | internal/app/service.go:461-539 | A user's request answers alike and acts alike on tables that agree on that user's rows. |
| Bookmarks.ListedExactly | internal/storage/api.go:186-249 | Listings show exactly the rows of the user, on the target asked for if any. |
| Bookmarks.AddedIsListed | internal/app/service.go:461-491 | Blank input, invisible targets and taken ids are refused and change nothing; otherwise the trimmed bookmark is listed from then on, and every other row is as it was. |
| Bookmarks.RemovedIsGone | internal/storage/api.go:170-184 | A removal succeeds exactly on a bookmark of the user's own; it is listed no more, and every other row stays. |
| Bookmarks.UsersDoNotInterfere | internal/app/service.go:461-539 | Noninterference: in every run with fresh ids, a user's bookmarks and all answers received are those of the run in which nobody else acts. |
| Pools.EveryScheduleConsistent | internal/app/private.go:31-66 | Under every interleaving, each cached or returned pool was opened with the settings of the first configured target with that id. |
| Pools.NothingDisappears | internal/app/private.go:31-66 | A cached id stays cached, and a call keeps its target. |
| Pools.NoSecondPool | internal/app/private.go:31-66 | A call that begins after an id has been stored never opens another pool for it. |
| Pools.BeginsIfVisible | internal/app/private.go:68-82 | A call begins for exactly the targets that are configured and that the policy lets its user see. |
| Pools.OpenersBeganBeforeStore | internal/app/private.go:31-66 | A call found opening a pool for a stored id had begun before the store. |
| Pools.AloneIsSequential | internal/app/private.go:31-66 | Run alone, the steps of a call do what the sequential operation does. |
| Pools.OpenersReturnTheirOwn | internal/app/private.go:44-66 | A call that has opened a pool returns that pool, whatever other calls do meanwhile. |
| Pools.LastStoreIsCached | internal/app/private.go:61-63 | A store replaces what is cached for its id, and touches no other id and no other call. |
| Pools.NoSharedOpening | internal/app/private.go:44-59 | No two calls ever hold the same opened pool. |
| Pools.TwoOpeners | internal/app/private.go:31-66 | When two calls both find nothing cached, each returns its own pool and the last one stored stays cached. |
| Paging.ListAdminRequests | internal/app/service.go:569-608 | Non-admins are refused; otherwise the page `PageOf` gives for the corrected page number and size, with 64-bit arithmetic. |
| Paging.PageIsSlice | internal/app/service.go:569-608 | Up to the page bound, a page is its slice of the log, and `hasNext` holds exactly if a later row exists. |
| Paging.OffsetBound | internal/app/service.go:584-585 | The 64-bit offset is right if and only if the exact one fits. |
| Paging.PageFailsExactly | internal/app/service.go:584-588 | A page fails exactly if its offset or its look-ahead wraps to a negative number. |
| Paging.FarPageWrapsAround | internal/app/service.go:584-585 | With four rows a page, page 2^62 + 1 shows page 1 again. |
| Paging.PagesPartitionLog | internal/app/service.go:569-608 | Following `hasNext` from page 1 reads the whole log, without gap or repetition. |

## Left out

- The SQL text parser: the model starts at the syntax tree. The tree keeps what the walkers look at; a clause that is only tested for presence is a flag, and every kind of node a walker rejects by default is one `Other` constructor.
- The policy language: `allowTarget` and `allowQuery` are arbitrary functions of their arguments.
- SelectFootprint.SelectDependsOnFootprint: assumes that each reference is made by a name its table keeps, that star arguments stand only under `count` without DISTINCT, that LIMIT and OFFSET are constants, and that no alias renames columns. `MisplacedEscapes`, `StarArgumentEscapes`, `RowCountEscapes` and `RenamedExactly` show why. It compares databases that have the listed columns; `AbsentColumnEscapes` shows why.
- Gate.KnownSelect: needs these conditions too, and located sources of which none is lost; `UnlocatedEscapes` and `TakeoverEscapes` show why.
- WriteFootprint.UpdateReturnsExactly: is about returned items that are columns. An item with an alias may hold any expression; what it returns is covered if it is built from listed columns by operators, and nothing is said of function calls and subqueries there.
- WriteFootprint.DeleteReturnsExactly: likewise.
- Spelling.QualificationInvariance: takes a configuration whose table names carry a schema, as `Validate` in internal/config/config.go:129-138 demands, and a default schema `public`.
- InsertFootprint.InsertWritesFootprint: covers what ON CONFLICT DO UPDATE writes. What its assignments read is not tracked by the gateway and not bounded here; which row a new one clashes with, and the values assigned, are arbitrary. The RETURNING rows of INSERT are not modelled.
- Triggers, cascades of foreign keys, rules, generated columns and row-level policies: a write is taken to do only what its statement says.
- Table inheritance and partitions: a table is taken to hold its rows itself, so a statement on a parent, which also reads and writes its children, is one on a table of all their rows.
- What PostgreSQL does with an alias that lists more columns than the table has: it rejects the statement, and here the surplus names mean nothing.
- A qualifier the database cannot bind makes it reject the statement; in the semantics it reads null.
- What exactly a name means that is no column of its row, such as the name of the source, a function of the row, or in GROUP BY an output column: the semantics leaves that open.
- Types, casts, constraints and evaluation errors are not modelled.
- The search path of every target is `public`, the schema the walkers assume. A table qualified by an explicit catalog that names the current database is not identified with the same table without it.
- Rows come in a fixed scan order and ORDER BY is a stable insertion in that order; PostgreSQL promises neither, so the theorem compares databases that scan alike.
- An UPDATE whose SET list holds index elements: the walker accepts such a tree, no SQL text produces it, and it assigns nothing here.
- A row count in LIMIT or OFFSET that is no constant is an arbitrary function of the database.
- Letter case and white space are those of ASCII.
- Refusals.SelectRefusedFor: says that a refusal has a reason of its kind. Where a statement has reasons of both kinds, which one is met first is the order of the walk, and is part of `StatementWalk` only.
- `SetMapping` and `HasMapping`: used by tests only; the first can break the graph.
- Validator.IsAllowed: has no verdict for `ErrBadQuery`, which the source keeps for a vector of no known kind; there is none. A failed parse has no sentinel in the source and is `ParseFailed` here.
- Queries.Service.RunQuery: takes the answers of the database and of the storage as inputs.
- Queries.Service.GetConnection: is sequential. Its concurrent behaviour is the state machine of `Pools`, in which a pool is a serial number with the settings it was opened with; the text of the connection address is not modelled.
- Bookmarks.Store.ListBookmarks: rows created at the same time come in any order.
- Paging.PagesPartitionLog: speaks of one fixed log; rows added between two pages, and ties in the creation time, can shift it.
- Recent queries of a user, sign-in, sessions, HTTP and RPC handlers, the frontend, exports, identifiers, JSON, migrations, logging and timings.
