/** Running statements for users: the checks before a statement reaches a target, the pool it
    runs on, and the stored results. `RunSpec` and `Fetch` give each call's effect on a state;
    the class performs them step by step, and the safety theorem is about every sequence of
    calls. */
module Queries {
  import opened Common
  import opened Ast
  import opened Vectors
  import opened SelectParser
  import opened WriteParser
  import opened Relational
  import opened SelectFootprint
  import opened WriteFootprint
  import opened InsertFootprint
  import opened Validator
  import opened Configuration
  import opened Gate
  import opened Targets
  import opened Preflight

  datatype Execution = Execution(user: User, target: string, query: string, connection: Connection)

  datatype QueryRow = QueryRow(id: nat, userId: string, targetId: string, createdAt: int, query: string,
                               response: seq<seq<Value>>)

  /** `conns` holds the settings each cached pool was opened with; `executed` is the log of
      statements sent to a target. */
  datatype State = State(conns: map<string, Connection>, executed: seq<Execution>, results: seq<QueryRow>)

  /** What the outside world answers during one call: whether a pool can be opened, the
      statement run and the result stored, and the fresh id and time. */
  datatype World = World(opens: bool, runs: bool, stores: bool, rows: seq<seq<Value>>, id: nat, now: int)

  datatype Reply =
    | Ran(id: nat, rows: seq<seq<Value>>)
    | TargetNotFound
    | Refused(reason: Refusal)
    | ConnectFailed
    | QueryFailed
    | StoreFailed

  // ---- The effect of a call -------------------------------------------------------------------

  predicate HasId(results: seq<QueryRow>, id: nat) {
    exists r | r in results :: r.id == id
  }

  function RunSpec(cfg: Config, s: State, user: User, target: string, query: string, w: World): (State, Reply) {
    match VisibleTarget(cfg, user, target)
    case None => (s, TargetNotFound)
    case Some(t) =>
      if RefusalOf(cfg, user, t, query).Some? then (s, Refused(RefusalOf(cfg, user, t, query).value))
      else if t.id !in s.conns && !w.opens then (s, ConnectFailed)
      else
        var conn := if t.id in s.conns then s.conns[t.id] else t.connection;
        var sent := State(s.conns[t.id := conn], s.executed + [Execution(user, target, query, conn)], s.results);
        if !w.runs then (sent, QueryFailed)
        else if !w.stores || HasId(s.results, w.id) then (sent, StoreFailed)
        else (sent.(results := s.results + [QueryRow(w.id, user.id, target, w.now, query, w.rows)]), Ran(w.id, w.rows))
  }

  predicate CanRead(user: User, owner: string) {
    user.role == Admin || user.id == owner
  }

  function ById(results: seq<QueryRow>, id: nat): (r: Option<QueryRow>)
    ensures r.Some? ==> r.value in results && r.value.id == id
    ensures r.None? ==> forall x | x in results :: x.id != id
  {
    if results == [] then None else if results[0].id == id then Some(results[0]) else ById(results[1..], id)
  }

  /** A stored result is fetched as not found unless its reader may see it. */
  function Fetch(s: State, user: User, id: nat): Option<QueryRow> {
    match ById(s.results, id)
    case Some(r) => if CanRead(user, r.userId) then Some(r) else None
    case None => None
  }

  class Service {
    const cfg: Config
    var conns: map<string, Connection>
    var executed: seq<Execution>
    var results: seq<QueryRow>

    ghost function View(): State
      reads this
    {
      State(conns, executed, results)
    }

    constructor (cfg: Config)
      ensures this.cfg == cfg && View() == Initial()
    {
      this.cfg := cfg;
      conns, executed, results := map[], [], [];
    }

    /** The cached pool of a target, or a new one which is then cached. */
    method GetConnection(target: Target, opens: bool) returns (conn: Option<Connection>)
      modifies this`conns
      ensures target.id in old(conns) ==> conn == Some(old(conns)[target.id]) && conns == old(conns)
      ensures target.id !in old(conns) && opens
              ==> conn == Some(target.connection) && conns == old(conns)[target.id := target.connection]
      ensures target.id !in old(conns) && !opens ==> conn == None && conns == old(conns)
    {
      if target.id in conns {
        return Some(conns[target.id]);
      }
      if !opens {
        return None;
      }
      conns := conns[target.id := target.connection];
      return Some(target.connection);
    }

    method RunQuery(user: User, targetId: string, query: string, w: World) returns (reply: Reply)
      modifies this
      ensures (View(), reply) == RunSpec(cfg, old(View()), user, targetId, query, w)
    {
      var target := GetTargetByID(cfg, user, targetId);
      if target.None? {
        return TargetNotFound;
      }
      var refusal := CheckQuery(cfg, user, target.value, query);
      if refusal.Some? {
        return Refused(refusal.value);
      }
      var conn := GetConnection(target.value, w.opens);
      if conn.None? {
        return ConnectFailed;
      }
      assert conns == old(conns)[target.value.id := conn.value];
      executed := executed + [Execution(user, targetId, query, conn.value)];
      if !w.runs {
        return QueryFailed;
      }
      if !w.stores || HasId(results, w.id) {
        return StoreFailed;
      }
      results := results + [QueryRow(w.id, user.id, targetId, w.now, query, w.rows)];
      return Ran(w.id, w.rows);
    }

    method GetQueryResults(user: User, id: nat) returns (r: Option<QueryRow>)
      ensures r == Fetch(View(), user, id)
    {
      for i := 0 to |results|
        invariant ById(results, id) == ById(results[i..], id)
      {
        assert results[i..][0] == results[i] && results[i..][1..] == results[i + 1..];
        if results[i].id == id {
          if !CanRead(user, results[i].userId) {
            return None;
          }
          return Some(results[i]);
        }
      }
      return None;
    }
  }

  // ---- What one call does ---------------------------------------------------------------------

  /** A statement that is approved on a visible target, when the world does its part, answers with
      the very rows the target returned, and its user can fetch them from then on. */
  lemma RunReturnsRows(cfg: Config, s: State, user: User, target: string, query: string, w: World)
    requires VisibleTarget(cfg, user, target).Some?
    requires Approved(cfg, user, VisibleTarget(cfg, user, target).value, query)
    requires w.opens && w.runs && w.stores && forall r | r in s.results :: r.id != w.id
    ensures var (s', reply) := RunSpec(cfg, s, user, target, query, w);
            && reply == Ran(w.id, w.rows)
            && Fetch(s', user, w.id) == Some(QueryRow(w.id, user.id, target, w.now, query, w.rows))
            && s'.results[..|s.results|] == s.results
  {
    var (s', _) := RunSpec(cfg, s, user, target, query, w);
    LastById(s.results, s'.results[|s.results|]);
  }

  lemma {:induction false} LastById(results: seq<QueryRow>, row: QueryRow)
    requires forall r | r in results :: r.id != row.id
    ensures ById(results + [row], row.id) == Some(row)
  {
    if results != [] {
      LastById(results[1..], row);
      assert (results + [row])[1..] == results[1..] + [row];
    }
  }

  lemma {:induction false} FoundStaysFound(results: seq<QueryRow>, more: seq<QueryRow>, id: nat)
    requires ById(results, id).Some?
    ensures ById(results + more, id) == ById(results, id)
  {
    if results[0].id != id {
      FoundStaysFound(results[1..], more, id);
      assert (results + more)[1..] == results[1..] + more;
    }
  }

  /** What a user can fetch stays as it is, whatever calls follow. */
  lemma {:induction false} FetchedStays(cfg: Config, s: State, calls: seq<Call>, user: User, id: nat)
    requires Fetch(s, user, id).Some?
    ensures Fetch(RunAll(cfg, s, calls), user, id) == Fetch(s, user, id)
  {
    if calls != [] {
      var c, before := calls[|calls| - 1], RunAll(cfg, s, calls[..|calls| - 1]);
      FetchedStays(cfg, s, calls[..|calls| - 1], user, id);
      var after := RunAll(cfg, s, calls);
      assert after.results == before.results + after.results[|before.results|..];
      FoundStaysFound(before.results, after.results[|before.results|..], id);
    }
  }

  /** A call that fails stores nothing; each failure has its own cause, and the statement is sent
      to the target unless the call failed before that. */
  lemma FailuresStoreNothing(cfg: Config, s: State, user: User, target: string, query: string, w: World)
    ensures var (s', reply) := RunSpec(cfg, s, user, target, query, w);
            var found := VisibleTarget(cfg, user, target);
            && (!reply.Ran? ==> s'.results == s.results)
            && (reply == TargetNotFound <==> found.None?)
            && (reply.Refused? <==> found.Some? && !Approved(cfg, user, found.value, query))
            && (reply.Refused? ==> Some(reply.reason) == RefusalOf(cfg, user, found.value, query))
            && (reply == ConnectFailed <==>
                  found.Some? && Approved(cfg, user, found.value, query) && target !in s.conns && !w.opens)
            && (reply == TargetNotFound || reply.Refused? || reply == ConnectFailed ==> s' == s)
            && (reply == QueryFailed || reply == StoreFailed || reply.Ran? <==>
                  |s'.executed| == |s.executed| + 1 && s'.executed[..|s.executed|] == s.executed
                  && s'.executed[|s.executed|].user == user && s'.executed[|s.executed|].target == target
                  && s'.executed[|s.executed|].query == query)
            && (s' != s ==> target in s'.conns && s'.executed[|s.executed|].connection == s'.conns[target]
                            && (target in s.conns ==> s'.conns == s.conns))
            && (s' != s ==>
                  && (reply == QueryFailed <==> !w.runs)
                  && (reply == StoreFailed <==> w.runs && (!w.stores || exists r | r in s.results :: r.id == w.id)))
  {
  }

  // ---- Every run is safe ----------------------------------------------------------------------

  function Initial(): State {
    State(map[], [], [])
  }

  datatype Call = Call(user: User, target: string, query: string, world: World)

  function RunAll(cfg: Config, s: State, calls: seq<Call>): State {
    if calls == [] then s
    else
      var c := calls[|calls| - 1];
      RunSpec(cfg, RunAll(cfg, s, calls[..|calls| - 1]), c.user, c.target, c.query, c.world).0
  }

  function AfterCalls(cfg: Config, calls: seq<Call>): State {
    RunAll(cfg, Initial(), calls)
  }

  /** An execution on a target its user can see, over the connection configured for that
      target, of a statement approved for that user and that target. */
  predicate Authorised(cfg: Config, e: Execution) {
    match VisibleTarget(cfg, e.user, e.target)
    case Some(t) => Approved(cfg, e.user, t, e.query) && e.connection == t.connection
    case None => false
  }

  datatype Deed = Deed(userId: string, target: string, query: string)

  function Deeds(executed: seq<Execution>): (r: seq<Deed>)
    ensures |r| == |executed|
  {
    seq(|executed|, i requires 0 <= i < |executed| => Deed(executed[i].user.id, executed[i].target, executed[i].query))
  }

  function Recorded(results: seq<QueryRow>): (r: seq<Deed>)
    ensures |r| == |results|
  {
    seq(|results|, i requires 0 <= i < |results| => Deed(results[i].userId, results[i].targetId, results[i].query))
  }

  /** Every cached pool belongs to the first target with its id; every execution was
      authorised; every stored result has an execution of its own with the same owner, target
      and statement; result ids are unique. */
  predicate Safe(cfg: Config, s: State) {
    && PoolsConfigured(cfg, s.conns)
    && (forall e | e in s.executed :: Authorised(cfg, e))
    && multiset(Recorded(s.results)) <= multiset(Deeds(s.executed))
    && UniqueIds(s.results)
  }

  lemma NewExecutionIsAuthorised(cfg: Config, s: State, user: User, target: string, query: string, w: World)
    requires Safe(cfg, s)
    ensures var s' := RunSpec(cfg, s, user, target, query, w).0;
            s'.executed == s.executed
            || (|s'.executed| == |s.executed| + 1 && s'.executed[..|s.executed|] == s.executed
                && Authorised(cfg, s'.executed[|s.executed|]))
  {
  }

  lemma NewResultIsRecorded(cfg: Config, s: State, user: User, target: string, query: string, w: World)
    requires Safe(cfg, s)
    ensures var s' := RunSpec(cfg, s, user, target, query, w).0;
            multiset(Recorded(s'.results)) <= multiset(Deeds(s'.executed))
  {
    var s' := RunSpec(cfg, s, user, target, query, w).0;
    var deed := Deed(user.id, target, query);
    if s' != s {
      assert Deeds(s'.executed) == Deeds(s.executed) + [deed];
      if s'.results != s.results {
        assert Recorded(s'.results) == Recorded(s.results) + [deed];
      }
    }
  }

  lemma OneMoreHolds<T>(holds: T -> bool, before: seq<T>, after: seq<T>)
    requires forall x | x in before :: holds(x)
    requires |after| == |before| + 1 && after[..|before|] == before && holds(after[|before|])
    ensures forall x | x in after :: holds(x)
  {
    assert after == before + [after[|before|]];
  }

  predicate PoolsConfigured(cfg: Config, conns: map<string, Connection>) {
    forall id | id in conns ::
        FirstTarget(cfg.targets, id).Some? && conns[id] == FirstTarget(cfg.targets, id).value.connection
  }

  predicate UniqueIds(results: seq<QueryRow>) {
    forall i, j | 0 <= i < j < |results| :: results[i].id != results[j].id
  }

  lemma PoolsStayConfigured(cfg: Config, s: State, user: User, target: string, query: string, w: World)
    requires PoolsConfigured(cfg, s.conns) && UniqueIds(s.results)
    ensures PoolsConfigured(cfg, RunSpec(cfg, s, user, target, query, w).0.conns)
    ensures UniqueIds(RunSpec(cfg, s, user, target, query, w).0.results)
  {
    assert !HasId(s.results, w.id) ==> forall r | r in s.results :: r.id != w.id;
  }

  lemma RunKeepsSafe(cfg: Config, s: State, user: User, target: string, query: string, w: World)
    requires Safe(cfg, s)
    ensures Safe(cfg, RunSpec(cfg, s, user, target, query, w).0)
  {
    var s' := RunSpec(cfg, s, user, target, query, w).0;
    PoolsStayConfigured(cfg, s, user, target, query, w);
    NewExecutionIsAuthorised(cfg, s, user, target, query, w);
    NewResultIsRecorded(cfg, s, user, target, query, w);
    if s'.executed != s.executed {
      var authorised := e => Authorised(cfg, e);
      OneMoreHolds(authorised, s.executed, s'.executed);
      assert forall e | e in s'.executed :: authorised(e);
    }
  }

  lemma {:induction false} EveryRunIsSafe(cfg: Config, calls: seq<Call>)
    ensures Safe(cfg, AfterCalls(cfg, calls))
  {
    if calls != [] {
      var c := calls[|calls| - 1];
      EveryRunIsSafe(cfg, calls[..|calls| - 1]);
      RunKeepsSafe(cfg, AfterCalls(cfg, calls[..|calls| - 1]), c.user, c.target, c.query, c.world);
    }
  }

  // ---- What executed statements can see and change ------------------------------------------------

  /** The configured tables of the target a statement was executed on. */
  function SchemaFor(cfg: Config, e: Execution): DbSchema
    requires VisibleTarget(cfg, e.user, e.target).Some?
  {
    SchemaOfTarget(VisibleTarget(cfg, e.user, e.target).value)
  }

  /** The policy lets a user do something to a table of a target. */
  predicate Permits(cfg: Config, e: Execution, op: Op, id: TableId) {
    cfg.allowQuery(Subjects(e.user), e.target, op, NameOf(id))
  }

  /** The analysis of a statement was within the configuration, and permitted, as an operation of
      the given kind. */
  predicate Cleared(cfg: Config, e: Execution, op: Op, groups: Result<Groups>) {
    && VisibleTarget(cfg, e.user, e.target).Some? && groups.Ok?
    && GroupsKnown(SchemaFor(cfg, e), groups.value)
    && forall t | t in groups.value ::
         cfg.allowQuery(Subjects(e.user), e.target, op, CanonicalTable(SchemaFor(cfg, e), t))
  }

  /** In every run, whatever was executed is a single SELECT, INSERT, UPDATE or DELETE, and it is
      that statement which was checked, as what it is. */
  lemma ExecutedIsOneStatement(cfg: Config, calls: seq<Call>, e: Execution)
    requires e in AfterCalls(cfg, calls).executed
    ensures cfg.parse(e.query).Statements? && |cfg.parse(e.query).stmts| == 1
    ensures match cfg.parse(e.query).stmts[0]
            case Select(sel) => Cleared(cfg, e, OpSelect, SelectGroups(sel))
            case Insert(ins) => Cleared(cfg, e, OpInsert, InsertGroups(ins))
            case Update(upd) => Cleared(cfg, e, OpUpdate, UpdateGroups(upd))
            case Delete(del) => Cleared(cfg, e, OpDelete, DeleteGroups(del))
            case OtherStatement => false
  {
    ExecutedIsApproved(cfg, calls, e);
    var (op, g) := Analysed(cfg.parse(e.query)).value;
    AnalysedExactly(cfg.parse(e.query), op, g);
  }

  lemma ExecutedIsApproved(cfg: Config, calls: seq<Call>, e: Execution)
    requires e in AfterCalls(cfg, calls).executed
    ensures VisibleTarget(cfg, e.user, e.target).Some? && VisibleTarget(cfg, e.user, e.target).value.id == e.target
    ensures Approved(cfg, e.user, VisibleTarget(cfg, e.user, e.target).value, e.query)
  {
    EveryRunIsSafe(cfg, calls);
    assert Authorised(cfg, e);
  }

  /** In every run, an executed SELECT that loses no table and whose sources are located reads
      only configured tables that the policy lets its user select from, and what it returns
      depends only on their configured columns. */
  lemma ExecutedSelectsAreConfined(ops: Ops, cfg: Config, calls: seq<Call>, e: Execution, sel: SelectStmt)
    requires e in AfterCalls(cfg, calls).executed && cfg.parse(e.query) == Statements([Select(sel)])
    ensures VisibleTarget(cfg, e.user, e.target).Some? && SelectGroups(sel).Ok?
    ensures SpellingsStay(Leaves(sel.from[0])) && AllLocated(SchemaFor(cfg, e), Leaves(sel.from[0])) ==>
      && (forall rel | rel in Leaves(sel.from[0]) ::
            Configured(SchemaFor(cfg, e), Locate(rel)) && Permits(cfg, e, OpSelect, Locate(rel)))
      && (Tracked(sel) ==> SelectConfined(ops, SchemaFor(cfg, e), sel))
  {
    ExecutedIsApproved(cfg, calls, e);
    if SpellingsStay(Leaves(sel.from[0])) && AllLocated(SchemaFor(cfg, e), Leaves(sel.from[0])) {
      KnownSelect(ops, SchemaFor(cfg, e), sel, SelectGroups(sel).value);
    }
  }

  /** An executed UPDATE of a located table changes nothing but cells in its configured columns;
      if it mentions a column, the policy lets its user update that table, and what it does
      depends only on configured columns. */
  lemma ExecutedUpdatesAreConfined(ops: Ops, cfg: Config, calls: seq<Call>, e: Execution, upd: UpdateStmt)
    requires e in AfterCalls(cfg, calls).executed && cfg.parse(e.query) == Statements([Update(upd)])
    ensures VisibleTarget(cfg, e.user, e.target).Some? && UpdateGroups(upd).Ok?
    ensures AllLocated(SchemaFor(cfg, e), [upd.rel]) ==>
      && (forall db :: WritesOnly(db, AfterUpdate(ops, db, upd), Locate(upd.rel),
                                  ConfiguredColumns(SchemaFor(cfg, e), Locate(upd.rel))))
      && (UpdateGroups(upd).value != map[] ==>
            && Configured(SchemaFor(cfg, e), Locate(upd.rel)) && Permits(cfg, e, OpUpdate, Locate(upd.rel))
            && UpdateConfined(ops, SchemaFor(cfg, e), upd))
  {
    ExecutedIsApproved(cfg, calls, e);
    if AllLocated(SchemaFor(cfg, e), [upd.rel]) {
      KnownUpdate(ops, SchemaFor(cfg, e), upd, UpdateGroups(upd).value);
    }
  }

  /** An executed DELETE from a located table. */
  lemma ExecutedDeletesAreConfined(ops: Ops, cfg: Config, calls: seq<Call>, e: Execution, del: DeleteStmt)
    requires e in AfterCalls(cfg, calls).executed && cfg.parse(e.query) == Statements([Delete(del)])
    ensures VisibleTarget(cfg, e.user, e.target).Some?
    ensures AllLocated(SchemaFor(cfg, e), [del.rel]) ==>
      && Configured(SchemaFor(cfg, e), Locate(del.rel)) && Permits(cfg, e, OpDelete, Locate(del.rel))
      && (forall db :: UnchangedElsewhere(db, AfterDelete(ops, db, del), Locate(del.rel)))
      && DeleteConfined(ops, SchemaFor(cfg, e), del)
  {
    ExecutedIsApproved(cfg, calls, e);
    if AllLocated(SchemaFor(cfg, e), [del.rel]) {
      KnownDelete(ops, SchemaFor(cfg, e), del, DeleteGroups(del).value);
    }
  }

  /** An executed INSERT into a located table. */
  lemma ExecutedInsertsAreConfined(ops: Ops, cfg: Config, calls: seq<Call>, e: Execution, ins: InsertStmt,
                                   order: seq<string>)
    requires e in AfterCalls(cfg, calls).executed && cfg.parse(e.query) == Statements([Insert(ins)])
             && Common.Distinct(order)
    ensures VisibleTarget(cfg, e.user, e.target).Some?
    ensures AllLocated(SchemaFor(cfg, e), [ins.rel]) ==>
      && Configured(SchemaFor(cfg, e), Locate(ins.rel)) && Permits(cfg, e, OpInsert, Locate(ins.rel))
      && (forall db :: UnchangedElsewhere(db, AfterInsert(ops, db, ins, order), Locate(ins.rel)))
      && ((forall items | items in ValueLists(ins) ::
             FillsOnly(ins, order, items, ConfiguredColumns(SchemaFor(cfg, e), Locate(ins.rel)))) ==>
            InsertConfined(ops, SchemaFor(cfg, e), ins, order))
  {
    ExecutedIsApproved(cfg, calls, e);
    if AllLocated(SchemaFor(cfg, e), [ins.rel]) {
      KnownInsert(ops, SchemaFor(cfg, e), ins, InsertGroups(ins).value, order);
    }
  }

  // ---- Reading results --------------------------------------------------------------------------

  function OwnedBy(results: seq<QueryRow>, user: string): seq<QueryRow> {
    if results == [] then []
    else (if results[0].userId == user then [results[0]] else []) + OwnedBy(results[1..], user)
  }

  /** A stored result is given to its owner and to admins, and to nobody else. */
  lemma {:induction false} FetchedExactly(s: State, user: User, r: QueryRow)
    requires r in s.results && UniqueIds(s.results)
    ensures Fetch(s, user, r.id) == if user.role == Admin || user.id == r.userId then Some(r) else None
    decreases |s.results|
  {
    if s.results[0] != r {
      var i :| 0 <= i < |s.results| && s.results[i] == r;
      FetchedExactly(s.(results := s.results[1..]), user, r);
    }
  }

  /** A user who is no admin cannot tell the results of others from results that do not
      exist: every fetch answers as if only the user's own results were stored. */
  lemma {:induction false} OthersResultsDoNotExist(s: State, user: User, id: nat)
    requires user.role != Admin
    requires UniqueIds(s.results)
    ensures Fetch(s, user, id) == Fetch(s.(results := OwnedBy(s.results, user.id)), user, id)
    decreases |s.results|
  {
    if s.results != [] {
      var first, rest := s.results[0], s.(results := s.results[1..]);
      OthersResultsDoNotExist(rest, user, id);
      var owned := OwnedBy(s.results[1..], user.id);
      assert ([first] + owned)[1..] == owned && [] + owned == owned;
      if first.id == id && first.userId != user.id {
        NotOwned(s.results[1..], user.id, id);
      }
    }
  }

  lemma {:induction false} NotOwned(results: seq<QueryRow>, user: string, id: nat)
    requires forall r | r in results :: r.id != id
    ensures ById(OwnedBy(results, user), id) == None
  {
    if results != [] {
      NotOwned(results[1..], user, id);
      var owned := OwnedBy(results[1..], user);
      assert ([results[0]] + owned)[1..] == owned && [] + owned == owned;
    }
  }
}
