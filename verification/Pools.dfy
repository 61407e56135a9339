/** The cache of connection pools under concurrent calls. A call looks the target up under the
    read lock, opens a pool without any lock, and stores it under the write lock; each of these
    is one step here, and a schedule is any sequence of steps of any calls. */
module Pools {
  import opened Common
  import opened Targets

  /** A pool remembers the settings it was opened with; serial numbers tell pools apart. */
  datatype Pool = Pool(serial: nat, settings: Connection)

  datatype Phase = Asked | Opening | Opened(pool: Pool) | Returned(pool: Pool) | Failed

  datatype Call = Call(target: Target, phase: Phase)

  datatype State = State(conns: map<string, Pool>, calls: map<nat, Call>, serials: nat)

  datatype Event =
    | Begin(call: nat, user: User, target: string)
    | ReadCache(call: nat)
    | OpenPool(call: nat, ok: bool)
    | StorePool(call: nat)

  function Initial(): State {
    State(map[], map[], 0)
  }

  function Goto(s: State, call: nat, phase: Phase): State
    requires call in s.calls
  {
    s.(calls := s.calls[call := s.calls[call].(phase := phase)])
  }

  /** One step; a step whose call is not at that point does nothing. */
  function Step(cfg: Config, s: State, e: Event): State {
    match e
    case Begin(c, user, id) =>
      var target := VisibleTarget(cfg, user, id);
      if c in s.calls || target.None? then s
      else s.(calls := s.calls[c := Call(target.value, Asked)])
    case ReadCache(c) =>
      if c !in s.calls || s.calls[c].phase != Asked then s
      else
        var id := s.calls[c].target.id;
        Goto(s, c, if id in s.conns then Returned(s.conns[id]) else Opening)
    case OpenPool(c, ok) =>
      if c !in s.calls || s.calls[c].phase != Opening then s
      else if !ok then Goto(s, c, Failed)
      else Goto(s, c, Opened(Pool(s.serials, s.calls[c].target.connection))).(serials := s.serials + 1)
    case StorePool(c) =>
      if c !in s.calls || !s.calls[c].phase.Opened? then s
      else
        var pool := s.calls[c].phase.pool;
        Goto(s, c, Returned(pool)).(conns := s.conns[s.calls[c].target.id := pool])
  }

  function Steps(cfg: Config, s: State, schedule: seq<Event>): State {
    if schedule == [] then s
    else Step(cfg, Steps(cfg, s, schedule[..|schedule| - 1]), schedule[|schedule| - 1])
  }

  /** The settings configured for an id. */
  predicate Configured(cfg: Config, id: string, settings: Connection) {
    match FirstTarget(cfg.targets, id)
    case Some(t) => t.connection == settings
    case None => false
  }

  predicate CallOk(cfg: Config, call: Call) {
    && FirstTarget(cfg.targets, call.target.id) == Some(call.target)
    && (call.phase.Opened? || call.phase.Returned? ==> call.phase.pool.settings == call.target.connection)
  }

  /** Every cached pool, and every pool a call holds or has returned, was opened with the
      settings of the first configured target with that id. */
  predicate Consistent(cfg: Config, s: State) {
    && (forall id | id in s.conns :: Configured(cfg, id, s.conns[id].settings))
    && (forall c | c in s.calls :: CallOk(cfg, s.calls[c]))
  }

  lemma StepKeepsConsistent(cfg: Config, s: State, e: Event)
    requires Consistent(cfg, s)
    ensures Consistent(cfg, Step(cfg, s, e))
  {
    if e.call in s.calls {
      assert CallOk(cfg, s.calls[e.call]);
    }
  }

  lemma {:induction false} EveryScheduleConsistent(cfg: Config, schedule: seq<Event>)
    ensures Consistent(cfg, Steps(cfg, Initial(), schedule))
  {
    if schedule != [] {
      EveryScheduleConsistent(cfg, schedule[..|schedule| - 1]);
      StepKeepsConsistent(cfg, Steps(cfg, Initial(), schedule[..|schedule| - 1]), schedule[|schedule| - 1]);
    }
  }

  /** A call that has begun keeps its target, and an id once cached stays cached. */
  lemma {:induction false} NothingDisappears(cfg: Config, s: State, schedule: seq<Event>)
    ensures s.conns.Keys <= Steps(cfg, s, schedule).conns.Keys
    ensures forall c | c in s.calls ::
            c in Steps(cfg, s, schedule).calls && Steps(cfg, s, schedule).calls[c].target == s.calls[c].target
  {
    if schedule != [] {
      NothingDisappears(cfg, s, schedule[..|schedule| - 1]);
    }
  }

  /** After an id has been stored, no call that begins for it opens another pool: at every
      later point of every schedule it either has yet to look or has got a cached pool. */
  lemma {:induction false} NoSecondPool(cfg: Config, s: State, schedule: seq<Event>, c: nat)
    requires c !in s.calls
    ensures var s' := Steps(cfg, s, schedule);
            c in s'.calls && s'.calls[c].target.id in s.conns ==>
              s'.calls[c].phase.Asked? || s'.calls[c].phase.Returned?
  {
    if schedule != [] {
      var front := schedule[..|schedule| - 1];
      NoSecondPool(cfg, s, front, c);
      NothingDisappears(cfg, s, front);
    }
  }

  /** Hence a call found opening a pool for an id that had been stored by an earlier point of
      the schedule had begun by that point. */
  lemma OpenersBeganBeforeStore(cfg: Config, before: seq<Event>, after: seq<Event>, c: nat)
    requires var s := Steps(cfg, Steps(cfg, Initial(), before), after);
             c in s.calls && s.calls[c].phase.Opening? && s.calls[c].target.id in Steps(cfg, Initial(), before).conns
    ensures c in Steps(cfg, Initial(), before).calls
  {
    if c !in Steps(cfg, Initial(), before).calls {
      NoSecondPool(cfg, Steps(cfg, Initial(), before), after, c);
    }
  }

  /** A call that has opened a pool returns that pool, whatever other calls do meanwhile. */
  lemma {:induction false} OpenersReturnTheirOwn(cfg: Config, s: State, schedule: seq<Event>, c: nat, pool: Pool)
    requires c in s.calls && s.calls[c].phase in {Opened(pool), Returned(pool)}
    ensures c in Steps(cfg, s, schedule).calls
    ensures Steps(cfg, s, schedule).calls[c].phase in {Opened(pool), Returned(pool)}
  {
    if schedule != [] {
      OpenersReturnTheirOwn(cfg, s, schedule[..|schedule| - 1], c, pool);
    }
  }

  /** A call begins for exactly the targets its user can see, and for the configured target itself. */
  lemma BeginsIfVisible(cfg: Config, s: State, c: nat, user: User, id: string)
    requires c !in s.calls
    ensures c in Step(cfg, s, Begin(c, user, id)).calls <==>
            cfg.allowTarget(Subjects(user), id) && exists t | t in cfg.targets :: t.id == id
    ensures c in Step(cfg, s, Begin(c, user, id)).calls ==>
              Some(Step(cfg, s, Begin(c, user, id)).calls[c].target) == FirstTarget(cfg.targets, id)
  {
  }

  /** Storing a pool caches it for its id, in place of one that may have been stored before, and
      changes no other id and no other call. */
  lemma LastStoreIsCached(cfg: Config, s: State, c: nat)
    requires c in s.calls && s.calls[c].phase.Opened?
    ensures var s', id, pool := Step(cfg, s, StorePool(c)), s.calls[c].target.id, s.calls[c].phase.pool;
            && s'.conns == s.conns[id := pool] && s'.calls == s.calls[c := s.calls[c].(phase := Returned(pool))]
  {
  }

  /** Pools have serial numbers of their own: below the next one, and different for calls that
      have opened one each. */
  predicate SerialsApart(s: State) {
    && (forall c | c in s.calls && s.calls[c].phase.Opened? :: s.calls[c].phase.pool.serial < s.serials)
    && (forall c, d | c in s.calls && d in s.calls && c != d && s.calls[c].phase.Opened? && s.calls[d].phase.Opened? ::
          s.calls[c].phase.pool.serial != s.calls[d].phase.pool.serial)
  }

  lemma {:induction false} NoSharedOpening(cfg: Config, schedule: seq<Event>)
    ensures SerialsApart(Steps(cfg, Initial(), schedule))
  {
    if schedule != [] {
      NoSharedOpening(cfg, schedule[..|schedule| - 1]);
    }
  }

  /** Two calls that both found nothing cached: each returns the pool it opened, and the cache
      ends up with the one stored last. */
  lemma TwoOpeners(cfg: Config, s: State, c: nat, d: nat)
    requires c != d && c in s.calls && d in s.calls && s.calls[c].target.id == s.calls[d].target.id
    requires s.calls[c].phase == Opening && s.calls[d].phase == Opening
    ensures var s' := Steps(cfg, s, [OpenPool(c, true), OpenPool(d, true), StorePool(c), StorePool(d)]);
            && c in s'.calls && d in s'.calls && s.calls[c].target.id in s'.conns
            && s'.calls[c].phase == Returned(Pool(s.serials, s.calls[c].target.connection))
            && s'.calls[d].phase == Returned(Pool(s.serials + 1, s.calls[d].target.connection))
            && s'.conns[s.calls[c].target.id] == Pool(s.serials + 1, s.calls[d].target.connection)
  {
    var e1, e2, e3, e4 := OpenPool(c, true), OpenPool(d, true), StorePool(c), StorePool(d);
    assert [e1, e2, e3, e4][..3] == [e1, e2, e3] && [e1, e2, e3][..2] == [e1, e2] && [e1, e2][..1] == [e1];
    assert Steps(cfg, s, [e1]) == Step(cfg, s, e1);
    assert Steps(cfg, s, [e1, e2]) == Step(cfg, Step(cfg, s, e1), e2);
    assert Steps(cfg, s, [e1, e2, e3]) == Step(cfg, Step(cfg, Step(cfg, s, e1), e2), e3);
  }

  /** Run alone, the three steps of a call do what `getConnection` does in sequence: it ends
      with the cached pool, or with a new one that is then cached, or fails leaving no trace. */
  lemma AloneIsSequential(cfg: Config, s: State, c: nat, user: User, id: string, ok: bool)
    requires c !in s.calls && VisibleTarget(cfg, user, id).Some?
    ensures var s' := Step(cfg, Step(cfg, Step(cfg, Step(cfg, s, Begin(c, user, id)), ReadCache(c)), OpenPool(c, ok)),
                           StorePool(c));
            var t := VisibleTarget(cfg, user, id).value;
            && c in s'.calls
            && if id in s.conns then s'.calls[c].phase == Returned(s.conns[id]) && s'.conns == s.conns
               else if ok then s'.calls[c].phase == Returned(Pool(s.serials, t.connection))
                   && s'.conns == s.conns[id := Pool(s.serials, t.connection)]
               else s'.calls[c].phase == Failed && s'.conns == s.conns
  {
  }
}
