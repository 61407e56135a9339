/** Bookmarks: a table of rows shared by all users, and the proof that users do not notice
    each other in it. */
module Bookmarks {
  import opened Common
  import opened Targets

  datatype Bookmark = Bookmark(id: nat, userId: string, targetId: string, title: string, query: string, createdAt: int)

  datatype Event =
    | Add(user: User, target: string, title: string, query: string, id: nat, now: int)
    | Remove(user: User, id: nat)
    | ListTarget(user: User, target: string)
    | ListEverything(user: User)

  datatype Reply = Done | EmptyInput | TargetNotFound | NoSuchBookmark | DuplicateId | Listing(items: set<Bookmark>)

  type Rows = set<Bookmark>

  predicate HasId(rows: Rows, id: nat) {
    exists r | r in rows :: r.id == id
  }

  function OwnRows(rows: Rows, user: string): Rows {
    set r | r in rows && r.userId == user
  }

  /** All rows but a user's bookmark with an id. */
  function Without(rows: Rows, user: string, id: nat): Rows {
    set r | r in rows && !(r.id == id && r.userId == user)
  }

  function ForTarget(rows: Rows, user: string, target: string): Rows {
    set r | r in rows && r.userId == user && r.targetId == target
  }

  /** The effect of one request on the table, and its answer. */
  function Step(cfg: Config, rows: Rows, e: Event): (Rows, Reply) {
    match e
    case Add(user, target, title, query, id, now) =>
      if TrimSpace(title) == "" || TrimSpace(query) == "" then (rows, EmptyInput)
      else if VisibleTarget(cfg, user, target).None? then (rows, TargetNotFound)
      else if HasId(rows, id) then (rows, DuplicateId)
      else (rows + {Bookmark(id, user.id, target, TrimSpace(title), TrimSpace(query), now)}, Done)
    case Remove(user, id) =>
      if HasId(OwnRows(rows, user.id), id) then (Without(rows, user.id, id), Done)
      else (rows, NoSuchBookmark)
    case ListTarget(user, target) =>
      if VisibleTarget(cfg, user, target).None? then (rows, TargetNotFound)
      else (rows, Listing(ForTarget(rows, user.id, target)))
    case ListEverything(user) => (rows, Listing(OwnRows(rows, user.id)))
  }

  class Store {
    const cfg: Config
    var rows: Rows

    constructor (cfg: Config)
      ensures this.cfg == cfg && rows == {}
    {
      this.cfg := cfg;
      rows := {};
    }

    method AddBookmark(user: User, targetId: string, title: string, query: string, id: nat,
                       now: int) returns (reply: Reply)
      modifies this
      ensures (rows, reply) == Step(cfg, old(rows), Add(user, targetId, title, query, id, now))
    {
      var trimmedTitle := TrimSpace(title);
      var trimmedQuery := TrimSpace(query);
      if trimmedTitle == "" || trimmedQuery == "" {
        return EmptyInput;
      }
      var target := GetTargetByID(cfg, user, targetId);
      if target.None? {
        return TargetNotFound;
      }
      if HasId(rows, id) {
        return DuplicateId;
      }
      rows := rows + {Bookmark(id, user.id, targetId, trimmedTitle, trimmedQuery, now)};
      return Done;
    }

    method DeleteBookmark(user: User, id: nat) returns (reply: Reply)
      modifies this
      ensures (rows, reply) == Step(cfg, old(rows), Remove(user, id))
    {
      var affected := set r | r in rows && r.id == id && r.userId == user.id;
      if affected == {} {
        assert !HasId(OwnRows(rows, user.id), id) by {
          forall r | r in OwnRows(rows, user.id)
            ensures r.id != id
          {
            assert r !in affected;
          }
        }
        return NoSuchBookmark;
      }
      ghost var r :| r in affected;
      assert r in OwnRows(rows, user.id);
      rows := rows - affected;
      assert rows == Without(old(rows), user.id, id);
      return Done;
    }

    /** Newest first; rows of the same time come in any order. */
    method ListBookmarks(user: User, targetId: string) returns (visible: bool, items: seq<Bookmark>)
      ensures visible <==> VisibleTarget(cfg, user, targetId).Some?
      ensures visible ==> Step(cfg, rows, ListTarget(user, targetId)) == (rows, Listing(set b | b in items))
      ensures Distinct(items) && forall i, j | 0 <= i < j < |items| :: items[i].createdAt >= items[j].createdAt
    {
      var target := GetTargetByID(cfg, user, targetId);
      if target.None? {
        return false, [];
      }
      items := NewestFirstOf(ForTarget(rows, user.id, targetId));
      return true, items;
    }

    method ListAllBookmarks(user: User) returns (items: seq<Bookmark>)
      ensures Step(cfg, rows, ListEverything(user)) == (rows, Listing(set b | b in items))
      ensures Distinct(items) && forall i, j | 0 <= i < j < |items| :: items[i].createdAt >= items[j].createdAt
    {
      items := NewestFirstOf(OwnRows(rows, user.id));
    }
  }

  predicate NewestFirst(items: seq<Bookmark>) {
    forall i, j | 0 <= i < j < |items| :: items[i].createdAt >= items[j].createdAt
  }

  /** The answer of an ORDER BY on the creation time, descending. */
  method NewestFirstOf(rows: Rows) returns (items: seq<Bookmark>)
    ensures NewestFirst(items) && Distinct(items)
    ensures (set b | b in items) == rows
  {
    items := [];
    var todo := rows;
    while todo != {}
      invariant todo <= rows
      invariant forall b :: b in items <==> b in rows - todo
      invariant NewestFirst(items) && Distinct(items)
      invariant forall i, b | 0 <= i < |items| && b in todo :: items[i].createdAt >= b.createdAt
      decreases |todo|
    {
      HasNewest(todo);
      var b :| b in todo && forall c | c in todo :: b.createdAt >= c.createdAt;
      assert b !in items;
      items := items + [b];
      todo := todo - {b};
    }
  }

  lemma {:induction false} HasNewest(rows: Rows)
    requires rows != {}
    ensures exists b :: b in rows && forall c | c in rows :: b.createdAt >= c.createdAt
    decreases |rows|
  {
    var b :| b in rows;
    if rows != {b} {
      HasNewest(rows - {b});
      var c :| c in rows - {b} && forall d | d in rows - {b} :: c.createdAt >= d.createdAt;
      var newest := if b.createdAt >= c.createdAt then b else c;
      assert newest in rows && forall d | d in rows :: newest.createdAt >= d.createdAt;
    }
  }

  // ---- What one request does ------------------------------------------------------------------

  /** What a user sees when asking for the bookmarks of a target. */
  predicate Listed(cfg: Config, rows: Rows, user: User, target: string, b: Bookmark) {
    match Step(cfg, rows, ListTarget(user, target)).1
    case Listing(items) => b in items
    case _ => false
  }

  predicate ListedAnywhere(cfg: Config, rows: Rows, user: User, b: Bookmark) {
    match Step(cfg, rows, ListEverything(user)).1
    case Listing(items) => b in items
    case _ => false
  }

  /** Listings show exactly the rows of the user, on the target that was asked for if any. */
  lemma ListedExactly(cfg: Config, rows: Rows, user: User, target: string, b: Bookmark)
    ensures Listed(cfg, rows, user, target, b) <==>
            b in rows && b.userId == user.id && b.targetId == target && VisibleTarget(cfg, user, target).Some?
    ensures ListedAnywhere(cfg, rows, user, b) <==> b in rows && b.userId == user.id
  {
  }

  /** A bookmark is added unless its title or its statement is blank, its target is not visible or
      its id is taken; it is then listed, trimmed, and every other row is as it was. */
  lemma AddedIsListed(cfg: Config, rows: Rows, user: User, target: string, title: string, query: string, id: nat,
                      now: int)
    ensures var (after, reply) := Step(cfg, rows, Add(user, target, title, query, id, now));
            var b := Bookmark(id, user.id, target, TrimSpace(title), TrimSpace(query), now);
            && (reply == EmptyInput <==> AllSpace(title) || AllSpace(query))
            && (reply == TargetNotFound <==>
                  !AllSpace(title) && !AllSpace(query) && VisibleTarget(cfg, user, target).None?)
            && (reply == DuplicateId ==> exists r | r in rows :: r.id == id)
            && (reply != Done ==> after == rows)
            && (reply == Done ==> Listed(cfg, after, user, target, b) && ListedAnywhere(cfg, after, user, b))
            && (reply == Done ==> b !in rows && forall r | r != b :: r in after <==> r in rows)
            && reply in {EmptyInput, TargetNotFound, DuplicateId, Done}
  {
    var _, _ := TrimsSpace(title);
    var _, _ := TrimsSpace(query);
  }

  /** A user's bookmark is removed and listed no more; the user's other bookmarks and everybody
      else's stay, and an id that is not the user's changes nothing. */
  lemma RemovedIsGone(cfg: Config, rows: Rows, user: User, id: nat, b: Bookmark)
    ensures var (after, reply) := Step(cfg, rows, Remove(user, id));
            && (reply == Done <==> exists r | r in rows :: r.id == id && r.userId == user.id)
            && (reply != Done ==> reply == NoSuchBookmark && after == rows)
            && (b in after <==> b in rows && !(b.id == id && b.userId == user.id))
            && (b.id == id ==> !ListedAnywhere(cfg, after, user, b))
  {
    if exists r | r in rows :: r.id == id && r.userId == user.id {
      var r :| r in rows && r.id == id && r.userId == user.id;
      assert r in OwnRows(rows, user.id);
    }
  }

  // ---- Users do not notice each other ---------------------------------------------------------

  function RowsAfter(cfg: Config, events: seq<Event>): Rows {
    if events == [] then {}
    else Step(cfg, RowsAfter(cfg, events[..|events| - 1]), events[|events| - 1]).0
  }

  /** The answers a user has received, in order. */
  function RepliesTo(cfg: Config, events: seq<Event>, user: string): seq<Reply> {
    if events == [] then []
    else
      var front, e := events[..|events| - 1], events[|events| - 1];
      RepliesTo(cfg, front, user)
      + (if e.user.id == user then [Step(cfg, RowsAfter(cfg, front), e).1] else [])
  }

  /** The run in which only one user acts. */
  function Purged(events: seq<Event>, user: string): seq<Event> {
    if events == [] then []
    else
      var e := events[|events| - 1];
      Purged(events[..|events| - 1], user) + (if e.user.id == user then [e] else [])
  }

  /** Every added bookmark has an id of its own. */
  predicate FreshIds(events: seq<Event>) {
    forall i, j | 0 <= i < j < |events| && events[i].Add? && events[j].Add? :: events[i].id != events[j].id
  }

  predicate AddsId(events: seq<Event>, id: nat) {
    exists e | e in events :: e.Add? && e.id == id
  }

  lemma {:induction false} RowsWereAdded(cfg: Config, events: seq<Event>, r: Bookmark)
    requires r in RowsAfter(cfg, events)
    ensures AddsId(events, r.id)
  {
    var front, e := events[..|events| - 1], events[|events| - 1];
    assert events == front + [e];
    if r in RowsAfter(cfg, front) {
      RowsWereAdded(cfg, front, r);
    } else {
      assert e in events;
    }
  }

  lemma {:induction false} PurgedAddsFewer(events: seq<Event>, user: string)
    ensures forall e | e in Purged(events, user) :: e in events
  {
    if events != [] {
      PurgedAddsFewer(events[..|events| - 1], user);
    }
  }

  /** A step of another user leaves a user's rows alone. */
  lemma OthersStep(cfg: Config, rows: Rows, e: Event, user: string)
    requires e.user.id != user
    ensures OwnRows(Step(cfg, rows, e).0, user) == OwnRows(rows, user)
  {
  }

  /** A user's step sees and changes only the user's rows, as long as no id clashes. */
  lemma OwnStep(cfg: Config, rows: Rows, rows': Rows, e: Event)
    requires OwnRows(rows, e.user.id) == OwnRows(rows', e.user.id)
    requires e.Add? ==> !HasId(rows, e.id) && !HasId(rows', e.id)
    ensures Step(cfg, rows, e).1 == Step(cfg, rows', e).1
    ensures OwnRows(Step(cfg, rows, e).0, e.user.id) == OwnRows(Step(cfg, rows', e).0, e.user.id)
  {
    var own := OwnRows(rows, e.user.id);
    match e
    case Add(user, target, title, query, id, now) =>
      var b := Bookmark(id, user.id, target, TrimSpace(title), TrimSpace(query), now);
      assert OwnRows(rows + {b}, user.id) == own + {b} == OwnRows(rows' + {b}, user.id);
    case Remove(user, id) =>
      assert OwnRows(Without(rows, user.id, id), user.id) == Without(own, user.id, id);
      assert OwnRows(Without(rows', user.id, id), user.id) == Without(own, user.id, id);
    case ListTarget(user, target) =>
      assert ForTarget(rows, user.id, target) == ForTarget(own, user.id, target);
      assert ForTarget(rows', user.id, target) == ForTarget(own, user.id, target);
    case ListEverything(_) =>
  }

  lemma NewIdIsFresh(cfg: Config, front: seq<Event>, e: Event, user: string)
    requires FreshIds(front + [e]) && e.Add?
    ensures !HasId(RowsAfter(cfg, front), e.id) && !HasId(RowsAfter(cfg, Purged(front, user)), e.id)
  {
    forall f | f in front && f.Add?
      ensures f.id != e.id
    {
      var i :| 0 <= i < |front| && front[i] == f;
      assert (front + [e])[i] == f && (front + [e])[|front|] == e;
    }
    PurgedAddsFewer(front, user);
    forall r | r in RowsAfter(cfg, front) || r in RowsAfter(cfg, Purged(front, user))
      ensures r.id != e.id
    {
      if r in RowsAfter(cfg, front) {
        RowsWereAdded(cfg, front, r);
      } else {
        RowsWereAdded(cfg, Purged(front, user), r);
      }
    }
  }

  /** Noninterference: in every run with fresh ids, a user has the bookmarks, and has received
      the answers, of the run in which nobody else acts. */
  lemma {:induction false} UsersDoNotInterfere(cfg: Config, events: seq<Event>, user: string)
    requires FreshIds(events)
    ensures OwnRows(RowsAfter(cfg, events), user) == OwnRows(RowsAfter(cfg, Purged(events, user)), user)
    ensures RepliesTo(cfg, events, user) == RepliesTo(cfg, Purged(events, user), user)
  {
    if events != [] {
      var front, e := events[..|events| - 1], events[|events| - 1];
      assert events == front + [e];
      UsersDoNotInterfere(cfg, front, user);
      if e.user.id == user {
        var purged := Purged(front, user) + [e];
        assert purged[..|purged| - 1] == Purged(front, user) && purged[|purged| - 1] == e;
        if e.Add? {
          NewIdIsFresh(cfg, front, e, user);
        }
        OwnStep(cfg, RowsAfter(cfg, front), RowsAfter(cfg, Purged(front, user)), e);
      } else {
        OthersStep(cfg, RowsAfter(cfg, front), e, user);
        assert Purged(front, user) + [] == Purged(front, user);
        assert RepliesTo(cfg, front, user) + [] == RepliesTo(cfg, front, user);
      }
    }
  }
}
