/** Users, configured targets, and which targets a user can see. */
module Targets {
  import opened Common
  import opened Ast
  import opened Vectors
  import opened Validator

  datatype Role = Admin | RegularUser

  datatype User = User(id: string, role: Role)

  datatype Connection = Connection(host: string, port: nat, user: string, password: string, db: string, useSsl: bool)

  datatype Target = Target(id: string, connection: Connection, defaultSchema: string, tables: seq<TargetTable>)

  /** The policy engine and the SQL text parser are arbitrary functions of their arguments. */
  datatype Config = Config(
    targets: seq<Target>,
    allowTarget: (seq<string>, string) -> bool,
    allowQuery: (seq<string>, string, Op, string) -> bool,
    parse: string -> ParseTree)

  predicate IsSpace(c: char) {
    c in " \t\n\U{0B}\U{0C}\r"
  }

  /** White space is the blank and the characters from tabulator to carriage return. */
  lemma SpacesExactly(c: char)
    ensures IsSpace(c) <==> c == ' ' || 9 <= c as int <= 13
  {
    assert '\t' as int == 9 && '\n' as int == 10 && '\r' as int == 13;
  }

  predicate AllSpace(s: string) {
    forall c | c in s :: IsSpace(c)
  }

  function TrimLeft(s: string): string {
    if s != [] && IsSpace(s[0]) then TrimLeft(s[1..]) else s
  }

  function TrimRight(s: string): string {
    if s != [] && IsSpace(s[|s| - 1]) then TrimRight(s[..|s| - 1]) else s
  }

  function TrimSpace(s: string): string {
    TrimRight(TrimLeft(s))
  }

  lemma {:induction false} TrimsLeft(s: string) returns (before: string)
    ensures AllSpace(before) && s == before + TrimLeft(s)
    ensures TrimLeft(s) != [] ==> !IsSpace(TrimLeft(s)[0])
  {
    before := "";
    if s != [] && IsSpace(s[0]) {
      var rest := TrimsLeft(s[1..]);
      before := [s[0]] + rest;
      assert s == [s[0]] + s[1..];
    }
  }

  lemma {:induction false} TrimsRight(s: string) returns (after: string)
    ensures AllSpace(after) && s == TrimRight(s) + after
    ensures TrimRight(s) != [] ==> !IsSpace(TrimRight(s)[|TrimRight(s)| - 1])
  {
    after := "";
    if s != [] && IsSpace(s[|s| - 1]) {
      var rest := TrimsRight(s[..|s| - 1]);
      after := rest + [s[|s| - 1]];
      assert s == s[..|s| - 1] + [s[|s| - 1]];
    }
  }

  /** Trimming takes away white space around a text and nothing else, and leaves none there. */
  lemma TrimsSpace(s: string) returns (before: string, after: string)
    ensures AllSpace(before) && AllSpace(after) && s == before + TrimSpace(s) + after
    ensures TrimSpace(s) != [] ==> !IsSpace(TrimSpace(s)[0]) && !IsSpace(TrimSpace(s)[|TrimSpace(s)| - 1])
    ensures TrimSpace(s) == "" <==> AllSpace(s)
  {
    before := TrimsLeft(s);
    after := TrimsRight(TrimLeft(s));
    var t := TrimSpace(s);
    assert s == before + (t + after) == before + t + after;
    if t != [] {
      assert TrimLeft(s)[0] == t[0];
      assert s[|before|] == t[0] && t[0] in s;
    }
  }

  function RoleName(role: Role): string {
    if role.Admin? then "admin" else "user"
  }

  function Subjects(user: User): seq<string> {
    ["user:" + TrimSpace(user.id), "role:" + RoleName(user.role)]
  }

  lemma UsersAreNoRoles(name: string, role: string)
    ensures "user:" + name != "role:" + role
  {
    assert ("user:" + name)[0] == 'u' && ("role:" + role)[0] == 'r';
  }

  lemma AfterPrefix(prefix: string, a: string, b: string)
    ensures prefix + a == prefix + b <==> a == b
  {
    assert (prefix + a)[|prefix|..] == a && (prefix + b)[|prefix|..] == b;
  }

  /** A user is named to the policy by the trimmed id, and by nobody else's. */
  lemma NamedExactly(user: User, name: string)
    ensures "user:" + name in Subjects(user) <==> name == TrimSpace(user.id)
  {
    UsersAreNoRoles(name, RoleName(user.role));
    AfterPrefix("user:", name, TrimSpace(user.id));
  }

  /** A user acts as an admin or as a regular user exactly according to the role. */
  lemma RoleExactly(user: User)
    ensures "role:admin" in Subjects(user) <==> user.role == Admin
    ensures "role:user" in Subjects(user) <==> user.role == RegularUser
  {
    UsersAreNoRoles(TrimSpace(user.id), "admin");
    UsersAreNoRoles(TrimSpace(user.id), "user");
    assert "role:" + "admin" == "role:admin" && "role:" + "user" == "role:user";
    assert "role:admin"[5] != "role:user"[5];
  }

  /** Every policy treats two users alike, if and only if they have the same role and, but for
      white space around it, the same id. */
  lemma TreatedAlikeExactly(a: User, b: User)
    ensures (forall allow: (seq<string>, string) -> bool, id :: allow(Subjects(a), id) == allow(Subjects(b), id))
            <==> a.role == b.role && TrimSpace(a.id) == TrimSpace(b.id)
  {
    NamedExactly(b, TrimSpace(a.id));
    RoleExactly(a);
    RoleExactly(b);
    if a.role != b.role || TrimSpace(a.id) != TrimSpace(b.id) {
      var named, admin := "user:" + TrimSpace(a.id), "role:admin";
      var byName := (subjects: seq<string>, id: string) => named in subjects;
      var byRole := (subjects: seq<string>, id: string) => admin in subjects;
      assert named in Subjects(a);
      assert byName(Subjects(a), "") != byName(Subjects(b), "") || byRole(Subjects(a), "") != byRole(Subjects(b), "");
    }
  }

  /** Under a policy for admins only, admins reach the configured targets and nobody else does. */
  lemma AdminPolicyIsObeyed(cfg: Config, user: User, id: string)
    requires forall subjects, target :: cfg.allowTarget(subjects, target) <==> "role:admin" in subjects
    ensures VisibleTarget(cfg, user, id).Some? <==> user.role == Admin && exists t | t in cfg.targets :: t.id == id
  {
    RoleExactly(user);
  }

  function SchemaOfTarget(t: Target): DbSchema {
    DbSchema(t.defaultSchema, t.tables)
  }

  /** The first configured target with an id. */
  function FirstTarget(targets: seq<Target>, id: string): (r: Option<Target>)
    ensures r.Some? ==> r.value in targets && r.value.id == id
    ensures r.None? ==> forall t | t in targets :: t.id != id
  {
    if targets == [] then None
    else if targets[0].id == id then Some(targets[0])
    else FirstTarget(targets[1..], id)
  }

  /** Of several targets with one id, the first one counts. */
  lemma {:induction false} TargetIsFirst(targets: seq<Target>, id: string) returns (i: nat)
    requires FirstTarget(targets, id).Some?
    ensures i < |targets| && FirstTarget(targets, id) == Some(targets[i]) && targets[i].id == id
    ensures forall k | 0 <= k < i :: targets[k].id != id
  {
    if targets[0].id == id {
      i := 0;
    } else {
      var rest := TargetIsFirst(targets[1..], id);
      i := rest + 1;
    }
  }

  /** The target a user reaches by an id: the first with that id, if the policy allows it. */
  function VisibleTarget(cfg: Config, user: User, id: string): Option<Target> {
    if cfg.allowTarget(Subjects(user), id) then FirstTarget(cfg.targets, id) else None
  }

  method GetTargetByID(cfg: Config, user: User, id: string) returns (r: Option<Target>)
    ensures r == VisibleTarget(cfg, user, id)
  {
    var subjects := Subjects(user);
    for i := 0 to |cfg.targets|
      invariant cfg.allowTarget(subjects, id) ==> FirstTarget(cfg.targets, id) == FirstTarget(cfg.targets[i..], id)
    {
      var target := cfg.targets[i];
      assert cfg.targets[i..][0] == target && cfg.targets[i..][1..] == cfg.targets[i + 1..];
      if target.id == id {
        if cfg.allowTarget(subjects, target.id) {
          return Some(target);
        }
      }
    }
    return None;
  }

  function VisibleTargets(targets: seq<Target>, cfg: Config, user: User): seq<Target> {
    if targets == [] then []
    else
      (if cfg.allowTarget(Subjects(user), targets[0].id) then [targets[0]] else [])
      + VisibleTargets(targets[1..], cfg, user)
  }

  /** A user reaches a target by id exactly if the target list shows that id, and then it is
      the first one listed with it. */
  lemma {:induction false} ReachableIsListed(targets: seq<Target>, cfg: Config, user: User, id: string)
    ensures FirstTarget(VisibleTargets(targets, cfg, user), id)
         == if cfg.allowTarget(Subjects(user), id) then FirstTarget(targets, id) else None
  {
    if targets != [] {
      ReachableIsListed(targets[1..], cfg, user, id);
      var rest := VisibleTargets(targets[1..], cfg, user);
      if cfg.allowTarget(Subjects(user), targets[0].id) {
        assert ([targets[0]] + rest)[1..] == rest;
      } else {
        assert [] + rest == rest;
      }
    }
  }
}
