/** The checks every statement goes through before it is sent to a target. */
module Preflight {
  import opened Common
  import opened Vectors
  import opened Validator
  import opened Targets

  datatype Refusal = Unanalysed(error: Failure) | OutsideSchema | Denied

  /** Every table a statement leads to is one the policy lets the user use that way. */
  predicate Permitted(cfg: Config, user: User, target: Target, op: Op, g: Groups) {
    forall t | t in g :: cfg.allowQuery(Subjects(user), target.id, op, CanonicalTable(SchemaOfTarget(target), t))
  }

  /** Why a statement is refused, if it is: it cannot be analysed, it leaves the configured
      tables and columns, or the policy denies it. */
  function RefusalOf(cfg: Config, user: User, target: Target, query: string): Option<Refusal> {
    match Analysed(cfg.parse(query))
    case Err(e) => Some(Unanalysed(e))
    case Ok((op, g)) =>
      if !GroupsKnown(SchemaOfTarget(target), g) then Some(OutsideSchema)
      else if !Permitted(cfg, user, target, op, g) then Some(Denied)
      else None
  }

  /** A statement that parses, keeps to the configured columns and is approved by the policy
      on every table it leads to. */
  predicate Approved(cfg: Config, user: User, target: Target, query: string) {
    RefusalOf(cfg, user, target, query).None?
  }

  /** Under a policy for admins only, a statement that leads to a table is permitted to admins and
      to nobody else. */
  lemma AdminPolicyIsObeyed(cfg: Config, user: User, target: Target, op: Op, g: Groups)
    requires forall subjects, id, o, t :: cfg.allowQuery(subjects, id, o, t) <==> "role:admin" in subjects
    requires g != map[]
    ensures Permitted(cfg, user, target, op, g) <==> user.role == Admin
  {
    RoleExactly(user);
    assert exists t :: t in g;
  }

  /** A name without a dot is looked up as it is and under the default schema of the target. */
  lemma FoundUnderDefault(target: Target, name: string)
    requires !HasDot(name)
    ensures FindTable(SchemaOfTarget(target), name).Some? <==>
            exists e | e in target.tables :: e.table == name || e.table == target.defaultSchema + "." + name
  {
  }

  /** The reason of a refusal is the first of the three that applies. */
  lemma RefusedFor(cfg: Config, user: User, target: Target, query: string)
    ensures var r, analysed := RefusalOf(cfg, user, target, query), Analysed(cfg.parse(query));
            && (r.Some? && r.value.Unanalysed? <==> analysed.Err?)
            && (r == Some(OutsideSchema) <==>
                  analysed.Ok? && exists t | t in analysed.value.1 ::
                    !TableKnown(SchemaOfTarget(target), t, analysed.value.1[t]))
            && (r == Some(Denied) <==>
                  && analysed.Ok? && GroupsKnown(SchemaOfTarget(target), analysed.value.1)
                  && exists t | t in analysed.value.1 ::
                       !cfg.allowQuery(Subjects(user), target.id, analysed.value.0,
                                       CanonicalTable(SchemaOfTarget(target), t)))
  {
  }

  method CheckQuery(cfg: Config, user: User, target: Target, query: string) returns (r: Option<Refusal>)
    ensures r == RefusalOf(cfg, user, target, query)
  {
    var schema := SchemaOfTarget(target);
    var haveAccess: Vec -> bool :=
      (v: Vec) => cfg.allowQuery(Subjects(user), target.id, v.op, CanonicalTable(schema, v.tbl));
    var tree := cfg.parse(query);
    var vectors := MakeVectors(tree);
    if vectors.Err? {
      return Some(Unanalysed(vectors.error));
    }
    ghost var (op, g) := Analysed(tree).value;
    SchemaCheckIsSetLevel(schema, vectors.value, op, g);
    var known := ValidateSchema(vectors.value, schema);
    if known != Allowed {
      return Some(OutsideSchema);
    }
    ghost var allow := (o: Op, t: string) => cfg.allowQuery(Subjects(user), target.id, o, CanonicalTable(schema, t));
    AccessCheckIsSetLevel(haveAccess, allow, vectors.value, op, g);
    if !ValidateAccess(vectors.value, haveAccess) {
      return Some(Denied);
    }
    return None;
  }
}
