/**
 What a catalog holds, in terms of the calls that made it: a role or a policy is there with the value
 last put, unless it was removed since, and a role is attached to a principal if it was attached and
 neither detached nor removed since.
 */
module CatalogHistory {
  import opened Outcomes
  import opened AtomicFiles
  import opened Text
  import opened Hex
  import opened Principals
  import opened Policies
  import opened Histories
  import opened Catalogs
  import opened Compaction
  import opened Stores

  // ---- what one operation does ----

  function RoleChange(op: Op, name: string): Change<Role> {
    match op
    case PutRole(r) => if r.name == name then Put(r) else Keep
    case RemoveRole(n) => if n == name then Drop else Keep
    case _ => Keep
  }

  function PolicyChange(op: Op, name: string): Change<Policy> {
    match op
    case PutPolicy(n, p) => if n == name then Put(p) else Keep
    case RemovePolicy(n) => if n == name then Drop else Keep
    case _ => Keep
  }

  /** Removing a role detaches it everywhere. */
  function AttachmentChange(op: Op, p: Principal, role: string): Change<()> {
    match op
    case AttachRole(q, r) => if q == p && r == role then Put(()) else Keep
    case DetachRole(q, r) => if q == p && r == role then Drop else Keep
    case RemoveRole(r) => if r == role then Drop else Keep
    case _ => Keep
  }

  function RoleIn(s: State, name: string): Option<Role> {
    if name in s.roles then Some(s.roles[name]) else None
  }

  function PolicyIn(s: State, name: string): Option<Policy> {
    if name in s.policies then Some(s.policies[name]) else None
  }

  function AttachedIn(s: State, p: Principal, role: string): Option<()> {
    if HexOf(p) in s.attachments && role in s.attachments[HexOf(p)] then Some(()) else None
  }

  lemma StepOnRole(s: State, op: Op, actor: Option<Principal>, name: string)
    ensures RoleIn(Apply(s, op, actor), name) == After(RoleIn(s, name), RoleChange(op, name))
  {
    hide Attach, Detach, DetachEverywhere, HexOf, AuditAction, AuditTarget;
  }

  lemma StepOnPolicy(s: State, op: Op, actor: Option<Principal>, name: string)
    ensures PolicyIn(Apply(s, op, actor), name) == After(PolicyIn(s, name), PolicyChange(op, name))
  {
    hide Attach, Detach, DetachEverywhere, HexOf, AuditAction, AuditTarget;
  }

  lemma StepOnAttachment(s: State, op: Op, actor: Option<Principal>, p: Principal, role: string)
    ensures AttachedIn(Apply(s, op, actor), p, role) == After(AttachedIn(s, p, role), AttachmentChange(op, p, role))
  {
    hide HexOf, AuditAction, AuditTarget, Sort;
    match op
    case AttachRole(q, r) =>
      if HexOf(q) == HexOf(p) {
        HexInjective(q, p);
        AttachedHere(s.attachments, HexOf(p), r);
      }
    case DetachRole(q, _) =>
      if HexOf(q) == HexOf(p) { HexInjective(q, p); }
    case _ =>
  }

  lemma AttachedHere(attachments: map<string, seq<string>>, hex: string, name: string)
    ensures forall r :: r in Attach(attachments, hex, name)[hex] <==> r == name || (hex in attachments && r in attachments[hex])
  {
    hide Sort;
    var entry := if hex in attachments then attachments[hex] else [];
    SortElements(entry + [name]);
    ElementsAppend(entry, name);
    forall r ensures r in Sort(entry + [name]) <==> r in entry || r == name {
      assert r in Elements(Sort(entry + [name])) <==> r in Elements(entry) + {name};
    }
  }

  // ---- histories ----

  function RoleChanges(calls: seq<Catalogs.Call>, name: string): seq<Change<Role>> {
    seq(|calls|, i requires 0 <= i < |calls| => RoleChange(calls[i].op, name))
  }

  function PolicyChanges(calls: seq<Catalogs.Call>, name: string): seq<Change<Policy>> {
    seq(|calls|, i requires 0 <= i < |calls| => PolicyChange(calls[i].op, name))
  }

  function AttachmentChanges(calls: seq<Catalogs.Call>, p: Principal, role: string): seq<Change<()>> {
    seq(|calls|, i requires 0 <= i < |calls| => AttachmentChange(calls[i].op, p, role))
  }

  lemma WriterStep(calls: seq<Catalogs.Call>, k: nat)
    requires k < |calls|
    ensures WriterState(calls[..k + 1]) == Apply(WriterState(calls[..k]), calls[k].op, calls[k].actor)
  {
    assert calls[..k + 1][..k] == calls[..k];
  }

  /** A role is in the catalog exactly with the value last put under its name, if it was not removed
      since. */
  lemma RoleHistory(calls: seq<Catalogs.Call>, name: string, role: Role)
    ensures RoleIn(WriterState(calls), name) == Some(role) <==> exists i: nat :: LastPut(RoleChanges(calls, name), i, role)
  {
    hide Apply, RoleIn, RoleChange, WriterState;
    var states := seq(|calls| + 1, k requires 0 <= k <= |calls| => RoleIn(WriterState(calls[..k]), name));
    forall k | 0 <= k < |calls| ensures states[k + 1] == After(states[k], RoleChanges(calls, name)[k]) {
      WriterStep(calls, k);
      StepOnRole(WriterState(calls[..k]), calls[k].op, calls[k].actor, name);
    }
    assert calls[..|calls|] == calls;
    EmptyCatalog(calls, name);
    LastChange(states, RoleChanges(calls, name), role);
  }

  lemma EmptyCatalog(calls: seq<Catalogs.Call>, name: string)
    ensures RoleIn(WriterState(calls[..0]), name) == None && PolicyIn(WriterState(calls[..0]), name) == None
    ensures forall p :: AttachedIn(WriterState(calls[..0]), p, name) == None
  {
    hide HexOf;
  }

  /** The same for policies. */
  lemma PolicyHistory(calls: seq<Catalogs.Call>, name: string, policy: Policy)
    ensures PolicyIn(WriterState(calls), name) == Some(policy) <==> exists i: nat :: LastPut(PolicyChanges(calls, name), i, policy)
  {
    hide Apply, PolicyIn, PolicyChange, WriterState;
    var states := seq(|calls| + 1, k requires 0 <= k <= |calls| => PolicyIn(WriterState(calls[..k]), name));
    forall k | 0 <= k < |calls| ensures states[k + 1] == After(states[k], PolicyChanges(calls, name)[k]) {
      WriterStep(calls, k);
      StepOnPolicy(WriterState(calls[..k]), calls[k].op, calls[k].actor, name);
    }
    assert calls[..|calls|] == calls;
    EmptyCatalog(calls, name);
    LastChange(states, PolicyChanges(calls, name), policy);
  }

  /** A role is attached to a principal exactly if some call attached it and none since detached it
      there or removed it. */
  lemma AttachmentHistory(calls: seq<Catalogs.Call>, p: Principal, role: string)
    ensures AttachedIn(WriterState(calls), p, role) == Some(()) <==> exists i: nat :: LastPut(AttachmentChanges(calls, p, role), i, ())
  {
    hide Apply, AttachedIn, AttachmentChange, WriterState;
    var states := seq(|calls| + 1, k requires 0 <= k <= |calls| => AttachedIn(WriterState(calls[..k]), p, role));
    forall k | 0 <= k < |calls| ensures states[k + 1] == After(states[k], AttachmentChanges(calls, p, role)[k]) {
      WriterStep(calls, k);
      StepOnAttachment(WriterState(calls[..k]), calls[k].op, calls[k].actor, p, role);
    }
    assert calls[..|calls|] == calls;
    EmptyCatalog(calls, role);
    LastChange(states, AttachmentChanges(calls, p, role), ());
  }

  /** What the file of a store holds in any run, with faults, compactions and reopenings: exactly what
      the committed operations last put, attached, detached and removed. */
  lemma DiskHistory(events: seq<Stores.Event>, name: string, role: Role, policy: Policy, p: Principal)
    ensures var disk, calls := DiskCatalog(Stores.Run(events)), Committed(events);
      && (RoleIn(disk, name) == Some(role) <==> exists i: nat :: LastPut(RoleChanges(calls, name), i, role))
      && (PolicyIn(disk, name) == Some(policy) <==> exists i: nat :: LastPut(PolicyChanges(calls, name), i, policy))
      && (AttachedIn(disk, p, name) == Some(()) <==> exists i: nat :: LastPut(AttachmentChanges(calls, p, name), i, ()))
  {
    hide DiskCatalog, Stores.Run, Committed, WriterState, LastPut, HexOf;
    CommittedSurvives(events);
    RoleHistory(Committed(events), name, role);
    PolicyHistory(Committed(events), name, policy);
    AttachmentHistory(Committed(events), p, name);
  }

  // ---- validation ----

  /** In a coherent catalog, validation admits exactly the operations that keep it coherent. */
  lemma ValidateExact(s: State, op: Op, actor: Option<Principal>)
    requires Coherent(s)
    ensures Validate(s, op).Ok? <==> Coherent(Apply(s, op, actor))
  {
    if Validate(s, op).Ok? {
      ApplyKeepsCoherent(s, op, actor);
    } else {
      hide HexOf, Sort, StrictlySorted, Trim, Attach, AuditAction, AuditTarget;
      var after := Apply(s, op, actor);
      match op
      case PutRole(r) => assert r.name in after.roles;
      case PutPolicy(n, _) => assert n in after.policies;
      case AttachRole(p, r) =>
        AttachedHere(s.attachments, HexOf(p), r);
        assert HexOf(p) in after.attachments by { AttachOnlyHere(s.attachments, HexOf(p), r); }
        assert r in after.attachments[HexOf(p)] && r !in after.roles;
    }
  }

  /** A running store admits an operation exactly when its result is a coherent catalog in a log that
      `open` would take. */
  lemma AdmitExact(events: seq<Stores.Event>, op: Op, actor: Option<Principal>)
    requires Stores.Run(events).memory.Some?
    ensures var m := Stores.Run(events).memory.value;
            Admit(m, op).Ok? <==>
              OpenMemory(Some(Encoded(Record(m.log, op, actor)))).Ok? && Coherent(Apply(m.catalog, op, actor))
  {
    hide Stores.Run, Coherent, Validate, Apply, Replay;
    RunsConsistent(events);
    ValidateExact(Stores.Run(events).memory.value.catalog, op, actor);
  }

  // ---- audit lines ----

  lemma SameText(a: string, b: string, x: string, y: string)
    requires |x| == |y| && a + ("@" + x) == b + ("@" + y)
    ensures a == b && x == y
  {
    var s, t := a + ("@" + x), b + ("@" + y);
    assert |a| == |b| && s[..|a|] == a && t[..|b|] == b && s[|a| + 1..] == x && t[|b| + 1..] == y;
  }

  /** Two operations leave the same action and target in the audit log only if they are of the same kind
      and about the same role, policy, or role and principal. */
  lemma AuditLineTells(a: Op, b: Op)
    requires AuditAction(a) == AuditAction(b) && AuditTarget(a) == AuditTarget(b)
    ensures match a
            case PutRole(r) => b.PutRole? && b.role.name == r.name
            case RemoveRole(n) => b == a
            case PutPolicy(n, _) => b.PutPolicy? && b.policyName == n
            case RemovePolicy(n) => b == a
            case AttachRole(p, r) => b == a
            case DetachRole(p, r) => b == a
  {
    hide HexOf;
    assert forall op: Op :: (op.PutRole? <==> |AuditAction(op)| == 8) && (op.PutPolicy? <==> |AuditAction(op)| == 10) && (op.RemovePolicy? <==> |AuditAction(op)| == 13);
    assert forall op: Op :: (op.RemoveRole? ==> AuditAction(op)[0] == 'r') && (op.AttachRole? ==> AuditAction(op)[0] == 'a') && (op.DetachRole? ==> AuditAction(op)[0] == 'd');
    if a.AttachRole? || a.DetachRole? {
      TargetSplits(a);
      TargetSplits(b);
      SameText(a.roleName, b.roleName, HexOf(a.principal), HexOf(b.principal));
      HexInjective(a.principal, b.principal);
    }
  }

  lemma TargetSplits(op: Op)
    requires op.AttachRole? || op.DetachRole?
    ensures AuditTarget(op) == op.roleName + ("@" + HexOf(op.principal)) && |HexOf(op.principal)| == 64
  {
    assert op.roleName + "@" + HexOf(op.principal) == op.roleName + ("@" + HexOf(op.principal));
  }

  /** A file that does not parse, or that holds more operations than the limit, opens no store. */
  lemma OpensExactly(m: Machine, readFails: bool)
    ensures Stores.Step(m, Event.Open(readFails)).file == m.file
    ensures Stores.Step(m, Event.Open(readFails)).memory.Some? <==>
              !readFails && (m.file == None || exists log :: m.file == Some(Encoded(log)) && |log| <= MAX_CATALOG_OPS)
  {
    hide Replay;
  }
}
