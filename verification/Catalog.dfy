/**
 The role catalog: a value folded from an op log. `Apply` is what one operation does to the value;
 the class `Catalog` does it to its fields in place.
 */
module Catalogs {
  import opened Outcomes
  import opened Text
  import opened Hex
  import opened Principals
  import opened Policies

  datatype Op =
    | PutRole(role: Role)
    | RemoveRole(name: string)
    | PutPolicy(policyName: string, policy: Policy)
    | RemovePolicy(policyName: string)
    | AttachRole(principal: Principal, roleName: string)
    | DetachRole(principal: Principal, roleName: string)

  datatype AuditEntry = AuditEntry(version: nat, action: string, target: string, actor: Option<string>)

  const MAX_AUDIT_ENTRIES: nat := 10_000

  function AuditAction(op: Op): string {
    match op
    case PutRole(_) => "put_role"
    case RemoveRole(_) => "remove_role"
    case PutPolicy(_, _) => "put_policy"
    case RemovePolicy(_) => "remove_policy"
    case AttachRole(_, _) => "attach_role"
    case DetachRole(_, _) => "detach_role"
  }

  function AuditTarget(op: Op): string {
    match op
    case PutRole(r) => r.name
    case RemoveRole(n) => n
    case PutPolicy(n, _) => n
    case RemovePolicy(n) => n
    case AttachRole(p, r) => r + "@" + HexOf(p)
    case DetachRole(p, r) => r + "@" + HexOf(p)
  }

  /** The fields of a catalog. */
  datatype State = State(
    roles: map<string, Role>, policies: map<string, Policy>, attachments: map<string, seq<string>>,
    version: nat, audit: seq<AuditEntry>)

  const EMPTY := State(map[], map[], map[], 0, [])

  function Without(names: seq<string>, name: string): (r: seq<string>)
    ensures forall x :: x in r <==> x in names && x != name
    ensures name !in names ==> r == names
  {
    if names == [] then []
    else
      var rest := Without(names[1..], name);
      if names[0] == name then rest else [names[0]] + rest
  }

  lemma {:induction false} WithoutSorted(names: seq<string>, name: string)
    requires StrictlySorted(names)
    ensures StrictlySorted(Without(names, name))
  {
    hide Less;
    if names != [] {
      WithoutSorted(names[1..], name);
      assert forall x :: x in names[1..] ==> Less(names[0], x);
      PutFirst(names[0], Without(names[1..], name));
    }
  }

  function DetachEverywhere(attachments: map<string, seq<string>>, name: string): map<string, seq<string>> {
    map h | h in attachments && Without(attachments[h], name) != [] :: Without(attachments[h], name)
  }

  function Attach(attachments: map<string, seq<string>>, hex: string, name: string): map<string, seq<string>> {
    var entry := if hex in attachments then attachments[hex] else [];
    attachments[hex := if name in entry then entry else Sort(entry + [name])]
  }

  function Detach(attachments: map<string, seq<string>>, hex: string, name: string): map<string, seq<string>> {
    if hex !in attachments then attachments
    else
      var entry := Without(attachments[hex], name);
      if entry == [] then attachments - {hex} else attachments[hex := entry]
  }

  /** The last `n` entries. */
  function Tail<T>(s: seq<T>, n: nat): seq<T> {
    if |s| > n then s[|s| - n..] else s
  }

  function Content(s: State, op: Op): State {
    match op
    case PutRole(r) => s.(roles := s.roles[r.name := r])
    case RemoveRole(n) => s.(roles := s.roles - {n}, attachments := DetachEverywhere(s.attachments, n))
    case PutPolicy(n, p) => s.(policies := s.policies[n := p])
    case RemovePolicy(n) => s.(policies := s.policies - {n})
    case AttachRole(p, r) => s.(attachments := Attach(s.attachments, HexOf(p), r))
    case DetachRole(p, r) => s.(attachments := Detach(s.attachments, HexOf(p), r))
  }

  function ActorHex(actor: Option<Principal>): Option<string> {
    match actor
    case Some(p) => Some(HexOf(p))
    case None => None
  }

  function Apply(s: State, op: Op, actor: Option<Principal>): State {
    var line := AuditEntry(s.version + 1, AuditAction(op), AuditTarget(op), ActorHex(actor));
    Content(s, op).(version := s.version + 1, audit := Tail(s.audit + [line], MAX_AUDIT_ENTRIES))
  }

  // ---- the catalog as an object ----

  class Catalog {
    var roles: map<string, Role>
    var policies: map<string, Policy>
    var attachments: map<string, seq<string>>
    var version: nat
    var audit: seq<AuditEntry>

    function View(): State
      reads this
    {
      State(roles, policies, attachments, version, audit)
    }

    constructor ()
      ensures View() == EMPTY
    {
      roles, policies, attachments, version, audit := map[], map[], map[], 0, [];
    }

    method ApplyOp(op: Op, actor: Option<Principal>)
      modifies this
      ensures View() == Apply(old(View()), op, actor)
    {
      hide AuditAction, AuditTarget, ActorHex, Sort, Without, HexOf;
      match op {
        case PutRole(r) =>
          roles := roles[r.name := r];
        case RemoveRole(n) =>
          roles := roles - {n};
          attachments := map h | h in attachments :: Without(attachments[h], n);
          attachments := map h | h in attachments && attachments[h] != [] :: attachments[h];
          assert attachments == DetachEverywhere(old(attachments), n);
        case PutPolicy(n, p) =>
          policies := policies[n := p];
        case RemovePolicy(n) =>
          policies := policies - {n};
        case AttachRole(p, r) =>
          var entry := if HexOf(p) in attachments then attachments[HexOf(p)] else [];
          if r !in entry { entry := Sort(entry + [r]); }
          attachments := attachments[HexOf(p) := entry];
        case DetachRole(p, r) =>
          if HexOf(p) in attachments {
            var entry := Without(attachments[HexOf(p)], r);
            if entry == [] {
              attachments := attachments - {HexOf(p)};
            } else {
              attachments := attachments[HexOf(p) := entry];
            }
          }
      }
      Log(op, actor);
    }

    /** The end of `apply`: the next version and its line in the bounded audit ring. */
    method Log(op: Op, actor: Option<Principal>)
      modifies this`version, this`audit
      ensures version == old(version) + 1
      ensures audit == Tail(old(audit) + [AuditEntry(version, AuditAction(op), AuditTarget(op), ActorHex(actor))], MAX_AUDIT_ENTRIES)
    {
      hide AuditAction, AuditTarget, ActorHex;
      version := version + 1;
      audit := audit + [AuditEntry(version, AuditAction(op), AuditTarget(op), ActorHex(actor))];
      if |audit| > MAX_AUDIT_ENTRIES {
        audit := audit[|audit| - MAX_AUDIT_ENTRIES..];
      }
    }
  }

  // ---- the op log ----

  datatype Entry = Entry(op: Op, actor: Option<string>)

  function Record(log: seq<Entry>, op: Op, actor: Option<Principal>): seq<Entry> {
    log + [Entry(op, ActorHex(actor))]
  }

  /** The actor a replay attributes an entry to: none when the recorded hex does not parse. */
  function ActorOf(e: Entry): Option<Principal> {
    match e.actor
    case None => None
    case Some(h) =>
      match Principals.Parse(h)
      case Ok(p) => Some(p)
      case Err(_) => None
  }

  function ReplayFrom(s: State, log: seq<Entry>): State {
    if log == [] then s
    else
      var last := |log| - 1;
      Apply(ReplayFrom(s, log[..last]), log[last].op, ActorOf(log[last]))
  }

  function Replay(log: seq<Entry>): State {
    ReplayFrom(EMPTY, log)
  }

  method ReplayThrough(log: seq<Entry>, upto: nat) returns (c: Catalog)
    ensures fresh(c) && c.View() == Replay(if upto <= |log| then log[..upto] else log)
  {
    c := new Catalog();
    var n := if upto <= |log| then upto else |log|;
    for i := 0 to n
      invariant fresh(c) && c.View() == Replay(log[..i])
    {
      assert log[..i + 1][..i] == log[..i];
      c.ApplyOp(log[i].op, ActorOf(log[i]));
    }
    assert n == |log| ==> log[..n] == log;
  }

  /** Recording an operation and replaying gives the catalog the operation was applied to, actor
      and audit line included. */
  lemma RecordThenReplay(log: seq<Entry>, op: Op, actor: Option<Principal>)
    ensures Replay(Record(log, op, actor)) == Apply(Replay(log), op, actor)
  {
    var longer := Record(log, op, actor);
    assert longer[..|log|] == log;
    if actor.Some? { ParseHex(actor.value); }
  }

  datatype Call = Call(op: Op, actor: Option<Principal>)

  /** A writer that applies each operation to its catalog and records it in its log. */
  function WriterState(calls: seq<Call>): State {
    if calls == [] then EMPTY
    else Apply(WriterState(calls[..|calls| - 1]), calls[|calls| - 1].op, calls[|calls| - 1].actor)
  }

  function WriterLog(calls: seq<Call>): seq<Entry> {
    if calls == [] then []
    else Record(WriterLog(calls[..|calls| - 1]), calls[|calls| - 1].op, calls[|calls| - 1].actor)
  }

  /** After any sequence of operations the live catalog equals a full replay in every field. */
  lemma {:induction false} LiveEqualsReplay(calls: seq<Call>)
    ensures Replay(WriterLog(calls)) == WriterState(calls)
  {
    if calls != [] {
      var n := |calls| - 1;
      LiveEqualsReplay(calls[..n]);
      RecordThenReplay(WriterLog(calls[..n]), calls[n].op, calls[n].actor);
    }
  }

  /** A replica that has replayed a prefix and then applies the rest arrives at the same catalog. */
  lemma {:induction false} ReplayInParts(s: State, a: seq<Entry>, b: seq<Entry>)
    ensures ReplayFrom(s, a + b) == ReplayFrom(ReplayFrom(s, a), b)
  {
    if b == [] {
      assert a + b == a;
    } else {
      var n := |b| - 1;
      ReplayInParts(s, a, b[..n]);
      assert (a + b)[..|a + b| - 1] == a + b[..n];
    }
  }

  /** The audit line of each operation of a log, oldest first. */
  function AuditLines(log: seq<Entry>): seq<AuditEntry> {
    seq(|log|, i requires 0 <= i < |log| =>
      AuditEntry(i + 1, AuditAction(log[i].op), AuditTarget(log[i].op), ActorHex(ActorOf(log[i]))))
  }

  /** The version counts the operations, and the audit ring is the last 10000 lines at most, so
      its versions are consecutive and end at the current one. */
  lemma {:induction false} AuditRing(log: seq<Entry>)
    ensures Replay(log).version == |log|
    ensures Replay(log).audit == Tail(AuditLines(log), MAX_AUDIT_ENTRIES)
    ensures forall i :: 0 <= i < |Replay(log).audit| ==>
      Replay(log).audit[i].version == |log| - |Replay(log).audit| + i + 1
  {
    if log != [] {
      var n := |log| - 1;
      AuditRing(log[..n]);
      assert AuditLines(log)[..n] == AuditLines(log[..n]);
      assert AuditLines(log) == AuditLines(log)[..n] + [AuditLines(log)[n]];
    }
  }

  // ---- what a validated catalog keeps ----

  function Validate(s: State, op: Op): Result<(), IamError> {
    match op
    case PutRole(r) => if Trim(r.name) == "" then Err(BadPolicy) else Ok(())
    case PutPolicy(n, _) => if Trim(n) == "" then Err(BadPolicy) else Ok(())
    case AttachRole(_, r) => if r !in s.roles then Err(BadPolicy) else Ok(())
    case _ => Ok(())
  }

  ghost predicate IsHex(h: string) {
    exists p :: HexOf(p) == h
  }

  /** Roles are filed under their names, and the names are not blank. */
  ghost predicate RolesFiled(roles: map<string, Role>) {
    forall k :: k in roles ==> roles[k].name == k && Trim(k) != ""
  }

  ghost predicate PoliciesNamed(policies: map<string, Policy>) {
    forall k :: k in policies ==> Trim(k) != ""
  }

  /** Each attachment list belongs to a principal, is non-empty, sorted and without duplicates, and
      names roles that exist. */
  ghost predicate AttachmentsSound(roles: map<string, Role>, attachments: map<string, seq<string>>) {
    forall h :: h in attachments ==>
      && IsHex(h)
      && attachments[h] != [] && StrictlySorted(attachments[h])
      && forall r :: r in attachments[h] ==> r in roles
  }

  ghost predicate Coherent(s: State) {
    RolesFiled(s.roles) && PoliciesNamed(s.policies) && AttachmentsSound(s.roles, s.attachments)
  }

  lemma AttachKeepsSound(roles: map<string, Role>, attachments: map<string, seq<string>>, p: Principal, r: string)
    requires AttachmentsSound(roles, attachments) && r in roles
    ensures AttachmentsSound(roles, Attach(attachments, HexOf(p), r))
  {
    hide HexOf, StrictlySorted, Sort, Ordered;
    assert IsHex(HexOf(p));
    var after := Attach(attachments, HexOf(p), r);
    AttachSorted(attachments, HexOf(p), r);
    NoElements(after[HexOf(p)]);
    forall h, x | h in after && x in after[h] ensures x in roles {
      assert x in Elements(after[h]);
      if h == HexOf(p) && h in attachments { assert x == r || x in Elements(attachments[h]); }
    }
  }

  lemma DetachKeepsSound(roles: map<string, Role>, attachments: map<string, seq<string>>, hex: string, r: string)
    requires AttachmentsSound(roles, attachments)
    ensures AttachmentsSound(roles, Detach(attachments, hex, r))
  {
    hide StrictlySorted, Without;
    if hex in attachments { WithoutSorted(attachments[hex], r); }
  }

  lemma RemoveKeepsSound(roles: map<string, Role>, attachments: map<string, seq<string>>, n: string)
    requires AttachmentsSound(roles, attachments)
    ensures AttachmentsSound(roles - {n}, DetachEverywhere(attachments, n))
  {
    hide StrictlySorted, Without;
    forall h | h in attachments ensures StrictlySorted(Without(attachments[h], n)) { WithoutSorted(attachments[h], n); }
  }

  lemma ApplyKeepsCoherent(s: State, op: Op, actor: Option<Principal>)
    requires Coherent(s) && Validate(s, op).Ok?
    ensures Coherent(Apply(s, op, actor))
  {
    hide HexOf, Trim, Attach, Detach, DetachEverywhere, AuditAction, AuditTarget;
    match op
    case AttachRole(p, r) => AttachKeepsSound(s.roles, s.attachments, p, r);
    case DetachRole(p, r) => DetachKeepsSound(s.roles, s.attachments, HexOf(p), r);
    case RemoveRole(n) => RemoveKeepsSound(s.roles, s.attachments, n);
    case _ =>
  }

  lemma AttachSorted(attachments: map<string, seq<string>>, hex: string, name: string)
    requires hex in attachments ==> StrictlySorted(attachments[hex])
    ensures Attach(attachments, hex, name)[hex]
         == Ordered((if hex in attachments then Elements(attachments[hex]) else {}) + {name})
  {
    hide Less, Sort, Ordered, StrictlySorted, Elements;
    var entry := if hex in attachments then attachments[hex] else [];
    assert Elements(entry) == if hex in attachments then Elements(attachments[hex]) else {} by { NoElements<string>([]); }
    if name in entry {
      InElements(entry, name);
      SortedUnique(entry, Ordered(Elements(entry)));
    } else {
      assert StrictlySorted(entry) by { if hex !in attachments { assert entry == Ordered({}); } }
      SortFresh(entry, name);
      ElementsAppend(entry, name);
    }
  }

  lemma InElements<T>(s: seq<T>, x: T)
    requires x in s
    ensures Elements(s) + {x} == Elements(s)
  {
  }

  lemma ElementsAppend<T>(s: seq<T>, x: T)
    ensures Elements(s + [x]) == Elements(s) + {x}
  {
  }

  lemma SortFresh(entry: seq<string>, name: string)
    requires StrictlySorted(entry) && name !in entry
    ensures Sort(entry + [name]) == Ordered(Elements(entry + [name]))
  {
    hide Less, Sort;
    forall x | x in entry + [name] ensures multiset(entry + [name])[x] == 1 { SortedCount(entry, x); }
    SortDistinct(entry + [name]);
  }

  lemma {:induction false} SortedCount(s: seq<string>, x: string)
    requires StrictlySorted(s)
    ensures multiset(s)[x] == if x in s then 1 else 0
  {
    if s != [] {
      SortedCount(s[1..], x);
      assert s == [s[0]] + s[1..];
      assert s[0] !in s[1..];
    }
  }
}
