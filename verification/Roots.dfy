/** Accepted roots with validity windows, and rotating a root without a gap. */
module RootStore {
  import opened Outcomes
  import opened AtomicFiles
  import opened Text
  import opened Principals
  import opened Chains
  import opened Compaction

  const MAX_ROOTS: nat := 1024

  /** In a window 0 means no bound. */
  datatype RootEntry = RootEntry(key: Principal, rootLabel: Option<string>, notBefore: nat, notAfter: nat)

  predicate InWindow(e: RootEntry, now: nat) {
    (e.notBefore == 0 || now >= e.notBefore) && (e.notAfter == 0 || now <= e.notAfter)
  }

  type RootMap = map<string, RootEntry>

  /** Each entry is filed under the hex of its key, so a key appears at most once. */
  ghost predicate Filed(m: RootMap) {
    |m| <= MAX_ROOTS && forall h :: h in m ==> HexOf(m[h].key) == h
  }

  // ---- the operations on values ----

  datatype RootOp =
    | Add(key: Principal, rootLabel: Option<string>, notBefore: nat, notAfter: nat)
    | Retire(key: Principal, at: nat)
    | Remove(key: Principal)

  predicate Refuses(m: RootMap, op: RootOp) {
    && op.Add?
    && ((op.notBefore != 0 && op.notAfter != 0 && op.notAfter < op.notBefore)
        || (HexOf(op.key) !in m && |m| >= MAX_ROOTS))
  }

  function Apply(m: RootMap, op: RootOp): RootMap {
    var h := HexOf(op.key);
    match op
    case Add(key, l, nb, na) => if Refuses(m, op) then m else m[h := RootEntry(key, l, nb, na)]
    case Retire(_, at) => if h in m then m[h := m[h].(notAfter := at)] else m
    case Remove(_) => m - {h}
  }

  function AcceptedAt(m: RootMap, now: nat): seq<NodeId> {
    FilterAccepted(m, Keys(m), now)
  }

  function FilterAccepted(m: RootMap, hexes: seq<string>, now: nat): seq<NodeId>
    requires forall h :: h in hexes ==> h in m
  {
    if hexes == [] then []
    else (if InWindow(m[hexes[0]], now) then [m[hexes[0]].key.id] else []) + FilterAccepted(m, hexes[1..], now)
  }

  predicate IsAccepted(m: RootMap, id: NodeId, now: nat) {
    exists h :: h in m && m[h].key.id == id && InWindow(m[h], now)
  }

  lemma ApplyKeepsFiled(m: RootMap, op: RootOp)
    requires Filed(m)
    ensures Filed(Apply(m, op))
  {
    hide HexOf;
    var after := Apply(m, op);
    match op
    case Add(_, _, _, _) =>
      if !Refuses(m, op) {
        OneMore(after.Keys, m.Keys, HexOf(op.key));
        if HexOf(op.key) in m { assert after.Keys == m.Keys; }
      }
    case Retire(_, _) => assert after.Keys == m.Keys;
    case Remove(_) => SubsetSize(after.Keys, m.Keys);
  }

  /** Whether the operation gets as far as saving. */
  predicate Saves(m: RootMap, op: RootOp) {
    if op.Add? then !Refuses(m, op) else HexOf(op.key) in m
  }

  // ---- one step of a run ----

  datatype Event = Open(readFails: bool) | Call(op: RootOp, fault: Fault)

  /** The file, and the memory of the running store if there is one. */
  datatype Machine = Machine(file: Option<Bytes<RootMap>>, memory: Option<RootMap>)

  const START := Machine(None, None)

  /** A missing file is an empty set of roots. */
  function Load(file: Option<Bytes<RootMap>>): Result<RootMap, IamError> {
    match file
    case None => Ok(map[])
    case Some(Encoded(m)) => Ok(m)
    case Some(Torn) => Err(NodeFailure)
  }

  function Step(m: Machine, e: Event): Machine {
    match e
    case Open(readFails) =>
      var loaded := Load(m.file);
      m.(memory := if readFails || loaded.Err? then None else Some(loaded.value))
    case Call(op, fault) =>
      if m.memory.None? then m
      else
        var after := Apply(m.memory.value, op);
        if !Saves(m.memory.value, op) then m.(memory := Some(after))
        else Machine(if Replaces(fault) then Some(Encoded(after)) else m.file, if OutcomeOf(fault).Died? then None else Some(after))
  }

  // ---- the store as an object ----

  /** What the caller learns, unless the process died. */
  datatype Reply<+T> = Returned(result: Result<T, IamError>) | ProcessDied

  function ReplyAfter<T>(fault: Fault, value: T): Reply<T> {
    match OutcomeOf(fault)
    case Written => Returned(Ok(value))
    case Failed => Returned(Err(NodeFailure))
    case Died => ProcessDied
  }

  class Roots {
    const dir: Directory<RootMap>
    var roots: RootMap

    constructor (dir: Directory<RootMap>, roots: RootMap)
      ensures this.dir == dir && this.roots == roots
    {
      this.dir, this.roots := dir, roots;
    }

    function Now(): Machine
      reads this, dir
    {
      Machine(dir.file, Some(roots))
    }

    /** Opening is the step `Open` of a run. */
    static method OpenRoots(dir: Directory<RootMap>, readFails: bool) returns (r: Result<Roots, IamError>)
      ensures r.Ok? <==> !readFails && dir.file != Some(Torn)
      ensures r.Ok? ==> fresh(r.value) && r.value.dir == dir
      ensures var after := Machine(dir.file, if r.Ok? then Some(r.value.roots) else None);
              forall memory :: after == Step(Machine(dir.file, memory), Open(readFails))
    {
      if readFails { return Err(NodeFailure); }
      match Load(dir.file) {
        case Err(e) => return Err(e);
        case Ok(m) =>
          var store := new Roots(dir, m);
          return Ok(store);
      }
    }

    /** The entry is in memory even when saving it fails. */
    method AddRoot(key: Principal, rootLabel: Option<string>, notBefore: nat, notAfter: nat, fault: Fault) returns (r: Reply<()>)
      modifies this, dir
      ensures var op := Add(key, rootLabel, notBefore, notAfter);
              && roots == Apply(old(roots), op)
              && r == (if Refuses(old(roots), op) then Returned(Err(BadPolicy)) else ReplyAfter(fault, ()))
              && dir.file == (if Saves(old(roots), op) && Replaces(fault) then Some(Encoded(roots)) else old(dir.file))
    {
      hide HexOf;
      if notBefore != 0 && notAfter != 0 && notAfter < notBefore { return Returned(Err(BadPolicy)); }
      if HexOf(key) !in roots && |roots| >= MAX_ROOTS { return Returned(Err(BadPolicy)); }
      roots := roots[HexOf(key) := RootEntry(key, rootLabel, notBefore, notAfter)];
      var _ := dir.AtomicWrite(roots, fault);
      return ReplyAfter(fault, ());
    }

    method RetireRoot(key: Principal, at: nat, fault: Fault) returns (r: Reply<bool>)
      modifies this, dir
      ensures var known := HexOf(key) in old(roots);
              && roots == Apply(old(roots), Retire(key, at))
              && r == (if known then ReplyAfter(fault, true) else Returned(Ok(false)))
              && dir.file == (if known && Replaces(fault) then Some(Encoded(roots)) else old(dir.file))
    {
      hide HexOf;
      if HexOf(key) !in roots { return Returned(Ok(false)); }
      roots := roots[HexOf(key) := roots[HexOf(key)].(notAfter := at)];
      var _ := dir.AtomicWrite(roots, fault);
      return ReplyAfter(fault, true);
    }

    method RemoveRoot(key: Principal, fault: Fault) returns (r: Reply<bool>)
      modifies this, dir
      ensures var known := HexOf(key) in old(roots);
              && roots == Apply(old(roots), Remove(key))
              && r == (if known then ReplyAfter(fault, true) else Returned(Ok(false)))
              && dir.file == (if known && Replaces(fault) then Some(Encoded(roots)) else old(dir.file))
    {
      hide HexOf;
      var removed := HexOf(key) in roots;
      roots := roots - {HexOf(key)};
      if removed {
        var _ := dir.AtomicWrite(roots, fault);
        return ReplyAfter(fault, true);
      }
      return Returned(Ok(false));
    }

    /** Any one call is the step `Call` of a run, and a store whose process died has no memory. */
    method Perform(op: RootOp, fault: Fault) returns (died: bool)
      modifies this, dir
      ensures died <==> Saves(old(roots), op) && OutcomeOf(fault).Died?
      ensures (if died then Now().(memory := None) else Now()) == Step(old(Now()), Call(op, fault))
    {
      hide HexOf, Apply, Refuses;
      match op {
        case Add(key, l, notBefore, notAfter) =>
          var r := AddRoot(key, l, notBefore, notAfter, fault);
          return r.ProcessDied?;
        case Retire(key, at) =>
          var r := RetireRoot(key, at, fault);
          return r.ProcessDied?;
        case Remove(key) =>
          var r := RemoveRoot(key, fault);
          return r.ProcessDied?;
      }
    }
  }

  // ---- the two queries agree ----

  lemma {:induction false} FilterExact(m: RootMap, hexes: seq<string>, now: nat, id: NodeId)
    requires forall h :: h in hexes ==> h in m
    ensures id in FilterAccepted(m, hexes, now) <==> exists h :: h in hexes && m[h].key.id == id && InWindow(m[h], now)
  {
    if hexes != [] {
      FilterExact(m, hexes[1..], now, id);
      assert forall h :: h in hexes <==> h == hexes[0] || h in hexes[1..];
    }
  }

  /** `accepted_at` lists exactly the keys that `is_accepted` accepts, and in a filed map that is
      decided by the one entry of the key. */
  lemma QueriesAgree(m: RootMap, p: Principal, now: nat)
    requires Filed(m)
    ensures p.id in AcceptedAt(m, now) <==> IsAccepted(m, p.id, now)
    ensures IsAccepted(m, p.id, now) <==> HexOf(p) in m && InWindow(m[HexOf(p)], now)
  {
    hide HexOf, Keys, FilterAccepted;
    FilterExact(m, Keys(m), now, p.id);
    if IsAccepted(m, p.id, now) {
      var h :| h in m && m[h].key.id == p.id && InWindow(m[h], now);
      assert m[h].key == p;
    }
    if HexOf(p) in m { HexInjective(m[HexOf(p)].key, p); }
  }

  function Accepted(m: RootMap, now: nat): set<NodeId> {
    Elements(AcceptedAt(m, now))
  }

  // ---- runs ----

  function Run(m: Machine, events: seq<Event>): Machine {
    if events == [] then m else Step(Run(m, events[..|events| - 1]), events[|events| - 1])
  }

  /** The file parses, and on file and in memory each entry is under the hex of its key. */
  ghost predicate Sound(m: Machine) {
    Load(m.file).Ok? && Filed(Load(m.file).value) && (m.memory.Some? ==> Filed(m.memory.value))
  }

  lemma {:induction false} RunsSound(m: Machine, events: seq<Event>)
    requires Sound(m)
    ensures Sound(Run(m, events))
  {
    if events != [] {
      hide Filed, Apply, Saves;
      var n := |events| - 1;
      RunsSound(m, events[..n]);
      var before := Run(m, events[..n]);
      if events[n].Call? && before.memory.Some? { ApplyKeepsFiled(before.memory.value, events[n].op); }
    }
  }

  lemma StartSound()
    ensures Sound(START)
  {
  }

  // ---- retirement ----

  /** Retired at `at`, or gone. */
  predicate RetiredOrGone(m: RootMap, key: Principal, at: nat) {
    HexOf(key) in m ==> m[HexOf(key)].notAfter == at
  }

  predicate RetiredEverywhere(m: Machine, key: Principal, at: nat) {
    && (Load(m.file).Ok? ==> RetiredOrGone(Load(m.file).value, key, at))
    && (m.memory.Some? ==> RetiredOrGone(m.memory.value, key, at))
  }

  /** The event does not bring the key back: it neither adds it nor sets its end anew. */
  predicate LeavesRetired(e: Event, key: Principal) {
    e.Call? && (e.op.Add? || e.op.Retire?) ==> e.op.key != key
  }

  lemma ApplyKeepsRetired(m: RootMap, op: RootOp, key: Principal, at: nat)
    requires RetiredOrGone(m, key, at) && LeavesRetired(Call(op, NoFault), key)
    ensures RetiredOrGone(Apply(m, op), key, at)
  {
    hide HexOf, Refuses;
    if HexOf(op.key) == HexOf(key) { HexInjective(op.key, key); }
  }

  /** A retirement on file stays there, whatever fails and however often the store is reopened. */
  lemma {:induction false} RetirementStays(m: Machine, key: Principal, at: nat, events: seq<Event>)
    requires RetiredEverywhere(m, key, at)
    requires forall e :: e in events ==> LeavesRetired(e, key)
    ensures RetiredEverywhere(Run(m, events), key, at)
  {
    hide RetiredOrGone, Apply, Saves;
    if events != [] {
      var n := |events| - 1;
      RetirementStays(m, key, at, events[..n]);
      var before := Run(m, events[..n]);
      assert events[n] in events;
      if events[n].Call? && before.memory.Some? { ApplyKeepsRetired(before.memory.value, events[n].op, key, at); }
    }
  }

  lemma RetireRetires(m: Machine, key: Principal, at: nat)
    requires m.memory.Some? && HexOf(key) in m.memory.value
    ensures RetiredEverywhere(Step(m, Call(Retire(key, at), NoFault)), key, at)
  {
    hide HexOf;
  }

  /** A root whose retirement at a time `at > 0` returned true is rejected at every later time,
      whatever happens to other roots, whatever saves fail or processes die, and however often the
      store is reopened: no chain of it is authorized except on its own node. */
  lemma RetiredRootRejected(before: seq<Event>, key: Principal, at: nat, after: seq<Event>, q: Request, chain: Chain)
    requires var m := Run(START, before); m.memory.Some? && HexOf(key) in m.memory.value
    requires 0 < at < q.now && forall e :: e in after ==> LeavesRetired(e, key)
    requires chain != [] && chain[0].cap.issuer == key.id && q.selfId != key.id
    ensures var end := Run(Step(Run(START, before), Call(Retire(key, at), NoFault)), after);
            end.memory.Some? ==> !Authorized(Accepted(end.memory.value, q.now), q, chain)
  {
    hide HexOf, AcceptedAt, LinkOk, Continues, Run, Filed, LeavesRetired;
    StartSound();
    RunsSound(START, before);
    var m := Run(START, before);
    var retire := Call(Retire(key, at), NoFault);
    RunsSound(m, [retire]);
    RunOne(m, retire);
    RetireRetires(m, key, at);
    RunsSound(Step(m, retire), after);
    RetirementStays(Step(m, retire), key, at, after);
    var end := Run(Step(m, retire), after);
    if end.memory.Some? { QueriesAgree(end.memory.value, key, q.now); }
  }

  lemma RunOne(m: Machine, e: Event)
    ensures Run(m, [e]) == Step(m, e)
  {
    assert [e][..0] == [];
  }

  // ---- removal ----

  predicate Gone(m: RootMap, key: Principal) {
    HexOf(key) !in m
  }

  predicate GoneEverywhere(m: Machine, key: Principal) {
    && (Load(m.file).Ok? ==> Gone(Load(m.file).value, key))
    && (m.memory.Some? ==> Gone(m.memory.value, key))
  }

  predicate DoesNotAdd(e: Event, key: Principal) {
    e.Call? && e.op.Add? ==> e.op.key != key
  }

  lemma ApplyKeepsGone(m: RootMap, op: RootOp, key: Principal)
    requires Gone(m, key) && DoesNotAdd(Call(op, NoFault), key)
    ensures Gone(Apply(m, op), key)
  {
    hide HexOf, Refuses;
    if HexOf(op.key) == HexOf(key) { HexInjective(op.key, key); }
  }

  /** A removal on file stays there until the key is added, whatever fails and however often the store
      is reopened. */
  lemma {:induction false} RemovalStays(m: Machine, key: Principal, events: seq<Event>)
    requires GoneEverywhere(m, key) && forall e :: e in events ==> DoesNotAdd(e, key)
    ensures GoneEverywhere(Run(m, events), key)
  {
    hide Gone, Apply, Saves;
    if events != [] {
      var n := |events| - 1;
      RemovalStays(m, key, events[..n]);
      var before := Run(m, events[..n]);
      assert events[n] in events;
      if events[n].Call? && before.memory.Some? { ApplyKeepsGone(before.memory.value, events[n].op, key); }
    }
  }

  lemma RemoveRemoves(m: Machine, key: Principal)
    requires m.memory.Some? && HexOf(key) in m.memory.value
    ensures GoneEverywhere(Step(m, Call(Remove(key), NoFault)), key)
  {
    hide HexOf;
  }

  /** A root whose removal returned true is rejected at every time until it is added again, whatever
      happens to other roots, whatever fails and however often the store is reopened: none of its
      chains is authorized except on its own node. */
  lemma RemovedRootRejected(before: seq<Event>, key: Principal, after: seq<Event>, q: Request, chain: Chain)
    requires var m := Run(START, before); m.memory.Some? && HexOf(key) in m.memory.value
    requires forall e :: e in after ==> DoesNotAdd(e, key)
    requires chain != [] && chain[0].cap.issuer == key.id && q.selfId != key.id
    ensures var end := Run(Step(Run(START, before), Call(Remove(key), NoFault)), after);
            end.memory.Some? ==> !IsAccepted(end.memory.value, key.id, q.now) && !Authorized(Accepted(end.memory.value, q.now), q, chain)
  {
    hide HexOf, AcceptedAt, LinkOk, Continues, Run, Filed, DoesNotAdd, IsAccepted;
    StartSound();
    RunsSound(START, before);
    var m := Run(START, before);
    var remove := Call(Remove(key), NoFault);
    RunsSound(m, [remove]);
    RunOne(m, remove);
    RemoveRemoves(m, key);
    RunsSound(Step(m, remove), after);
    RemovalStays(Step(m, remove), key, after);
    var end := Run(Step(m, remove), after);
    if end.memory.Some? { QueriesAgree(end.memory.value, key, q.now); }
  }

  // ---- addition ----

  /** On file and in memory the key has this entry. */
  predicate EntryEverywhere(m: Machine, key: Principal, entry: RootEntry) {
    && Load(m.file).Ok? && HexOf(key) in Load(m.file).value && Load(m.file).value[HexOf(key)] == entry
    && (m.memory.Some? ==> HexOf(key) in m.memory.value && m.memory.value[HexOf(key)] == entry)
  }

  predicate LeavesAlone(e: Event, key: Principal) {
    e.Call? ==> e.op.key != key
  }

  lemma ApplyKeepsEntry(m: RootMap, op: RootOp, key: Principal)
    requires HexOf(key) in m && op.key != key
    ensures HexOf(key) in Apply(m, op) && Apply(m, op)[HexOf(key)] == m[HexOf(key)]
  {
    hide HexOf, Refuses;
    if HexOf(op.key) == HexOf(key) { HexInjective(op.key, key); }
  }

  lemma {:induction false} EntryStays(m: Machine, key: Principal, entry: RootEntry, events: seq<Event>)
    requires EntryEverywhere(m, key, entry) && forall e :: e in events ==> LeavesAlone(e, key)
    ensures EntryEverywhere(Run(m, events), key, entry)
  {
    hide HexOf, Apply, Saves;
    if events != [] {
      var n := |events| - 1;
      EntryStays(m, key, entry, events[..n]);
      var before := Run(m, events[..n]);
      assert events[n] in events;
      if events[n].Call? && before.memory.Some? { ApplyKeepsEntry(before.memory.value, events[n].op, key); }
    }
  }

  /** A key whose addition returned Ok is accepted, until its next operation, exactly between the two
      bounds given, 0 being no bound: by every store that runs, whatever happens to other roots,
      whatever fails and however often the store is reopened. */
  lemma AddedRootAccepted(before: seq<Event>, key: Principal, rootLabel: Option<string>, notBefore: nat, notAfter: nat, after: seq<Event>, now: nat)
    requires var m := Run(START, before);
             m.memory.Some? && !Refuses(m.memory.value, Add(key, rootLabel, notBefore, notAfter))
    requires forall e :: e in after ==> LeavesAlone(e, key)
    ensures var end := Run(Step(Run(START, before), Call(Add(key, rootLabel, notBefore, notAfter), NoFault)), after);
            end.memory.Some? ==>
              (IsAccepted(end.memory.value, key.id, now) <==> notBefore <= now && (notAfter == 0 || now <= notAfter))
  {
    hide HexOf, Run, Filed, LeavesAlone, IsAccepted, Refuses;
    StartSound();
    RunsSound(START, before);
    var m := Run(START, before);
    var add := Call(Add(key, rootLabel, notBefore, notAfter), NoFault);
    RunsSound(m, [add]);
    RunOne(m, add);
    var entry := RootEntry(key, rootLabel, notBefore, notAfter);
    assert EntryEverywhere(Step(m, add), key, entry);
    RunsSound(Step(m, add), after);
    EntryStays(Step(m, add), key, entry, after);
    var end := Run(Step(m, add), after);
    if end.memory.Some? { QueriesAgree(end.memory.value, key, now); }
  }

  /** After a retirement that returned true and until its next operation, the key is accepted exactly
      from the bound it was added with to the time of its retirement. */
  lemma RetiredRootAcceptedUntil(before: seq<Event>, key: Principal, at: nat, after: seq<Event>, now: nat)
    requires var m := Run(START, before); m.memory.Some? && HexOf(key) in m.memory.value
    requires at > 0 && forall e :: e in after ==> LeavesAlone(e, key)
    ensures var m := Run(START, before);
            var end := Run(Step(m, Call(Retire(key, at), NoFault)), after);
            end.memory.Some? ==>
              (IsAccepted(end.memory.value, key.id, now) <==> m.memory.value[HexOf(key)].notBefore <= now <= at)
  {
    hide HexOf, Run, Filed, LeavesAlone, IsAccepted;
    StartSound();
    RunsSound(START, before);
    var m := Run(START, before);
    var retire := Call(Retire(key, at), NoFault);
    RunsSound(m, [retire]);
    RunOne(m, retire);
    var entry := m.memory.value[HexOf(key)].(notAfter := at);
    assert EntryEverywhere(Step(m, retire), key, entry);
    RunsSound(Step(m, retire), after);
    EntryStays(Step(m, retire), key, entry, after);
    var end := Run(Step(m, retire), after);
    if end.memory.Some? { QueriesAgree(end.memory.value, key, now); }
  }

  /** An addition is refused exactly when its entry would be accepted at no time, or when it would be
      one root too many. */
  lemma RefusedExactly(m: RootMap, key: Principal, rootLabel: Option<string>, notBefore: nat, notAfter: nat)
    requires |m| <= MAX_ROOTS
    ensures Refuses(m, Add(key, rootLabel, notBefore, notAfter)) <==>
              || (forall now :: !InWindow(RootEntry(key, rootLabel, notBefore, notAfter), now))
              || |m[HexOf(key) := RootEntry(key, rootLabel, notBefore, notAfter)]| > MAX_ROOTS
  {
    hide HexOf;
    var entry := RootEntry(key, rootLabel, notBefore, notAfter);
    assert m[HexOf(key) := entry].Keys == m.Keys + {HexOf(key)};
    if HexOf(key) in m { assert m.Keys + {HexOf(key)} == m.Keys; }
    if notBefore == 0 || notAfter == 0 || notBefore <= notAfter { assert InWindow(entry, notBefore); }
  }

  /** A retirement whose save failed is in memory alone: a reopening undoes it. */
  lemma FailedRetirementIsUndone(m: Machine, key: Principal, at: nat, step: WriteStep)
    requires m.memory.Some? && HexOf(key) in m.memory.value && Load(m.file) == Ok(m.memory.value)
    ensures var retired := Step(m, Call(Retire(key, at), ErrorAt(step)));
            && retired.memory.Some? && RetiredOrGone(retired.memory.value, key, at)
            && Step(retired, Open(false)) == m
  {
    hide HexOf;
  }

  // ---- rotation ----

  /** The windows of the old and the new root meet or overlap. */
  predicate WindowsMeet(outgoing: RootEntry, incoming: RootEntry) {
    outgoing.notAfter == 0 || incoming.notBefore <= outgoing.notAfter + 1
  }

  lemma RotationAuthorizes(m: RootMap, outgoing: Principal, incoming: Principal, chain: Chain, nonce: nat, q: Request)
    requires Filed(m) && HexOf(outgoing) in m && HexOf(incoming) in m
    requires WindowsMeet(m[HexOf(outgoing)], m[HexOf(incoming)])
    requires m[HexOf(outgoing)].notBefore <= q.now
    requires m[HexOf(incoming)].notAfter == 0 || q.now <= m[HexOf(incoming)].notAfter
    requires |chain| == 1 && chain[0].cap.issuer == outgoing.id && ReissueUnder(Identity(incoming.id), chain, nonce).Ok?
    requires Authorized({outgoing.id}, q, chain) && (incoming.id, nonce) !in q.revoked
    ensures var roots := Accepted(m, q.now);
            Authorized(roots, q, chain) || Authorized(roots, q, ReissueUnder(Identity(incoming.id), chain, nonce).value)
  {
    hide HexOf, AcceptedAt, LinkOk, Continues;
    var roots := Accepted(m, q.now);
    QueriesAgree(m, outgoing, q.now);
    QueriesAgree(m, incoming, q.now);
    assert LinkOk(q, chain[0]);
    ReissueKeepsVerdicts(Identity(incoming.id), chain, nonce, {outgoing.id}, {incoming.id}, q) by {
      assert SignatureOk(chain[0]) && !Revoked(q, chain[0]) by { AboutLink(q, chain[0]); }
    }
    if InWindow(m[HexOf(incoming)], q.now) {
      MoreRoots({incoming.id}, roots, q, ReissueUnder(Identity(incoming.id), chain, nonce).value);
    } else {
      assert InWindow(m[HexOf(outgoing)], q.now);
      MoreRoots({outgoing.id}, roots, q, chain);
    }
  }

  /** Root rotation leaves no gap: while a request would be allowed on a root grant but for the
      root's window, and the new root has not retired nor the old one yet to start, the token of the
      original grant or of the re-issued one verifies. */
  lemma RotationLeavesNoGap(m: RootMap, outgoing: Principal, incoming: Principal, chain: Chain, nonce: nat, iam: Iam, linkBytes: SignedCapability -> nat, q: Request)
    requires Filed(m) && HexOf(outgoing) in m && HexOf(incoming) in m
    requires WindowsMeet(m[HexOf(outgoing)], m[HexOf(incoming)])
    requires m[HexOf(outgoing)].notBefore <= q.now
    requires m[HexOf(incoming)].notAfter == 0 || q.now <= m[HexOf(incoming)].notAfter
    requires |chain| == 1 && chain[0].cap.issuer == outgoing.id && ReissueUnder(Identity(incoming.id), chain, nonce).Ok?
    requires Authorized({outgoing.id}, q, chain) && (incoming.id, nonce) !in q.revoked
    requires iam.acceptedRoots == Accepted(m, q.now) && WithinLimits(iam, linkBytes, chain)
    requires WithinLimits(iam, linkBytes, ReissueUnder(Identity(incoming.id), chain, nonce).value)
    ensures Verify(iam, q, EncodeChain(linkBytes, chain)) == Ok(())
         || Verify(iam, q, EncodeChain(linkBytes, ReissueUnder(Identity(incoming.id), chain, nonce).value)) == Ok(())
  {
    hide HexOf, Authorized, AcceptedAt, EncodedBytes;
    RotationAuthorizes(m, outgoing, incoming, chain, nonce, q);
  }

  /** Windows that do not meet leave a gap: right after the old root's end neither token is
      authorized, nor does its token verify, on a node that is not a root itself, whatever the request. With windows that are not
      empty that instant lies between the old root's start and the new root's end. */
  lemma RotationGap(m: RootMap, outgoing: Principal, incoming: Principal, chain: Chain, nonce: nat, q: Request)
    requires Filed(m) && HexOf(outgoing) in m && HexOf(incoming) in m
    requires !WindowsMeet(m[HexOf(outgoing)], m[HexOf(incoming)]) && q.now == m[HexOf(outgoing)].notAfter + 1
    requires |chain| == 1 && chain[0].cap.issuer == outgoing.id && ReissueUnder(Identity(incoming.id), chain, nonce).Ok?
    requires q.selfId != outgoing.id && q.selfId != incoming.id
    ensures var roots := Accepted(m, q.now);
            !Authorized(roots, q, chain) && !Authorized(roots, q, ReissueUnder(Identity(incoming.id), chain, nonce).value)
    ensures forall iam: Iam, linkBytes :: iam.acceptedRoots == Accepted(m, q.now) ==>
              && Verify(iam, q, EncodeChain(linkBytes, chain)).Err?
              && Verify(iam, q, EncodeChain(linkBytes, ReissueUnder(Identity(incoming.id), chain, nonce).value)).Err?
    ensures m[HexOf(outgoing)].notBefore <= m[HexOf(outgoing)].notAfter ==> m[HexOf(outgoing)].notBefore <= q.now
    ensures var w := m[HexOf(incoming)]; w.notAfter == 0 || w.notBefore <= w.notAfter ==> w.notAfter == 0 || q.now <= w.notAfter
  {
    hide HexOf, AcceptedAt, LinkOk, Continues;
    QueriesAgree(m, outgoing, q.now);
    QueriesAgree(m, incoming, q.now);
  }

  lemma AboutLink(q: Request, l: SignedCapability)
    requires LinkOk(q, l)
    ensures SignatureOk(l) && !Revoked(q, l)
  {
  }

  lemma MoreRoots(few: set<NodeId>, many: set<NodeId>, q: Request, chain: Chain)
    requires few <= many && Authorized(few, q, chain)
    ensures Authorized(many, q, chain)
  {
  }
}
