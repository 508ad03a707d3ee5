/**
 The durable catalog store: an op log in one file, and the catalog replayed from it. A write can fail
 or the process can die at any step.
 */
module Stores {
  import opened Outcomes
  import opened AtomicFiles
  import opened Principals
  import opened Catalogs
  import opened Compaction

  // ---- what the store does, on values ----

  const MAX_CATALOG_OPS: nat := 100_000

  /** The memory of a running store. */
  datatype Memory = Memory(log: seq<Entry>, catalog: State)

  /** A missing file is an empty log. */
  function Load(file: Option<Bytes<seq<Entry>>>): Result<seq<Entry>, IamError> {
    match file
    case None => Ok([])
    case Some(Encoded(log)) => Ok(log)
    case Some(Torn) => Err(NodeFailure)
  }

  function OpenMemory(file: Option<Bytes<seq<Entry>>>): Result<Memory, IamError> {
    match Load(file)
    case Err(e) => Err(e)
    case Ok(log) => if |log| > MAX_CATALOG_OPS then Err(NodeFailure) else Ok(Memory(log, Replay(log)))
  }

  /** Whether `apply` gets as far as writing. */
  function Admit(m: Memory, op: Op): Result<(), IamError> {
    if |m.log| >= MAX_CATALOG_OPS then Err(NodeFailure) else Validate(m.catalog, op)
  }

  datatype Reply = Done | Refused(error: IamError) | ProcessDied

  function ReplyTo(o: WriteOutcome): Reply {
    match o
    case Written => Done
    case Failed => Refused(NodeFailure)
    case Died => ProcessDied
  }

  /** What the caller of a running store is told. */
  function ReplyOf(m: Memory, e: Event): Reply
    requires !e.Open?
  {
    if e.ApplyCall? && Admit(m, e.op).Err? then Refused(Admit(m, e.op).error) else ReplyTo(OutcomeOf(e.fault))
  }

  lemma NoEntries(s: State)
    ensures RoleEntries(s, []) == [] && PolicyEntries(s, []) == [] && AttachmentEntries(s, []) == []
  {
  }

  lemma NextRole(s: State, names: seq<string>, i: nat)
    requires i < |names| && forall n :: n in names ==> n in s.roles
    ensures RoleEntries(s, names[..i + 1]) == RoleEntries(s, names[..i]) + [RoleEntry(s, names[i])]
  {
  }

  lemma NextPolicy(s: State, names: seq<string>, i: nat)
    requires i < |names| && forall n :: n in names ==> n in s.policies
    ensures PolicyEntries(s, names[..i + 1]) == PolicyEntries(s, names[..i]) + [PolicyEntry(s, names[i])]
  {
  }

  lemma NextAttachment(s: State, hexes: seq<string>, i: nat)
    requires i < |hexes| && forall h :: h in hexes ==> h in s.attachments
    ensures AttachmentEntries(s, hexes[..i + 1])
         == AttachmentEntries(s, hexes[..i])
            + match Principals.Parse(hexes[i])
              case Ok(p) => AttachEntries(p, s.attachments[hexes[i]])
              case Err(_) => []
  {
    hide Principals.Parse;
    assert hexes[..i + 1][..i] == hexes[..i];
  }

  class CatalogStore {
    const dir: Directory<seq<Entry>>
    var log: seq<Entry>
    var catalog: Catalog

    constructor (dir: Directory<seq<Entry>>, log: seq<Entry>, catalog: Catalog)
      ensures this.dir == dir && this.log == log && this.catalog == catalog
    {
      this.dir, this.log, this.catalog := dir, log, catalog;
    }

    function View(): Memory
      reads this, catalog
    {
      Memory(log, catalog.View())
    }

    /** File and memory, as a state of a run. */
    function Now(): Machine
      reads this, dir, catalog
    {
      Machine(dir.file, Some(View()))
    }

    /** Opening is the step `Open` of a run. */
    static method Open(dir: Directory<seq<Entry>>, readFails: bool) returns (r: Result<CatalogStore, IamError>)
      ensures match (if readFails then Err(NodeFailure) else OpenMemory(dir.file))
              case Err(e) => r == Err(e)
              case Ok(m) => r.Ok? && fresh(r.value) && fresh(r.value.catalog) && r.value.dir == dir && r.value.View() == m
      ensures var after := Machine(dir.file, if r.Ok? then Some(r.value.View()) else None);
              forall memory :: after == Step(Machine(dir.file, memory), Event.Open(readFails))
    {
      if readFails { return Err(NodeFailure); }
      match Load(dir.file) {
        case Err(e) => return Err(e);
        case Ok(log) =>
          if |log| > MAX_CATALOG_OPS { return Err(NodeFailure); }
          var catalog := ReplayThrough(log, |log|);
          assert log[..|log|] == log;
          var store := new CatalogStore(dir, log, catalog);
          return Ok(store);
      }
    }

    /** The file is written first; memory follows only when that succeeded. */
    method ApplyOp(op: Op, actor: Option<Principal>, fault: Fault) returns (r: Reply)
      modifies this, dir, catalog
      ensures r == match Admit(old(View()), op)
                   case Err(e) => Refused(e)
                   case Ok(_) => ReplyTo(OutcomeOf(fault))
      ensures dir.file == if Admit(old(View()), op).Ok? && Replaces(fault)
                          then Some(Encoded(Record(old(log), op, actor))) else old(dir.file)
      ensures catalog == old(catalog)
      ensures View() == if r == Done then Memory(Record(old(log), op, actor), Apply(old(catalog.View()), op, actor)) else old(View())
    {
      if |log| >= MAX_CATALOG_OPS { return Refused(NodeFailure); }
      match Validate(catalog.View(), op) {
        case Err(e) => return Refused(e);
        case Ok(_) =>
      }
      var next := Record(log, op, actor);
      var o := dir.AtomicWrite(next, fault);
      if o != Written { return ReplyTo(o); }
      log := next;
      catalog.ApplyOp(op, actor);
      return Done;
    }

    /** `all_attachments`, as the entries that `compact` records for it. */
    static method AllAttachments(s: State) returns (entries: seq<Entry>)
      ensures entries == AttachmentEntries(s, Keys(s.attachments))
    {
      hide Keys, AttachmentEntries, AttachEntries, Principals.Parse;
      entries := [];
      var hexes := Keys(s.attachments);
      NoEntries(s);
      for i := 0 to |hexes|
        invariant entries == AttachmentEntries(s, hexes[..i])
      {
        NextAttachment(s, hexes, i);
        match Principals.Parse(hexes[i]) {
          case Ok(p) => entries := entries + AttachEntries(p, s.attachments[hexes[i]]);
          case Err(_) =>
        }
      }
      assert hexes[..|hexes|] == hexes;
    }

    /** The loops of `compact`. */
    static method BuildCompactLog(s: State) returns (compacted: seq<Entry>)
      ensures compacted == CompactLog(s)
    {
      hide Keys, RoleEntries, PolicyEntries, AttachmentEntries, AttachEntries, Principals.Parse;
      compacted := [];
      var roles := Keys(s.roles);
      NoEntries(s);
      for i := 0 to |roles|
        invariant compacted == RoleEntries(s, roles[..i])
      {
        NextRole(s, roles, i);
        compacted := compacted + [RoleEntry(s, roles[i])];
      }
      assert roles[..|roles|] == roles;
      var policies := Keys(s.policies);
      for i := 0 to |policies|
        invariant compacted == RoleEntries(s, roles) + PolicyEntries(s, policies[..i])
      {
        NextPolicy(s, policies, i);
        compacted := compacted + [PolicyEntry(s, policies[i])];
      }
      assert policies[..|policies|] == policies;
      var attachments := AllAttachments(s);
      compacted := compacted + attachments;
    }

    method Compact(fault: Fault) returns (r: Reply)
      modifies this, dir, catalog
      ensures r == ReplyTo(OutcomeOf(fault))
      ensures dir.file == if Replaces(fault) then Some(Encoded(CompactLog(old(catalog.View())))) else old(dir.file)
      ensures catalog == old(catalog) || fresh(catalog)
      ensures View() == if r == Done then Memory(CompactLog(old(catalog.View())), Replay(CompactLog(old(catalog.View())))) else old(View())
    {
      hide CompactLog;
      var compacted := BuildCompactLog(catalog.View());
      var o := dir.AtomicWrite(compacted, fault);
      if o != Written { return ReplyTo(o); }
      log := compacted;
      catalog := ReplayThrough(compacted, |compacted|);
      assert compacted[..|compacted|] == compacted;
      return Done;
    }

    /** Any one call is a step of a run: file and memory afterwards are those of the step, and a
        store whose process died has no memory. */
    method Perform(e: Event) returns (r: Reply)
      requires !e.Open?
      modifies this, dir, catalog
      ensures (if r.ProcessDied? then Now().(memory := None) else Now()) == Step(old(Now()), e)
      ensures r == ReplyOf(old(View()), e)
    {
      hide CompactLog, Record, Apply, Replay, Validate;
      match e {
        case ApplyCall(op, actor, fault) => r := ApplyOp(op, actor, fault);
        case CompactCall(fault) => r := Compact(fault);
      }
    }
  }

  // ---- runs ----

  datatype Event =
    | Open(readFails: bool)
    | ApplyCall(op: Op, actor: Option<Principal>, fault: Fault)
    | CompactCall(fault: Fault)

  /** One store and its file; no memory when no process is running. */
  datatype Machine = Machine(file: Option<Bytes<seq<Entry>>>, memory: Option<Memory>)

  const START := Machine(None, None)

  function Step(m: Machine, e: Event): Machine {
    match e
    case Open(readFails) =>
      if readFails then m.(memory := None)
      else
        (match OpenMemory(m.file)
         case Ok(mem) => m.(memory := Some(mem))
         case Err(_) => m.(memory := None))
    case ApplyCall(op, actor, fault) =>
      if m.memory.None? || Admit(m.memory.value, op).Err? then m
      else
        var next := Record(m.memory.value.log, op, actor);
        Call(m, fault, Memory(next, Apply(m.memory.value.catalog, op, actor)))
    case CompactCall(fault) =>
      if m.memory.None? then m
      else
        var compacted := CompactLog(m.memory.value.catalog);
        Call(m, fault, Memory(compacted, Replay(compacted)))
  }

  /** A call that writes the log of `next` and on success makes `next` the memory. */
  function Call(m: Machine, fault: Fault, next: Memory): Machine {
    var file := if Replaces(fault) then Some(Encoded(next.log)) else m.file;
    match OutcomeOf(fault)
    case Written => Machine(file, Some(next))
    case Failed => Machine(file, m.memory)
    case Died => Machine(file, None)
  }

  function Run(events: seq<Event>): Machine {
    if events == [] then START else Step(Run(events[..|events| - 1]), events[|events| - 1])
  }

  /** Whether an event puts an operation on disk. */
  predicate Commits(m: Machine, e: Event) {
    e.ApplyCall? && m.memory.Some? && Admit(m.memory.value, e.op).Ok? && Replaces(e.fault)
  }

  /** The operations that a run put on disk, in order: those that returned Ok, and those whose
      process died after the rename. */
  function Committed(events: seq<Event>): seq<Catalogs.Call> {
    if events == [] then []
    else
      var n := |events| - 1;
      var e := events[n];
      Committed(events[..n]) + if Commits(Run(events[..n]), e) then [Catalogs.Call(e.op, e.actor)] else []
  }

  function DiskLog(m: Machine): seq<Entry> {
    match Load(m.file)
    case Ok(log) => log
    case Err(_) => []
  }

  ghost predicate Consistent(m: Machine) {
    && m.file != Some(Torn)
    && |DiskLog(m)| <= MAX_CATALOG_OPS
    && Coherent(Replay(DiskLog(m)))
    && (m.memory.Some? ==> m.memory.value == Memory(DiskLog(m), Replay(DiskLog(m))))
  }

  lemma StepKeepsConsistent(m: Machine, e: Event)
    requires Consistent(m)
    ensures Consistent(Step(m, e))
  {
    hide Coherent, Replay, Apply, Validate, CompactLog;
    match e
    case Open(_) =>
    case ApplyCall(op, actor, fault) =>
      RecordThenReplay(DiskLog(m), op, actor);
      if m.memory.Some? && Admit(m.memory.value, op).Ok? { ApplyKeepsCoherent(Replay(DiskLog(m)), op, actor); }
    case CompactCall(fault) =>
      CompactReplays(Replay(DiskLog(m)));
      CompactLength(DiskLog(m));
  }

  /** In every run, with errors and deaths at any step, the file is a log within the limit that
      replays to a coherent catalog, and a running store's memory is exactly that. */
  lemma {:induction false} RunsConsistent(events: seq<Event>)
    ensures Consistent(Run(events))
  {
    if events != [] {
      RunsConsistent(events[..|events| - 1]);
      StepKeepsConsistent(Run(events[..|events| - 1]), events[|events| - 1]);
    }
  }

  /** The catalog that the file holds. */
  function DiskCatalog(m: Machine): State {
    Replay(DiskLog(m))
  }

  /** A store opens whenever its file can be read, and shows the file's catalog. */
  lemma OpenShowsDisk(m: Machine)
    requires Consistent(m)
    ensures Step(m, Open(false)) == m.(memory := Some(Memory(DiskLog(m), DiskCatalog(m))))
  {
    hide Replay, Coherent;
  }

  lemma OpenSucceeds(events: seq<Event>)
    ensures var m := Run(events); Step(m, Open(false)) == m.(memory := Some(Memory(DiskLog(m), DiskCatalog(m))))
  {
    hide *;
    RunsConsistent(events);
    OpenShowsDisk(Run(events));
  }

  /** What a completed call makes of a catalog. */
  function Completed(s: State, e: Event): State
    requires !e.Open?
  {
    if e.ApplyCall? then Apply(s, e.op, e.actor) else Replay(CompactLog(s))
  }

  /** Whether a call gets as far as writing. */
  predicate Starts(m: Machine, e: Event)
    requires !e.Open?
  {
    m.memory.Some? && (e.ApplyCall? ==> Admit(m.memory.value, e.op).Ok?)
  }

  /** What a call in flight leaves on disk, for the next `open` to show: the completed call when
      it returned Ok, nothing of it when it was refused, one or the other when the process died.
      A store that is still running has in memory what is on disk. */
  lemma CallIsAtomic(events: seq<Event>, e: Event)
    requires !e.Open?
    ensures var before, after := Run(events), Step(Run(events), e);
            var was := DiskCatalog(before);
            && (DiskCatalog(after) == was || DiskCatalog(after) == Completed(was, e))
            && (!Starts(before, e) || OutcomeOf(e.fault).Failed? ==> after == before)
            && (Starts(before, e) && OutcomeOf(e.fault).Written? ==> DiskCatalog(after) == Completed(was, e))
            && (after.memory.Some? ==> after.memory.value.catalog == DiskCatalog(after))
  {
    hide Coherent, Replay, Apply, Validate, CompactLog, Run;
    var m := Run(events);
    RunsConsistent(events);
    StepKeepsConsistent(m, e);
    if e.ApplyCall? { RecordThenReplay(DiskLog(m), e.op, e.actor); }
  }

  lemma ContentFromContent(a: State, b: State, op: Op, actor: Option<Principal>)
    requires SameContent(a, b)
    ensures SameContent(Apply(a, op, actor), Apply(b, op, actor))
  {
    hide Attach, Detach, DetachEverywhere, HexOf, AuditAction, AuditTarget;
  }

  lemma SameContentTrans(a: State, b: State, c: State)
    requires SameContent(a, b) && SameContent(b, c)
    ensures SameContent(a, c)
  {
  }

  lemma StepKeepsContent(m: Machine, e: Event, ideal: State)
    requires Consistent(m) && SameContent(DiskCatalog(m), ideal)
    ensures SameContent(DiskCatalog(Step(m, e)), if Commits(m, e) then Apply(ideal, e.op, e.actor) else ideal)
  {
    hide Coherent, Replay, Apply, Validate, CompactLog, SameContent;
    var was := DiskCatalog(m);
    match e
    case Open(_) =>
    case ApplyCall(op, actor, _) =>
      RecordThenReplay(DiskLog(m), op, actor);
      ContentFromContent(was, ideal, op, actor);
    case CompactCall(_) =>
      CompactReplays(was);
      SameContentTrans(Replay(CompactLog(was)), was, ideal);
  }

  /** However often the log was compacted and the store reopened, the catalog on disk holds exactly
      what the committed operations make: nothing committed is lost, nothing else appears. */
  lemma {:induction false} CommittedSurvives(events: seq<Event>)
    ensures SameContent(DiskCatalog(Run(events)), WriterState(Committed(events)))
  {
    if events != [] {
      hide Consistent, DiskCatalog, Step, Apply, SameContent, Commits;
      var n := |events| - 1;
      CommittedSurvives(events[..n]);
      RunsConsistent(events[..n]);
      StepKeepsContent(Run(events[..n]), events[n], WriterState(Committed(events[..n])));
      assert Commits(Run(events[..n]), events[n]) ==> Committed(events)[..|Committed(events)| - 1] == Committed(events[..n]);
      assert !Commits(Run(events[..n]), events[n]) ==> Committed(events) == Committed(events[..n]);
    }
  }

  /** Committed operations stay, and an event adds its operation exactly when it commits it. An
      operation that returned Ok is committed, a refused one is not, whether by validation, for
      length or by a failed write, and one whose process died is exactly after the rename. */
  lemma CommittedExactly(events: seq<Event>, e: Event)
    ensures Committed(events + [e]) == Committed(events) + if Commits(Run(events), e) then [Catalogs.Call(e.op, e.actor)] else []
    ensures Commits(Run(events), e) <==>
      && e.ApplyCall? && Run(events).memory.Some?
      && var r := ReplyOf(Run(events).memory.value, e);
         r.Done? || (r.ProcessDied? && e.fault.DiesAfterRename?)
  {
    hide Admit, Run;
    assert (events + [e])[..|events|] == events;
  }

  /** `compact` never lengthens the log of a store, and a second one changes nothing. */
  lemma CompactShrinks(events: seq<Event>)
    requires Run(events).memory.Some?
    ensures var m, c := Run(events), Step(Run(events), CompactCall(NoFault));
            && |DiskLog(c)| <= |DiskLog(m)|
            && SameContent(c.memory.value.catalog, m.memory.value.catalog)
            && Step(c, CompactCall(NoFault)) == c
  {
    hide Coherent, Replay, CompactLog;
    RunsConsistent(events);
    var was := Replay(DiskLog(Run(events)));
    CompactLength(DiskLog(Run(events)));
    CompactReplays(was);
    CompactTwice(was);
  }
}
