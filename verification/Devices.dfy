/**
 The operator's device registry: a map in memory mirrored to a file after each change. The memory
 changes first, so a save that fails leaves the memory ahead of the file until the next save or
 reopening.
 */
module Devices {
  import opened Outcomes

  datatype Role = Admin | Pending

  datatype Device = Device(pubKey: string, role: Role, deviceLabel: string, addedTs: nat, nodeId: string)

  type Registry = map<string, Device>

  predicate HasAdmin(m: Registry) {
    exists id :: id in m && m[id].role == Admin
  }

  predicate IsAdmin(m: Registry, id: string) {
    id in m && m[id].role == Admin
  }

  function Admins(m: Registry): set<string> {
    set id | id in m && m[id].role == Admin
  }

  // ---- the operations on values ----

  datatype Op =
    | Claim(id: string, pubKey: string, nodeId: string)
    | Request(id: string, pubKey: string, nodeId: string, deviceLabel: string)
    | SetNodeId(id: string, nodeId: string)
    | Approve(id: string)
    | Revoke(id: string)

  /** What the caller is told when nothing goes wrong. */
  datatype Answer = Bool(yes: bool) | RoleIs(role: Role) | Removed | NotFound | LastAdmin

  function OrElse(text: string, other: string): string {
    if text != "" then text else other
  }

  function Apply(m: Registry, op: Op, now: nat): Registry {
    match op
    case Claim(id, key, node) =>
      if HasAdmin(m) then m else m[id := Device(key, Admin, "claimed", now, node)]
    case Request(id, key, node, name) =>
      if id !in m then m[id := Device(key, Pending, name, now, node)]
      else if m[id].role == Admin then m[id := m[id].(nodeId := OrElse(node, m[id].nodeId))]
      else m[id := m[id].(pubKey := key, deviceLabel := OrElse(name, m[id].deviceLabel), nodeId := OrElse(node, m[id].nodeId))]
    case SetNodeId(id, node) =>
      if id in m then m[id := m[id].(nodeId := node)] else m
    case Approve(id) =>
      if id in m && m[id].role == Pending then m[id := m[id].(role := Admin)] else m
    case Revoke(id) =>
      if id in m && !(IsAdmin(m, id) && |Admins(m)| <= 1) then m - {id} else m
  }

  function AnswerTo(m: Registry, op: Op): Answer {
    match op
    case Claim(_, _, _) => Bool(!HasAdmin(m))
    case Request(id, _, _, _) => RoleIs(if IsAdmin(m, id) then Admin else Pending)
    case SetNodeId(id, _) => Bool(id in m)
    case Approve(id) => Bool(id in m && m[id].role == Pending)
    case Revoke(id) => if id !in m then NotFound else if IsAdmin(m, id) && |Admins(m)| <= 1 then LastAdmin else Removed
  }

  /** Whether the operation gets as far as saving. */
  predicate Saves(m: Registry, op: Op) {
    match AnswerTo(m, op)
    case Bool(yes) => yes
    case RoleIs(_) => true
    case Removed => true
    case _ => false
  }

  function Seeded(m: Registry, seed: seq<(string, string)>, now: nat): Registry {
    if seed == [] then m
    else
      var before := Seeded(m, seed[..|seed| - 1], now);
      var (id, key) := seed[|seed| - 1];
      if id in before then before else before[id := Device(key, Admin, "env-seed", now, "")]
  }

  // ---- one step of a run ----

  /** How one save ends: well, with an error, or with the process dead before or after the rename. */
  datatype Ending = Fine | SaveError | DeadBefore | DeadAfter

  /** Whether the rename took place. */
  predicate Replaces(ending: Ending) {
    ending.Fine? || ending.DeadAfter?
  }

  datatype Event =
    | Reopen(seed: seq<(string, string)>, now: nat, readFails: bool, ending: Ending)
    | Call(op: Op, now: nat, ending: Ending)

  /** The registry on file, and the memory of the running store if there is one. */
  datatype Machine = Machine(file: Registry, memory: Option<Registry>)

  const START := Machine(map[], None)

  function Step(m: Machine, e: Event): Machine {
    match e
    case Reopen(seed, now, readFails, ending) =>
      var after := Seeded(m.file, seed, now);
      if readFails then Machine(m.file, None)
      else if after == m.file then Machine(m.file, Some(after))
      else Machine(if Replaces(ending) then after else m.file, if ending.Fine? then Some(after) else None)
    case Call(op, now, ending) =>
      if m.memory.None? then m
      else
        var after := Apply(m.memory.value, op, now);
        if !Saves(m.memory.value, op) then Machine(m.file, Some(after))
        else Machine(if Replaces(ending) then after else m.file, if ending.Fine? || ending.SaveError? then Some(after) else None)
  }

  // ---- the registry as an object ----

  /** What the file holds: nothing yet, only white space, a registry, or something that does not parse. */
  datatype Content = Missing | Blank | Holds(devices: Registry) | Garbled

  /** The devices that can be read from it. */
  function OnFile(content: Content): Registry {
    match content
    case Holds(m) => m
    case _ => map[]
  }

  /** What the caller learns of a call that saves. */
  datatype Reply<+T> = Answered(value: T) | Failed | ProcessDied

  function ReplyAfter<T>(ending: Ending, value: T): Reply<T> {
    match ending
    case Fine => Answered(value)
    case SaveError => Failed
    case _ => ProcessDied
  }

  function Saved(ending: Ending, before: Content, m: Registry): Content {
    if Replaces(ending) then Holds(m) else before
  }

  class DeviceFile {
    var content: Content

    constructor ()
      ensures content == Missing
    {
      content := Missing;
    }

    /** Temporary file and rename: the new map, or the old one. */
    method Save(m: Registry, ending: Ending)
      modifies this
      ensures content == Saved(ending, old(content), m)
    {
      if Replaces(ending) { content := Holds(m); }
    }
  }

  class DeviceStore {
    const file: DeviceFile
    var inner: Registry

    constructor (file: DeviceFile, inner: Registry)
      ensures this.file == file && this.inner == inner
    {
      this.file, this.inner := file, inner;
    }

    function View(): Machine
      reads this, file
    {
      Machine(OnFile(file.content), Some(inner))
    }

    /** Opening fails when the file cannot be read or parsed, or when seeds are new and saving them
        fails. When the file cannot even be looked up it counts as missing. Otherwise opening is the
        step `Reopen` of a run. */
    static method Open(file: DeviceFile, seed: seq<(string, string)>, now: nat, statFails: bool, readFails: bool, ending: Ending)
      returns (r: Reply<DeviceStore>)
      modifies file
      ensures var found := if statFails then Missing else old(file.content);
              var unreadable := found != Missing && (readFails || found == Garbled);
              var after := Seeded(OnFile(found), seed, now);
              && (r.Answered? <==> !unreadable && (after == OnFile(found) || ending.Fine?))
              && (unreadable ==> r == Failed)
              && (r.Answered? ==> fresh(r.value) && r.value.file == file && r.value.inner == after)
              && file.content == (if unreadable || after == OnFile(found) then old(file.content) else Saved(ending, old(file.content), after))
      ensures var reopen := Reopen(seed, now, old(file.content) != Missing && (readFails || old(file.content) == Garbled), ending);
              var after := Machine(OnFile(file.content), if r.Answered? then Some(r.value.inner) else None);
              !statFails ==> forall memory :: after == Step(Machine(OnFile(old(file.content)), memory), reopen)
    {
      var found := if statFails then Missing else file.content;
      if found != Missing && (readFails || found == Garbled) { return Failed; }
      var m := OnFile(found);
      var changed := false;
      for i := 0 to |seed|
        invariant m == Seeded(OnFile(found), seed[..i], now)
        invariant m.Keys >= OnFile(found).Keys
        invariant changed <==> m != OnFile(found)
        invariant changed ==> m.Keys != OnFile(found).Keys
      {
        assert seed[..i + 1][..i] == seed[..i];
        var (id, key) := seed[i];
        if id !in m {
          m := m[id := Device(key, Admin, "env-seed", now, "")];
          changed := true;
          assert id in m.Keys;
        }
      }
      assert seed[..|seed|] == seed;
      if changed {
        file.Save(m, ending);
        if ending.SaveError? { return Failed; }
        if !ending.Fine? { return ProcessDied; }
      }
      var store := new DeviceStore(file, m);
      return Answered(store);
    }

    /** Every operation: change the map, then save it; the change stays when the save fails. */
    method ClaimDevice(id: string, pubKey: string, nodeId: string, now: nat, ending: Ending) returns (r: Reply<bool>)
      modifies this, file
      ensures inner == Apply(old(inner), Claim(id, pubKey, nodeId), now)
      ensures r == if HasAdmin(old(inner)) then Answered(false) else ReplyAfter(ending, true)
      ensures file.content == if HasAdmin(old(inner)) then old(file.content) else Saved(ending, old(file.content), inner)
    {
      if exists x :: x in inner && inner[x].role == Admin { return Answered(false); }
      inner := inner[id := Device(pubKey, Admin, "claimed", now, nodeId)];
      file.Save(inner, ending);
      return ReplyAfter(ending, true);
    }

    method RequestDevice(id: string, pubKey: string, nodeId: string, deviceLabel: string, now: nat, ending: Ending)
      returns (r: Reply<Role>)
      modifies this, file
      ensures inner == Apply(old(inner), Request(id, pubKey, nodeId, deviceLabel), now)
      ensures r == ReplyAfter(ending, if IsAdmin(old(inner), id) then Admin else Pending)
      ensures file.content == Saved(ending, old(file.content), inner)
    {
      var role := Pending;
      if id in inner && inner[id].role == Admin {
        if nodeId != "" { inner := inner[id := inner[id].(nodeId := nodeId)]; }
        role := Admin;
      } else if id in inner {
        inner := inner[id := inner[id].(pubKey := pubKey)];
        if deviceLabel != "" { inner := inner[id := inner[id].(deviceLabel := deviceLabel)]; }
        if nodeId != "" { inner := inner[id := inner[id].(nodeId := nodeId)]; }
      } else {
        inner := inner[id := Device(pubKey, Pending, deviceLabel, now, nodeId)];
      }
      assert inner == Apply(old(inner), Request(id, pubKey, nodeId, deviceLabel), now);
      file.Save(inner, ending);
      return ReplyAfter(ending, role);
    }

    method RegisterNodeId(id: string, nodeId: string, now: nat, ending: Ending) returns (r: Reply<bool>)
      modifies this, file
      ensures inner == Apply(old(inner), SetNodeId(id, nodeId), now)
      ensures r == if id !in old(inner) then Answered(false) else ReplyAfter(ending, true)
      ensures file.content == if id !in old(inner) then old(file.content) else Saved(ending, old(file.content), inner)
    {
      if id !in inner { return Answered(false); }
      inner := inner[id := inner[id].(nodeId := nodeId)];
      file.Save(inner, ending);
      return ReplyAfter(ending, true);
    }

    method ApproveDevice(id: string, now: nat, ending: Ending) returns (r: Reply<bool>)
      modifies this, file
      ensures inner == Apply(old(inner), Approve(id), now)
      ensures var pending := id in old(inner) && old(inner)[id].role == Pending;
              && r == (if pending then ReplyAfter(ending, true) else Answered(false))
              && file.content == (if pending then Saved(ending, old(file.content), inner) else old(file.content))
    {
      if id !in inner || inner[id].role != Pending { return Answered(false); }
      inner := inner[id := inner[id].(role := Admin)];
      file.Save(inner, ending);
      return ReplyAfter(ending, true);
    }

    method RevokeDevice(id: string, now: nat, ending: Ending) returns (r: Reply<Answer>)
      modifies this, file
      ensures inner == Apply(old(inner), Revoke(id), now)
      ensures var answer := AnswerTo(old(inner), Revoke(id));
              && r == (if answer == Removed then ReplyAfter(ending, answer) else Answered(answer))
              && file.content == (if answer == Removed then Saved(ending, old(file.content), inner) else old(file.content))
    {
      if id !in inner { return Answered(NotFound); }
      var adminCount := |set x | x in inner && inner[x].role == Admin|;
      if inner[id].role == Admin && adminCount <= 1 { return Answered(LastAdmin); }
      inner := inner - {id};
      file.Save(inner, ending);
      return ReplyAfter(ending, Removed);
    }

    /** Any one call is the step `Call` of a run: file and memory afterwards are those of the step,
        and a store whose process died has no memory. */
    method Perform(op: Op, now: nat, ending: Ending) returns (r: Reply<Answer>)
      modifies this, file
      ensures r == if Saves(old(inner), op) then ReplyAfter(ending, AnswerTo(old(inner), op)) else Answered(AnswerTo(old(inner), op))
      ensures (if r.ProcessDied? then View().(memory := None) else View()) == Step(old(View()), Call(op, now, ending))
    {
      hide Apply;
      match op {
        case Claim(id, key, node) =>
          var b := ClaimDevice(id, key, node, now, ending);
          return Lift(b, (yes: bool) => Bool(yes));
        case Request(id, key, node, name) =>
          var role := RequestDevice(id, key, node, name, now, ending);
          return Lift(role, (x: Role) => RoleIs(x));
        case SetNodeId(id, node) =>
          var b := RegisterNodeId(id, node, now, ending);
          return Lift(b, (yes: bool) => Bool(yes));
        case Approve(id) =>
          var b := ApproveDevice(id, now, ending);
          return Lift(b, (yes: bool) => Bool(yes));
        case Revoke(id) =>
          r := RevokeDevice(id, now, ending);
      }
    }
  }

  function Lift<T, U>(r: Reply<T>, f: T -> U): Reply<U> {
    match r
    case Answered(v) => Answered(f(v))
    case Failed => Failed
    case ProcessDied => ProcessDied
  }
}
