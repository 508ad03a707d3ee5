/**
 What the registry holds of a device, in terms of the calls made and what they answered: whether it is
 enrolled, as what, and under which key, node id and label.
 */
module DeviceHistory {
  import opened Outcomes
  import opened Histories
  import opened Devices
  import opened DeviceRuns

  /** A call on a running store. */
  datatype Made = Made(op: Op, now: nat)

  /** The registry in memory after some calls. */
  function Play(m: Registry, calls: seq<Made>): Registry {
    if calls == [] then m
    else
      var n := |calls| - 1;
      Apply(Play(m, calls[..n]), calls[n].op, calls[n].now)
  }

  /** While nobody dies or reopens, the memory of a run is the registry played on, whether or not the
      saves succeed. */
  lemma {:induction false} SessionPlays(events: seq<Event>, k: nat, calls: seq<Made>)
    requires k + |calls| == |events| && Run(events[..k]).memory.Some?
    requires forall i :: 0 <= i < |calls| ==> var e := events[k + i]; e == Call(calls[i].op, calls[i].now, Fine) || e == Call(calls[i].op, calls[i].now, SaveError)
    ensures Run(events).memory == Some(Play(Run(events[..k]).memory.value, calls))
  {
    hide Apply, Saves;
    if calls == [] {
      assert events[..k] == events;
    } else {
      var n := |calls| - 1;
      var before := events[..|events| - 1];
      assert before[..k] == events[..k];
      assert forall i :: 0 <= i < n ==> before[k + i] == events[k + i] && calls[..n][i] == calls[i];
      SessionPlays(before, k, calls[..n]);
      assert events[k + n] == events[|events| - 1];
    }
  }

  // ---- what a call with a given answer changes ----

  function RoleChange(op: Op, answer: Answer, id: string): Change<Role> {
    if op.id != id then Keep
    else
      match op
      case Claim(_, _, _) => if answer == Bool(true) then Put(Admin) else Keep
      case Request(_, _, _, _) => if answer == RoleIs(Pending) then Put(Pending) else Keep
      case Approve(_) => if answer == Bool(true) then Put(Admin) else Keep
      case Revoke(_) => if answer == Removed then Drop else Keep
      case SetNodeId(_, _) => Keep
  }

  /** The key is that of the claim, or of the last request made before the device was admin. */
  function KeyChange(op: Op, answer: Answer, id: string): Change<string> {
    if op.id != id then Keep
    else
      match op
      case Claim(_, key, _) => if answer == Bool(true) then Put(key) else Keep
      case Request(_, key, _, _) => if answer == RoleIs(Pending) then Put(key) else Keep
      case Revoke(_) => if answer == Removed then Drop else Keep
      case _ => Keep
  }

  /** A request for a device that is there leaves the node id alone unless it brings one. */
  function NodeChange(op: Op, answer: Answer, id: string, present: bool): Change<string> {
    if op.id != id then Keep
    else
      match op
      case Claim(_, _, node) => if answer == Bool(true) then Put(node) else Keep
      case Request(_, _, node, _) => if present && node == "" then Keep else Put(node)
      case SetNodeId(_, node) => if answer == Bool(true) then Put(node) else Keep
      case Revoke(_) => if answer == Removed then Drop else Keep
      case Approve(_) => Keep
  }

  /** A request for an admin leaves its label alone, and one for a pending device does unless it brings
      one. */
  function LabelChange(op: Op, answer: Answer, id: string, present: bool): Change<string> {
    if op.id != id then Keep
    else
      match op
      case Claim(_, _, _) => if answer == Bool(true) then Put("claimed") else Keep
      case Request(_, _, _, name) => if answer == RoleIs(Admin) || (present && name == "") then Keep else Put(name)
      case Revoke(_) => if answer == Removed then Drop else Keep
      case _ => Keep
  }

  function AddedChange(op: Op, now: nat, answer: Answer, id: string, present: bool): Change<nat> {
    if op.id != id then Keep
    else
      match op
      case Claim(_, _, _) => if answer == Bool(true) then Put(now) else Keep
      case Request(_, _, _, _) => if present then Keep else Put(now)
      case Revoke(_) => if answer == Removed then Drop else Keep
      case _ => Keep
  }

  function RoleOf(d: Device): Role { d.role }

  function KeyOf(d: Device): string { d.pubKey }

  function NodeOf(d: Device): string { d.nodeId }

  function LabelOf(d: Device): string { d.deviceLabel }

  function AddedOf(d: Device): nat { d.addedTs }

  function View<V>(m: Registry, id: string, field: Device -> V): Option<V> {
    if id in m then Some(field(m[id])) else None
  }

  lemma StepOnDevice(m: Registry, c: Made, id: string)
    ensures var after, answer, present := Apply(m, c.op, c.now), AnswerTo(m, c.op), id in m;
      && View(after, id, RoleOf) == After(View(m, id, RoleOf), RoleChange(c.op, answer, id))
      && View(after, id, KeyOf) == After(View(m, id, KeyOf), KeyChange(c.op, answer, id))
      && View(after, id, NodeOf) == After(View(m, id, NodeOf), NodeChange(c.op, answer, id, present))
      && View(after, id, LabelOf) == After(View(m, id, LabelOf), LabelChange(c.op, answer, id, present))
      && View(after, id, AddedOf) == After(View(m, id, AddedOf), AddedChange(c.op, c.now, answer, id, present))
  {
    assert c.op.Claim? && c.op.id in m && m[c.op.id].role == Admin ==> HasAdmin(m);
  }

  // ---- a whole session ----

  function AnswerAt(m: Registry, calls: seq<Made>, k: nat): Answer
    requires k < |calls|
  {
    AnswerTo(Play(m, calls[..k]), calls[k].op)
  }

  function RoleChanges(m: Registry, calls: seq<Made>, id: string): seq<Change<Role>> {
    seq(|calls|, k requires 0 <= k < |calls| => RoleChange(calls[k].op, AnswerAt(m, calls, k), id))
  }

  function KeyChanges(m: Registry, calls: seq<Made>, id: string): seq<Change<string>> {
    seq(|calls|, k requires 0 <= k < |calls| => KeyChange(calls[k].op, AnswerAt(m, calls, k), id))
  }

  function NodeChanges(m: Registry, calls: seq<Made>, id: string): seq<Change<string>> {
    seq(|calls|, k requires 0 <= k < |calls| => NodeChange(calls[k].op, AnswerAt(m, calls, k), id, id in Play(m, calls[..k])))
  }

  function LabelChanges(m: Registry, calls: seq<Made>, id: string): seq<Change<string>> {
    seq(|calls|, k requires 0 <= k < |calls| => LabelChange(calls[k].op, AnswerAt(m, calls, k), id, id in Play(m, calls[..k])))
  }

  function AddedChanges(m: Registry, calls: seq<Made>, id: string): seq<Change<nat>> {
    seq(|calls|, k requires 0 <= k < |calls| => AddedChange(calls[k].op, calls[k].now, AnswerAt(m, calls, k), id, id in Play(m, calls[..k])))
  }

  /** The value that the field of a device has after some calls: that of the last call that set it and
      has not been followed by a change, or the one it started with if nothing changed it. */
  ghost predicate Ends<V>(m: Registry, calls: seq<Made>, id: string, field: Device -> V, changes: seq<Change<V>>, value: V) {
    View(Play(m, calls), id, field) == Some(value) <==>
      (exists i: nat :: LastPut(changes, i, value)) || (View(m, id, field) == Some(value) && KeptFrom(changes, 0))
  }

  lemma History<V>(m: Registry, calls: seq<Made>, id: string, field: Device -> V, changes: seq<Change<V>>, value: V)
    requires |changes| == |calls|
    requires forall k :: 0 <= k < |calls| ==>
      View(Apply(Play(m, calls[..k]), calls[k].op, calls[k].now), id, field) == After(View(Play(m, calls[..k]), id, field), changes[k])
    ensures Ends(m, calls, id, field, changes, value)
  {
    hide Apply, View;
    var states := seq(|calls| + 1, k requires 0 <= k <= |calls| => View(Play(m, calls[..k]), id, field));
    forall k | 0 <= k < |calls| ensures states[k + 1] == After(states[k], changes[k]) {
      assert calls[..k + 1][..k] == calls[..k];
    }
    assert calls[..|calls|] == calls && Play(m, calls[..0]) == m;
    LastChange(states, changes, value);
  }

  /** Role, key, node id, label and time of a device after a session, from the calls of the session. A
      device is enrolled exactly if it has a role. */
  lemma DeviceAfterSession(m: Registry, calls: seq<Made>, id: string, role: Role, key: string, node: string, name: string, added: nat)
    ensures Ends(m, calls, id, RoleOf, RoleChanges(m, calls, id), role)
    ensures Ends(m, calls, id, KeyOf, KeyChanges(m, calls, id), key)
    ensures Ends(m, calls, id, NodeOf, NodeChanges(m, calls, id), node)
    ensures Ends(m, calls, id, LabelOf, LabelChanges(m, calls, id), name)
    ensures Ends(m, calls, id, AddedOf, AddedChanges(m, calls, id), added)
    ensures id in Play(m, calls) <==> View(Play(m, calls), id, RoleOf).Some?
  {
    hide Apply, Play, AnswerTo, RoleChange, KeyChange, NodeChange, LabelChange, AddedChange, Ends;
    forall k | 0 <= k < |calls| ensures
      var was := Play(m, calls[..k]);
      var after := Apply(was, calls[k].op, calls[k].now);
      && View(after, id, RoleOf) == After(View(was, id, RoleOf), RoleChanges(m, calls, id)[k])
      && View(after, id, KeyOf) == After(View(was, id, KeyOf), KeyChanges(m, calls, id)[k])
      && View(after, id, NodeOf) == After(View(was, id, NodeOf), NodeChanges(m, calls, id)[k])
      && View(after, id, LabelOf) == After(View(was, id, LabelOf), LabelChanges(m, calls, id)[k])
      && View(after, id, AddedOf) == After(View(was, id, AddedOf), AddedChanges(m, calls, id)[k])
    {
      StepOnDevice(Play(m, calls[..k]), calls[k], id);
    }
    History(m, calls, id, RoleOf, RoleChanges(m, calls, id), role);
    History(m, calls, id, KeyOf, KeyChanges(m, calls, id), key);
    History(m, calls, id, NodeOf, NodeChanges(m, calls, id), node);
    History(m, calls, id, LabelOf, LabelChanges(m, calls, id), name);
    History(m, calls, id, AddedOf, AddedChanges(m, calls, id), added);
  }

  // ---- what the calls answer ----

  /** A claim is granted exactly when no device is admin, an approval exactly to a pending device, and a
      revocation is refused exactly to the only admin. */
  lemma AnswersExactly(m: Registry, op: Op)
    ensures var answer, d := AnswerTo(m, op), View(m, op.id, RoleOf);
      && (op.Claim? ==> answer == Bool(forall x :: x in m ==> m[x].role == Pending))
      && (op.Request? ==> answer == RoleIs(if d == Some(Admin) then Admin else Pending))
      && (op.SetNodeId? ==> answer == Bool(d.Some?))
      && (op.Approve? ==> answer == Bool(d == Some(Pending)))
      && (op.Revoke? ==>
            && (answer == NotFound <==> d == None)
            && (answer == LastAdmin <==> d == Some(Admin) && forall x :: x in m && m[x].role == Admin ==> x == op.id)
            && (answer == NotFound || answer == LastAdmin || answer == Removed))
  {
    if op.Claim? && !HasAdmin(m) {
      assert forall x :: x in m ==> m[x].role == Pending;
    }
    if op.Revoke? && IsAdmin(m, op.id) {
      var admins := Admins(m);
      assert op.id in admins && forall x :: x in m && m[x].role == Admin <==> x in admins;
      if x :| x in admins && x != op.id {
        TwoMembers(admins, x, op.id);
      } else {
        assert admins == {op.id} && |admins| == 1;
      }
    }
  }

  lemma TwoMembers(s: set<string>, x: string, y: string)
    requires x in s && y in s && x != y
    ensures |s| >= 2
  {
    assert |s - {x}| >= 1 by { assert y in s - {x}; }
  }

  /** A seeded device that was not on file is admin under the first key the seed gives it. */
  lemma SeededDevice(m: Registry, seed: seq<(string, string)>, now: nat, id: string)
    ensures id in m ==> id in Seeded(m, seed, now) && Seeded(m, seed, now)[id] == m[id]
    ensures id !in m ==>
      match FirstKey(seed, id)
      case None => id !in Seeded(m, seed, now)
      case Some(key) => id in Seeded(m, seed, now) && Seeded(m, seed, now)[id] == Device(key, Admin, "env-seed", now, "")
  {
    SeededKeeps(m, seed, now);
    if id !in m {
      SeededKey(m, seed, now, id);
      if id in Seeded(m, seed, now) { SeededFields(m, seed, now, id); }
    }
  }

  lemma {:induction false} SeededFields(m: Registry, seed: seq<(string, string)>, now: nat, id: string)
    requires id !in m && id in Seeded(m, seed, now)
    ensures var d := Seeded(m, seed, now)[id];
            d.role == Admin && d.deviceLabel == "env-seed" && d.addedTs == now && d.nodeId == ""
  {
    if seed != [] && id in Seeded(m, seed[..|seed| - 1], now) { SeededFields(m, seed[..|seed| - 1], now, id); }
  }
}
