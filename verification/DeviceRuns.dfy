/**
 Runs of the device registry, across failed saves, deaths and reopenings: how devices become admins,
 that there is always one once there was, and when an admin's key stays.
 */
module DeviceRuns {
  import opened Outcomes
  import opened Devices

  // ---- runs ----

  function Run(events: seq<Event>): Machine {
    if events == [] then START else Step(Run(events[..|events| - 1]), events[|events| - 1])
  }

  /** The registry of the running store, or the one on file when none is running. */
  function Shown(m: Machine): Registry {
    match m.memory
    case Some(r) => r
    case None => m.file
  }

  /** The event gives up the memory for what is on file: a reopening, or dying before the rename. */
  predicate FallsBack(m: Machine, e: Event) {
    m.memory.Some? && (e.Reopen? || (e.ending.DeadBefore? && Saves(m.memory.value, e.op)))
  }

  /** The reopening puts a device on file that was not there. */
  predicate SeedsNew(m: Machine, e: Event) {
    e.Reopen? && !e.readFails && Replaces(e.ending) && exists p :: p in e.seed && p.0 !in m.file
  }

  /** The event at `i` is a claim that returned true. */
  predicate ClaimSucceeds(events: seq<Event>, i: nat)
    requires i < |events|
  {
    var m, e := Run(events[..i]), events[i];
    e.Call? && e.op.Claim? && e.ending.Fine? && m.memory.Some? && AnswerTo(m.memory.value, e.op) == Bool(true)
  }

  /** A file with an admin means a memory with an admin. */
  predicate AdminShows(m: Machine) {
    HasAdmin(m.file) && m.memory.Some? ==> HasAdmin(m.memory.value)
  }

  lemma ApplyKeepsAdmin(m: Registry, op: Op, now: nat)
    requires HasAdmin(m)
    ensures HasAdmin(Apply(m, op, now))
  {
    var a :| a in m && m[a].role == Admin;
    var after := Apply(m, op, now);
    if op.Revoke? && op.id in m && after != m && op.id == a {
      var admins := Admins(m);
      assert admins == {a} ==> |admins| == 1;
      var b :| b in admins && b != a;
      assert b in after && after[b].role == Admin;
    } else {
      assert a in after && after[a].role == Admin;
    }
  }

  lemma {:induction false} SeededKeeps(m: Registry, seed: seq<(string, string)>, now: nat)
    ensures var after := Seeded(m, seed, now);
      && (forall id :: id in m ==> id in after && after[id] == m[id])
      && (forall id :: id in after && id !in m ==> after[id].role == Admin && exists p :: p in seed && p.0 == id)
  {
    if seed != [] {
      var n := |seed| - 1;
      SeededKeeps(m, seed[..n], now);
      assert seed == seed[..n] + [seed[n]];
    }
  }

  lemma SeededKeepsAdmin(m: Registry, seed: seq<(string, string)>, now: nat)
    requires HasAdmin(m)
    ensures HasAdmin(Seeded(m, seed, now))
  {
    SeededKeeps(m, seed, now);
    var a :| a in m && m[a].role == Admin;
    assert a in Seeded(m, seed, now);
  }

  lemma StepKeepsAdmin(m: Machine, e: Event)
    requires AdminShows(m)
    ensures AdminShows(Step(m, e))
    ensures HasAdmin(m.file) ==> HasAdmin(Step(m, e).file)
  {
    hide HasAdmin, Apply, Saves;
    match e
    case Reopen(seed, now, _, _) => if HasAdmin(m.file) { SeededKeepsAdmin(m.file, seed, now); }
    case Call(op, now, _) =>
      if m.memory.Some? && HasAdmin(m.memory.value) { ApplyKeepsAdmin(m.memory.value, op, now); }
  }

  /** Once an admin is on file one always is, and every running store shows one: across failed
      saves, deaths and reopenings. */
  lemma {:induction false} AdminPersists(events: seq<Event>, i: nat)
    requires i <= |events|
    ensures AdminShows(Run(events))
    ensures HasAdmin(Run(events[..i]).file) ==> HasAdmin(Run(events).file)
  {
    hide AdminShows, HasAdmin, Step;
    if events == [] {
      AdminAtStart();
      assert events[..i] == [];
    } else if i == |events| {
      assert events[..i] == events;
      AdminPersists(events[..i - 1], i - 1);
      StepKeepsAdmin(Run(events[..i - 1]), events[i - 1]);
    } else {
      var n := |events| - 1;
      assert events[..n][..i] == events[..i];
      AdminPersists(events[..n], i);
      StepKeepsAdmin(Run(events[..n]), events[n]);
    }
  }

  lemma AdminAtStart()
    ensures AdminShows(START) && Run([]) == START
  {
  }

  /** When the event falls back on the file, the file has an admin or is given one. */
  predicate KeepsAnAdmin(m: Machine, e: Event) {
    FallsBack(m, e) ==> HasAdmin(m.file) || SeedsNew(m, e)
  }

  /** Whether an event leaves a registry with an admin one, exactly. */
  lemma AdminStepExact(m: Machine, e: Event)
    requires HasAdmin(Shown(m))
    ensures HasAdmin(Shown(Step(m, e))) <==> KeepsAnAdmin(m, e)
  {
    hide Apply, Saves;
    match e
    case Reopen(seed, now, _, _) => SeededAdmin(m.file, seed, now);
    case Call(op, now, _) =>
      if m.memory.Some? { ApplyKeepsAdmin(m.memory.value, op, now); }
  }

  /** Seeding gives an admin exactly when there was one or a seeded device is new, and changes
      nothing exactly when none is. */
  lemma SeededAdmin(m: Registry, seed: seq<(string, string)>, now: nat)
    ensures var news := exists p :: p in seed && p.0 !in m;
            (HasAdmin(Seeded(m, seed, now)) <==> HasAdmin(m) || news) && (Seeded(m, seed, now) == m <==> !news)
  {
    SeededKeeps(m, seed, now);
    SeededAdds(m, seed, now);
    var after := Seeded(m, seed, now);
    if HasAdmin(m) { SeededKeepsAdmin(m, seed, now); }
    if p :| p in seed && p.0 !in m {
      assert p.0 in after && after[p.0].role == Admin;
    } else {
      assert forall id :: id in after ==> id in m;
      assert after == m;
    }
  }

  predicate AdminShown(events: seq<Event>, k: nat)
    requires k <= |events|
  {
    HasAdmin(Shown(Run(events[..k])))
  }

  predicate AdminKept(events: seq<Event>, k: nat)
    requires k < |events|
  {
    KeepsAnAdmin(Run(events[..k]), events[k])
  }

  lemma AdminStepAt(events: seq<Event>, k: nat)
    requires k < |events| && AdminShown(events, k)
    ensures AdminShown(events, k + 1) <==> AdminKept(events, k)
  {
    hide Step, Shown, KeepsAnAdmin, HasAdmin;
    assert events[..k + 1][..k] == events[..k];
    AdminStepExact(Run(events[..k]), events[k]);
  }

  /** Once there is an admin there always is one, if and only if no event falls back on a file that
      has none and is given none. */
  lemma {:induction false} AdminPersistsExactly(events: seq<Event>, i: nat, n: nat)
    requires i <= n <= |events| && AdminShown(events, i)
    ensures (forall k :: i <= k <= n ==> AdminShown(events, k)) <==> (forall k :: i <= k < n ==> AdminKept(events, k))
    decreases n
  {
    hide AdminShown, AdminKept;
    if i < n {
      AdminPersistsExactly(events, i, n - 1);
      if AdminShown(events, n - 1) { AdminStepAt(events, n - 1); }
    }
  }

  predicate NoFailedSave(events: seq<Event>) {
    forall e :: e in events ==> e.ending != SaveError
  }

  lemma {:induction false} FileInStep(events: seq<Event>)
    requires NoFailedSave(events)
    ensures var m := Run(events); m.memory.Some? ==> m.memory.value == m.file
  {
    if events != [] {
      var n := |events| - 1;
      assert NoFailedSave(events[..n]);
      FileInStep(events[..n]);
      assert events[n] in events;
      UnsavedIsUnchanged(Run(events[..n]), events[n]);
    }
  }

  lemma UnsavedIsUnchanged(m: Machine, e: Event)
    ensures e.Call? && m.memory.Some? && !Saves(m.memory.value, e.op) ==> Apply(m.memory.value, e.op, e.now) == m.memory.value
  {
  }

  lemma NoFailedSaveBefore(events: seq<Event>, k: nat)
    requires NoFailedSave(events) && k <= |events|
    ensures NoFailedSave(events[..k])
  {
  }

  /** Without failed saves, once there is an admin there always is one. */
  lemma AdminPersistsWithoutFailedSaves(events: seq<Event>, i: nat)
    requires i <= |events| && NoFailedSave(events) && AdminShown(events, i)
    ensures AdminShown(events, |events|)
  {
    hide Run, HasAdmin, NoFailedSave;
    NoFailedSaveBefore(events, i);
    FileInStep(events[..i]);
    FileInStep(events);
    AdminPersists(events, i);
    assert events[..|events|] == events;
  }

  /** A failed save can lose the only admin: the claim is in memory alone, and a reopening is back
      at a registry without one. */
  lemma FailedSaveCanLoseAdmin()
    ensures var events := [Reopen([], 0, false, Fine), Call(Claim("a", "k", ""), 0, SaveError), Reopen([], 0, false, Fine)];
            AdminShown(events, 2) && !AdminShown(events, 3)
  {
    hide Run;
    var open, claim := Reopen([], 0, false, Fine), Call(Claim("a", "k", ""), 0, SaveError);
    var events := [open, claim, open];
    RunNext([], open);
    RunNext([open], claim);
    RunNext([open, claim], open);
    assert [] + [open] == [open] && [open] + [claim] == [open, claim] && [open, claim] + [open] == events;
    assert events[..2] == [open, claim] && events[..3] == events;
    var a := Device("k", Admin, "claimed", 0, "");
    var one: Registry := map["a" := a];
    assert Step(Machine(map[], Some(map[])), claim) == Machine(map[], Some(one));
    assert one["a"].role == Admin;
  }

  /** At most one claim ever succeeds. */
  lemma AtMostOneClaim(events: seq<Event>, i: nat, j: nat)
    requires i < j < |events|
    ensures !(ClaimSucceeds(events, i) && ClaimSucceeds(events, j))
  {
    if ClaimSucceeds(events, i) {
      var after := Run(events[..i + 1]);
      assert events[..i + 1][..i] == events[..i];
      assert HasAdmin(after.file) by { assert IsAdmin(after.file, events[i].op.id); }
      AdminPersists(events[..j], i + 1);
      assert events[..j][..i + 1] == events[..i + 1];
    }
  }

  // ---- how a device becomes admin ----

  /** A claim while there was no admin, an approval while it was pending, or a seed of a device that
      was not on file. */
  predicate Makes(m: Machine, e: Event, id: string) {
    match e
    case Reopen(seed, _, readFails, _) => !readFails && id !in m.file && exists p :: p in seed && p.0 == id
    case Call(op, _, _) =>
      && m.memory.Some?
      && op.id == id
      && ((op.Claim? && !HasAdmin(m.memory.value))
          || (op.Approve? && id in m.memory.value && m.memory.value[id].role == Pending))
  }

  /** The device is admin on file or in memory. */
  predicate AdminSomewhere(m: Machine, id: string) {
    IsAdmin(m.file, id) || (m.memory.Some? && IsAdmin(m.memory.value, id))
  }

  lemma StepMakesAdmin(m: Machine, e: Event, id: string)
    requires AdminSomewhere(Step(m, e), id)
    ensures AdminSomewhere(m, id) || Makes(m, e, id)
  {
    if e.Reopen? { SeededKeeps(m.file, e.seed, e.now); }
  }

  /** The event at `i` made the device admin, which it was not before and has been ever since. */
  predicate MadeAt(events: seq<Event>, i: nat, id: string)
    requires i < |events|
  {
    && Makes(Run(events[..i]), events[i], id)
    && !AdminSomewhere(Run(events[..i]), id)
    && forall k :: i < k <= |events| ==> AdminSomewhere(Run(events[..k]), id)
  }

  /** Every admin of a run owes it to an event of the run. */
  lemma {:induction false} AdminHasCause(events: seq<Event>, id: string)
    requires AdminSomewhere(Run(events), id)
    ensures exists i: nat :: i < |events| && MadeAt(events, i, id)
  {
    hide AdminSomewhere, Makes, Step;
    if events == [] {
      NoAdminAtStart(id);
    } else {
      var n := |events| - 1;
      var before := events[..n];
      assert events[..n + 1] == events;
      if AdminSomewhere(Run(before), id) {
        AdminHasCause(before, id);
        var i: nat :| i < n && MadeAt(before, i, id);
        assert before[..i] == events[..i];
        forall k | i < k <= |events| ensures AdminSomewhere(Run(events[..k]), id) {
          if k <= n { assert before[..k] == events[..k]; }
        }
        assert MadeAt(events, i, id);
      } else {
        StepMakesAdmin(Run(before), events[n], id);
        assert MadeAt(events, n, id);
      }
    }
  }

  lemma NoAdminAtStart(id: string)
    ensures !AdminSomewhere(START, id)
  {
  }

  // ---- an admin's key ----

  /** No operation on the memory changes the key or role of an admin it keeps. */
  lemma ApplyKeepsAdminKey(m: Registry, op: Op, now: nat, id: string)
    requires IsAdmin(m, id) && id in Apply(m, op, now)
    ensures IsAdmin(Apply(m, op, now), id) && Apply(m, op, now)[id].pubKey == m[id].pubKey
  {
    assert HasAdmin(m);
  }

  /** Without failed saves an admin that stays enrolled stays admin under the same key, across
      deaths and reopenings. */
  lemma {:induction false} AdminKeyStable(events: seq<Event>, i: nat, id: string)
    requires i <= |events| && NoFailedSave(events)
    requires IsAdmin(Run(events[..i]).file, id)
    requires forall k :: i <= k <= |events| ==> id in Run(events[..k]).file
    ensures IsAdmin(Run(events).file, id) && Run(events).file[id].pubKey == Run(events[..i]).file[id].pubKey
  {
    hide Step, IsAdmin;
    if i == |events| {
      assert events[..i] == events;
    } else {
      var n := |events| - 1;
      var before, e := events[..n], events[n];
      assert before[..i] == events[..i] && events[..|events|] == events && NoFailedSave(before);
      forall k | i <= k <= n ensures id in Run(before[..k]).file { assert before[..k] == events[..k]; }
      AdminKeyStable(before, i, id);
      FileInStep(before);
      FileKeyStep(Run(before), e, id);
    }
  }

  lemma FileKeyStep(m: Machine, e: Event, id: string)
    requires IsAdmin(m.file, id) && id in Step(m, e).file
    requires m.memory.Some? ==> m.memory.value == m.file
    ensures IsAdmin(Step(m, e).file, id) && Step(m, e).file[id].pubKey == m.file[id].pubKey
  {
    hide Apply, Seeded, Saves;
    match e
    case Reopen(seed, now, _, _) => SeededKeeps(m.file, seed, now);
    case Call(op, now, _) =>
      if m.memory.Some? && id in Apply(m.file, op, now) { ApplyKeepsAdminKey(m.file, op, now, id); }
  }

  /** What a reopening leaves, however it ends: a running store exactly if the file can be read and
      no new seed failed to be saved; then an admin exactly if the file has one or a seed is new; and
      without new seeds the same registry as before exactly if memory and file agreed. */
  lemma ReopenExact(m: Machine, seed: seq<(string, string)>, now: nat, readFails: bool, ending: Ending)
    ensures var news := exists p :: p in seed && p.0 !in m.file;
            var after := Step(m, Reopen(seed, now, readFails, ending));
      && (after.memory.Some? <==> !readFails && (!news || ending.Fine?))
      && (after.memory.Some? ==> (HasAdmin(after.memory.value) <==> HasAdmin(m.file) || news))
      && (HasAdmin(after.file) <==> HasAdmin(m.file) || SeedsNew(m, Reopen(seed, now, readFails, ending)))
      && (!readFails && !news ==> after.file == m.file && (after.memory == m.memory <==> m.memory == Some(m.file)))
  {
    SeededAdmin(m.file, seed, now);
  }

  lemma {:induction false} SeededAdds(m: Registry, seed: seq<(string, string)>, now: nat)
    ensures forall p :: p in seed ==> p.0 in Seeded(m, seed, now)
  {
    if seed != [] {
      var n := |seed| - 1;
      SeededAdds(m, seed[..n], now);
      assert seed == seed[..n] + [seed[n]];
    }
  }

  // ---- with failed saves: exactly when an admin's key stays ----

  function FirstKey(seed: seq<(string, string)>, id: string): Option<string> {
    if seed == [] then None
    else
      match FirstKey(seed[..|seed| - 1], id)
      case Some(k) => Some(k)
      case None => if seed[|seed| - 1].0 == id then Some(seed[|seed| - 1].1) else None
  }

  /** When the event falls back on the file, the file has the key in memory for the device; if the
      file lacks the device, the seed brings it under that key. */
  predicate KeySafe(m: Machine, e: Event, id: string)
    requires id in Shown(m)
  {
    FallsBack(m, e) ==>
      if id in m.file then m.file[id].pubKey == Shown(m)[id].pubKey
      else e.Reopen? ==> FirstKey(e.seed, id) == Some(Shown(m)[id].pubKey)
  }

  lemma {:induction false} SeededKey(m: Registry, seed: seq<(string, string)>, now: nat, id: string)
    requires id !in m
    ensures var after := Seeded(m, seed, now);
            (id in after <==> FirstKey(seed, id).Some?) && (id in after ==> FirstKey(seed, id) == Some(after[id].pubKey))
  {
    if seed != [] { SeededKey(m, seed[..|seed| - 1], now, id); }
  }

  lemma KeyStepExact(m: Machine, e: Event, id: string)
    requires IsAdmin(Shown(m), id) && id in Shown(Step(m, e))
    ensures Shown(Step(m, e))[id].pubKey == Shown(m)[id].pubKey <==> KeySafe(m, e, id)
  {
    hide Apply, Seeded, Saves, FirstKey;
    match e
    case Reopen(seed, now, _, _) =>
      SeededKeeps(m.file, seed, now);
      if id !in m.file { SeededKey(m.file, seed, now, id); }
    case Call(op, now, _) =>
      if m.memory.Some? && id in Apply(m.memory.value, op, now) { ApplyKeepsAdminKey(m.memory.value, op, now, id); }
  }

  predicate AdminAt(events: seq<Event>, k: nat, id: string)
    requires k <= |events|
  {
    IsAdmin(Shown(Run(events[..k])), id)
  }

  function KeyAt(events: seq<Event>, k: nat, id: string): Option<string>
    requires k <= |events|
  {
    var r := Shown(Run(events[..k]));
    if id in r then Some(r[id].pubKey) else None
  }

  predicate SafeAt(events: seq<Event>, k: nat, id: string)
    requires k < |events|
  {
    var m := Run(events[..k]);
    id in Shown(m) && KeySafe(m, events[k], id)
  }

  lemma KeyStepAt(events: seq<Event>, k: nat, id: string)
    requires k < |events| && AdminAt(events, k, id) && AdminAt(events, k + 1, id)
    ensures KeyAt(events, k + 1, id) == KeyAt(events, k, id) <==> SafeAt(events, k, id)
  {
    hide Step, Shown, KeySafe;
    assert events[..k + 1][..k] == events[..k];
    KeyStepExact(Run(events[..k]), events[k], id);
  }

  /** While a device is admin its key stays the same if and only if no event falls back on a file
      that has, or is seeded with, another key for it. */
  lemma {:induction false} AdminKeyStableExactly(events: seq<Event>, i: nat, n: nat, id: string)
    requires i <= n <= |events| && forall k :: i <= k <= n ==> AdminAt(events, k, id)
    ensures (forall k :: i <= k <= n ==> KeyAt(events, k, id) == KeyAt(events, i, id))
       <==> (forall k :: i <= k < n ==> SafeAt(events, k, id))
    decreases n
  {
    hide AdminAt, KeyAt, SafeAt;
    if i < n {
      AdminKeyStableExactly(events, i, n - 1, id);
      KeyStepAt(events, n - 1, id);
    }
  }

  /** A failed save can undo this: the store revokes an admin, takes it back under another key, and
      a reopening brings the old key back, though the device was enrolled before and after. */
  lemma FailedSaveCanRestoreOldKey()
    ensures var events := [
              Reopen([("a", "k1"), ("b", "k0")], 0, false, Fine),
              Call(Revoke("a"), 0, SaveError),
              Call(Request("a", "k2", "", ""), 0, SaveError),
              Call(Approve("a"), 0, SaveError)];
            && Run(events).memory.Some? && IsAdmin(Run(events).memory.value, "a")
            && Run(events).memory.value["a"].pubKey == "k2"
            && var after := Run(events + [Reopen([], 0, false, Fine)]);
               after.memory.Some? && IsAdmin(after.memory.value, "a") && after.memory.value["a"].pubKey == "k1"
  {
    hide Run, Step;
    var a, b, c := Device("k1", Admin, "env-seed", 0, ""), Device("k0", Admin, "env-seed", 0, ""), Device("k2", Pending, "", 0, "");
    var seed, m0 := [("a", "k1"), ("b", "k0")], map["a" := a, "b" := b];
    var e0, e1 := Reopen(seed, 0, false, Fine), Call(Revoke("a"), 0, SaveError);
    var e2, e3 := Call(Request("a", "k2", "", ""), 0, SaveError), Call(Approve("a"), 0, SaveError);
    RunNext([], e0);
    SeedTwo(a, b);
    RunNext([e0], e1);
    RevokeOne(a, b);
    RunNext([e0, e1], e2);
    RunNext([e0, e1, e2], e3);
    RequestAndApprove(m0, b, c);
    RunNext([e0, e1, e2, e3], Reopen([], 0, false, Fine));
    ReopenPlain(Machine(m0, Some(map["b" := b, "a" := c.(role := Admin)])));
    assert [] + [e0] == [e0] && [e0] + [e1] == [e0, e1] && [e0, e1] + [e2] == [e0, e1, e2] && [e0, e1, e2] + [e3] == [e0, e1, e2, e3];
  }

  lemma RunNext(events: seq<Event>, e: Event)
    ensures Run([]) == START && Run(events + [e]) == Step(Run(events), e)
  {
    assert (events + [e])[..|events|] == events;
  }

  lemma SeedTwo(a: Device, b: Device)
    requires a == Device("k1", Admin, "env-seed", 0, "") && b == Device("k0", Admin, "env-seed", 0, "")
    ensures var m := map["a" := a, "b" := b];
            Step(START, Reopen([("a", "k1"), ("b", "k0")], 0, false, Fine)) == Machine(m, Some(m))
  {
    var seed: seq<(string, string)> := [("a", "k1"), ("b", "k0")];
    assert seed[..1] == [("a", "k1")] && seed[..1][..0] == [];
    assert Seeded(map[], seed[..1], 0) == map["a" := a];
  }

  lemma RevokeOne(a: Device, b: Device)
    requires a.role == Admin && b.role == Admin
    ensures var m := map["a" := a, "b" := b];
            Step(Machine(m, Some(m)), Call(Revoke("a"), 0, SaveError)) == Machine(m, Some(map["b" := b]))
  {
    var m := map["a" := a, "b" := b];
    assert Admins(m) == {"a", "b"};
    assert m - {"a"} == map["b" := b];
  }

  lemma RequestAndApprove(file: Registry, b: Device, c: Device)
    requires c == Device("k2", Pending, "", 0, "")
    ensures Step(Machine(file, Some(map["b" := b])), Call(Request("a", "k2", "", ""), 0, SaveError))
         == Machine(file, Some(map["b" := b, "a" := c]))
    ensures Step(Machine(file, Some(map["b" := b, "a" := c])), Call(Approve("a"), 0, SaveError))
         == Machine(file, Some(map["b" := b, "a" := c.(role := Admin)]))
  {
    var m := map["b" := b, "a" := c];
    assert m["a" := c.(role := Admin)] == map["b" := b, "a" := c.(role := Admin)];
    assert m["a"] == c && AnswerTo(m, Approve("a")) == Bool(true);
  }

  lemma ReopenPlain(m: Machine)
    ensures Step(m, Reopen([], 0, false, Fine)) == Machine(m.file, Some(m.file))
  {
  }
}
