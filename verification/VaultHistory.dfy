/**
 What the vault holds and answers, in terms of the calls of the run alone: which requests, tokens and
 secrets are there, what a read gives, and when a call is accepted.
 */
module VaultHistory {
  import opened Outcomes
  import opened Hex
  import opened Histories
  import opened VaultRecords
  import opened VaultRuns
  import V = VaultRecords

  // ---- what a call with a given outcome changes ----

  function MetaChange(e: Event): Change<()> {
    match e
    case Recover(_, _, _) => Put(())
    case Init(_, _, _) => Put(())
    case Lose(keys) => if META in keys then Drop else Keep
    case _ => Keep
  }

  /** The device that asks to be paired under a code. */
  function RequestChange(e: Event, outcome: Outcome, code: string): Change<string> {
    match e
    case RequestPairing(who, k, _, _) => if k == code then Put(who) else Keep
    case ApprovePairing(_, k, _) => if k == code && outcome.Text? then Drop else Keep
    case Lose(keys) => if PairKeyOf(code) in keys then Drop else Keep
    case _ => Keep
  }

  /** The secret and the expiry of an enrol token. */
  function SlotChange(e: Event, outcome: Outcome, slot: string): Change<Slot> {
    match e
    case IssueEnrolToken(_, s, secret, _, ttl, nowSecs) => if s == slot && outcome.Text? then Put(Slot(secret, nowSecs + ttl)) else Keep
    case RedeemEnrolToken(_, _, _, _, _) => if SlotOf(e) == Some(slot) && outcome == Done then Drop else Keep
    case Lose(keys) => if EnrolKeyOf(slot) in keys then Drop else Keep
    case _ => Keep
  }

  /** The value and kind of a secret. */
  function SecretChange(e: Event, outcome: Outcome, name: string): Change<Revealed> {
    match e
    case PutSecret(_, n, value, kind, _) => if n == name && outcome.Version? then Put(Revealed(value, kind)) else Keep
    case DeleteSecret(_, n) => if n == name then Drop else Keep
    case Lose(keys) => if SecretKeyOf(name) in keys then Drop else Keep
    case _ => Keep
  }

  /** When the record of a secret was created: at the put that found none. */
  function CreatedChange(e: Event, outcome: Outcome, name: string, present: bool): Change<string> {
    match SecretChange(e, outcome, name)
    case Put(_) => if present then Keep else Put(e.now)
    case Drop => Drop
    case Keep => Keep
  }

  /** When it was last rotated: never by the put that created it, and at each later one. */
  function RotatedChange(e: Event, outcome: Outcome, name: string, present: bool): Change<Option<string>> {
    match SecretChange(e, outcome, name)
    case Put(_) => Put(if present then Some(e.now) else None)
    case Drop => Drop
    case Keep => Keep
  }

  function Changes<V>(events: seq<Event>, change: (Event, Outcome) -> Change<V>): seq<Change<V>> {
    seq(|events|, k requires 0 <= k < |events| => change(events[k], TableRun(events[..k + 1]).1))
  }

  function MetaChanges(events: seq<Event>): seq<Change<()>> {
    Changes(events, (e, o) => MetaChange(e))
  }

  function RequestChanges(events: seq<Event>, code: string): seq<Change<string>> {
    Changes(events, (e, o) => RequestChange(e, o, code))
  }

  function SlotChanges(events: seq<Event>, slot: string): seq<Change<Slot>> {
    Changes(events, (e, o) => SlotChange(e, o, slot))
  }

  function SecretChanges(events: seq<Event>, name: string): seq<Change<Revealed>> {
    Changes(events, (e, o) => SecretChange(e, o, name))
  }

  /** Whether the call at position `k` found a record of the secret. */
  predicate Finds(events: seq<Event>, k: nat, name: string)
    requires k <= |events|
  {
    name in TableRun(events[..k]).0.secrets
  }

  function CreatedChanges(events: seq<Event>, name: string): seq<Change<string>> {
    seq(|events|, k requires 0 <= k < |events| => CreatedChange(events[k], TableRun(events[..k + 1]).1, name, Finds(events, k, name)))
  }

  function RotatedChanges(events: seq<Event>, name: string): seq<Change<Option<string>>> {
    seq(|events|, k requires 0 <= k < |events| => RotatedChange(events[k], TableRun(events[..k + 1]).1, name, Finds(events, k, name)))
  }

  // ---- one step ----

  function MetaIn(t: Table): Option<()> {
    if t.initialised then Some(()) else None
  }

  function RequestIn(t: Table, code: string): Option<string> {
    if code in t.requests then Some(t.requests[code]) else None
  }

  function SlotIn(t: Table, slot: string): Option<Slot> {
    if slot in t.slots then Some(t.slots[slot]) else None
  }

  function SecretIn(t: Table, name: string): Option<Revealed> {
    if name in t.secrets then Some(Revealed(t.secrets[name].value, t.secrets[name].kind)) else None
  }

  function CreatedIn(t: Table, name: string): Option<string> {
    if name in t.secrets then Some(t.secrets[name].createdAt) else None
  }

  function RotatedIn(t: Table, name: string): Option<Option<string>> {
    if name in t.secrets then Some(t.secrets[name].rotatedAt) else None
  }

  lemma StepOnMeta(t: Table, e: Event)
    ensures MetaIn(TableStep(t, e).0) == After(MetaIn(t), MetaChange(e))
  {
    hide SecretKeyOf, DeviceKeyOf, PairKeyOf, EnrolKeyOf, GrantKeyOf, TokenText, ParseToken, ReadAbilities;
  }

  lemma StepOnRequest(t: Table, e: Event, code: string)
    ensures RequestIn(TableStep(t, e).0, code) == After(RequestIn(t, code), RequestChange(e, TableStep(t, e).1, code))
  {
    hide SecretKeyOf, DeviceKeyOf, PairKeyOf, EnrolKeyOf, GrantKeyOf, TokenText, ParseToken, ReadAbilities;
  }

  lemma StepOnSlot(t: Table, e: Event, slot: string)
    ensures SlotIn(TableStep(t, e).0, slot) == After(SlotIn(t, slot), SlotChange(e, TableStep(t, e).1, slot))
  {
    hide SecretKeyOf, DeviceKeyOf, PairKeyOf, EnrolKeyOf, GrantKeyOf, TokenText, ParseToken, ReadAbilities;
  }

  lemma StepOnSecret(t: Table, e: Event, name: string)
    ensures var (after, outcome) := TableStep(t, e);
      && SecretIn(after, name) == After(SecretIn(t, name), SecretChange(e, outcome, name))
      && CreatedIn(after, name) == After(CreatedIn(t, name), CreatedChange(e, outcome, name, name in t.secrets))
      && RotatedIn(after, name) == After(RotatedIn(t, name), RotatedChange(e, outcome, name, name in t.secrets))
  {
    hide SecretKeyOf, DeviceKeyOf, PairKeyOf, EnrolKeyOf, GrantKeyOf, TokenText, ParseToken, ReadAbilities;
  }

  // ---- whole runs ----

  /** The value last put, if nothing changed it since. */
  lemma History<V>(events: seq<Event>, view: Table -> Option<V>, changes: seq<Change<V>>, value: V)
    requires |changes| == |events| && view(EMPTY) == None
    requires forall k :: 0 <= k < |events| ==>
      view(TableStep(TableRun(events[..k]).0, events[k]).0) == After(view(TableRun(events[..k]).0), changes[k])
    ensures view(TableRun(events).0) == Some(value) <==> exists i: nat :: LastPut(changes, i, value)
  {
    hide TableStep;
    var states := seq(|events| + 1, k requires 0 <= k <= |events| => view(TableRun(events[..k]).0));
    forall k | 0 <= k < |events| ensures states[k + 1] == After(states[k], changes[k]) { RunStep(events, k); }
    assert events[..|events|] == events;
    LastChange(states, changes, value);
  }

  lemma RunStep(events: seq<Event>, k: nat)
    requires k < |events|
    ensures TableRun(events[..k + 1]) == TableStep(TableRun(events[..k]).0, events[k])
  {
    assert events[..k + 1][..k] == events[..k];
  }

  lemma MetaHistory(events: seq<Event>)
    ensures TableRun(events).0.initialised <==> exists i: nat :: LastPut(MetaChanges(events), i, ())
  {
    hide TableStep, TableRun, MetaChange, LastPut;
    var changes := MetaChanges(events);
    forall k | 0 <= k < |events|
      ensures MetaIn(TableStep(TableRun(events[..k]).0, events[k]).0) == After(MetaIn(TableRun(events[..k]).0), changes[k])
    { StepOnMeta(TableRun(events[..k]).0, events[k]); }
    History(events, MetaIn, changes, ());
  }

  lemma RequestHistory(events: seq<Event>, code: string, who: string)
    ensures RequestIn(TableRun(events).0, code) == Some(who) <==> exists i: nat :: LastPut(RequestChanges(events, code), i, who)
  {
    hide TableStep, TableRun, RequestChange, LastPut;
    var view, changes := (t: Table) => RequestIn(t, code), RequestChanges(events, code);
    forall k | 0 <= k < |events|
      ensures view(TableStep(TableRun(events[..k]).0, events[k]).0) == After(view(TableRun(events[..k]).0), changes[k])
    {
      RunStep(events, k);
      StepOnRequest(TableRun(events[..k]).0, events[k], code);
    }
    History(events, view, changes, who);
  }

  lemma SlotHistory(events: seq<Event>, slot: string, value: Slot)
    ensures SlotIn(TableRun(events).0, slot) == Some(value) <==> exists i: nat :: LastPut(SlotChanges(events, slot), i, value)
  {
    hide TableStep, TableRun, SlotChange, LastPut;
    var view, changes := (t: Table) => SlotIn(t, slot), SlotChanges(events, slot);
    forall k | 0 <= k < |events|
      ensures view(TableStep(TableRun(events[..k]).0, events[k]).0) == After(view(TableRun(events[..k]).0), changes[k])
    {
      RunStep(events, k);
      StepOnSlot(TableRun(events[..k]).0, events[k], slot);
    }
    History(events, view, changes, value);
  }

  lemma SecretHistory(events: seq<Event>, name: string, value: Revealed)
    ensures SecretIn(TableRun(events).0, name) == Some(value) <==> exists i: nat :: LastPut(SecretChanges(events, name), i, value)
  {
    hide TableStep, TableRun, SecretChange, CreatedChange, RotatedChange, LastPut;
    var view, changes := (t: Table) => SecretIn(t, name), SecretChanges(events, name);
    forall k | 0 <= k < |events|
      ensures view(TableStep(TableRun(events[..k]).0, events[k]).0) == After(view(TableRun(events[..k]).0), changes[k])
    {
      RunStep(events, k);
      StepOnSecret(TableRun(events[..k]).0, events[k], name);
    }
    History(events, view, changes, value);
  }

  lemma TimesHistory(events: seq<Event>, name: string, created: string, rotated: Option<string>)
    ensures CreatedIn(TableRun(events).0, name) == Some(created) <==> exists i: nat :: LastPut(CreatedChanges(events, name), i, created)
    ensures RotatedIn(TableRun(events).0, name) == Some(rotated) <==> exists i: nat :: LastPut(RotatedChanges(events, name), i, rotated)
  {
    hide TableStep, TableRun, SecretChange, CreatedChange, RotatedChange, LastPut;
    var createdIn, rotatedIn := (t: Table) => CreatedIn(t, name), (t: Table) => RotatedIn(t, name);
    forall k | 0 <= k < |events|
      ensures createdIn(TableStep(TableRun(events[..k]).0, events[k]).0) == After(createdIn(TableRun(events[..k]).0), CreatedChanges(events, name)[k])
      ensures rotatedIn(TableStep(TableRun(events[..k]).0, events[k]).0) == After(rotatedIn(TableRun(events[..k]).0), RotatedChanges(events, name)[k])
    {
      RunStep(events, k);
      StepOnSecret(TableRun(events[..k]).0, events[k], name);
    }
    History(events, createdIn, CreatedChanges(events, name), created);
    History(events, rotatedIn, RotatedChanges(events, name), rotated);
  }

  // ---- what the calls answer ----

  /** The device was enrolled by some call and not dropped since. */
  ghost predicate Enrolled(events: seq<Event>, who: string) {
    exists i: nat :: i < |events| && EnrolledSince(events, i, who)
  }

  /** The answer of a call after a run is the table's. */
  lemma Answers(c: Setting, events: seq<Event>, e: Event)
    requires AllAllowed(c, events) && Allowed(c, e) && OwnerDerives(c, TableRun(events).0, e)
    ensures Step(c, Run(c, events).0, e).1 == TableStep(TableRun(events).0, e).1
  {
    hide Run, TableRun, Step, TableStep, StandsFor;
    VaultBehavesAsTable(c, events);
    StepSimulates(c, Run(c, events).0, TableRun(events).0, e);
  }

  /** A read gives a value and its kind exactly when the reader is enrolled and they were the last put
      under the name, and neither deleted nor lost since; otherwise it says which of the two fails. */
  lemma ReadsExactly(c: Setting, events: seq<Event>, who: string, name: string, value: Revealed)
    requires AllAllowed(c, events) && who in c.fleet
    ensures var r := V.GetSecret(Run(c, events).0, c.fleet[who], name);
      && (r == Answered(value) <==> Enrolled(events, who) && exists i: nat :: LastPut(SecretChanges(events, name), i, value))
      && (r == Refused(NotFound) <==> !(exists i: nat, v :: LastPut(SecretChanges(events, name), i, v)))
      && (r.Refused? ==> r.why == NotFound || (r.why == NotEnrolled && !Enrolled(events, who)))
  {
    hide Run, TableRun, TableStep, EnrolledSince, LastPut, V.GetSecret;
    var get := GetSecret(who, name);
    Answers(c, events, get);
    EnrolledExactly(events, who);
    SecretHistory(events, name, value);
    GetOnTable(c, Run(c, events).0, TableRun(events).0, get);
    if SecretIn(TableRun(events).0, name).Some? { SecretHistory(events, name, SecretIn(TableRun(events).0, name).value); }
    forall i: nat, v | LastPut(SecretChanges(events, name), i, v) ensures SecretIn(TableRun(events).0, name) == Some(v) {
      SecretHistory(events, name, v);
    }
  }

  lemma GetOnTable(c: Setting, rs: Records, t: Table, e: Event)
    requires e.GetSecret? && e.who in c.fleet && Step(c, rs, e).1 == TableStep(t, e).1
    ensures V.GetSecret(rs, c.fleet[e.who], e.name)
         == match SecretIn(t, e.name)
            case None => Refused(NotFound)
            case Some(v) => if e.who in t.enrolled then Answered(v) else Refused(NotEnrolled)
  {
    hide V.GetSecret;
  }

  /** The record of a secret carries the value last put, sealed under the one master, and its kind; the
      time of the first put since there was no record; and the time of the last put if that is a later
      one. */
  lemma RecordExactly(c: Setting, events: seq<Event>, name: string, created: string, rotated: Option<string>)
    requires AllAllowed(c, events) && SecretKeyOf(name) in Run(c, events).0
    ensures var r := Run(c, events).0[SecretKeyOf(name)];
      && r.SecretRec? && r.name == name
      && (forall i: nat, v :: LastPut(SecretChanges(events, name), i, v) ==> r.kind == v.kind && r.sealed == Sealed(TheMaster(c), v.bytes))
      && (r.createdAt == created <==> exists i: nat :: LastPut(CreatedChanges(events, name), i, created))
      && (r.rotatedAt == rotated <==> exists i: nat :: LastPut(RotatedChanges(events, name), i, rotated))
  {
    hide Run, TableRun, StandsFor, LastPut, SecretKeyOf;
    VaultBehavesAsTable(c, events);
    SecretFound(c, Run(c, events).0, TableRun(events).0, name);
    TimesHistory(events, name, created, rotated);
    forall i: nat, v | LastPut(SecretChanges(events, name), i, v) ensures SecretIn(TableRun(events).0, name) == Some(v) {
      SecretHistory(events, name, v);
    }
  }

  /** The put that finds no record starts at version 1. */
  lemma FirstVersionIsOne(c: Setting, events: seq<Event>, k: nat)
    requires AllAllowed(c, events) && k < |events| && events[k].PutSecret? && !OutcomeAt(c, events, k).No?
    requires !(exists i: nat, v :: LastPut(SecretChanges(events[..k], events[k].name), i, v))
    ensures OutcomeAt(c, events, k) == Version(1)
  {
    hide Run, OutcomeAt, TableRun, LastPut;
    OutcomeOnTable(c, events, k);
    PutIsNext(events, k);
    var was := TableRun(events[..k]).0;
    if SecretIn(was, events[k].name).Some? { SecretHistory(events[..k], events[k].name, SecretIn(was, events[k].name).value); }
  }

  /** Putting a secret, issuing an enrol token and issuing a grant are refused exactly to devices that
      are not enrolled. */
  lemma WritersAreEnrolled(c: Setting, events: seq<Event>, e: Event)
    requires AllAllowed(c, events) && Allowed(c, e) && (e.PutSecret? || e.IssueEnrolToken? || e.IssueGrant?)
    ensures Step(c, Run(c, events).0, e).1.No? <==> !Enrolled(events, e.who)
    ensures e.IssueEnrolToken? && Enrolled(events, e.who) ==> Step(c, Run(c, events).0, e).1 == Outcome.Text(TokenText(e.slot, e.secret))
  {
    hide Run, TableRun, EnrolledSince, TokenText, ReadAbilities;
    Answers(c, events, e);
    EnrolledExactly(events, e.who);
  }

  /** An approval succeeds, and then returns the device that asked last under the code and lets it
      unwrap the one master, exactly when the approver is enrolled and that request was neither
      approved nor lost since. */
  lemma PairingExactly(c: Setting, events: seq<Event>, e: Event, id: string)
    requires AllAllowed(c, events) && Allowed(c, e) && e.ApprovePairing? && id in c.fleet
    ensures var r := Step(c, Run(c, events).0, e);
      && (r.1 == Outcome.Text(id) <==> Enrolled(events, e.who) && exists i: nat :: LastPut(RequestChanges(events, e.code), i, id))
      && (r.1 == Outcome.Text(id) ==> V.LoadMaster(r.0, c.fleet[id]) == Answered(TheMaster(c)))
  {
    hide Run, TableRun, EnrolledSince, LastPut, StandsFor, Step, V.LoadMaster, TheMaster;
    var t := TableRun(events).0;
    VaultBehavesAsTable(c, events);
    StepSimulates(c, Run(c, events).0, t, e);
    EnrolledExactly(events, e.who);
    RequestHistory(events, e.code, id);
    if Step(c, Run(c, events).0, e).1 == Outcome.Text(id) {
      MasterOf(c, Step(c, Run(c, events).0, e).0, TableStep(t, e).0, id);
    }
  }

  /** A token is redeemed exactly when it names a slot with the secret last issued into it, not
      redeemed or lost since, and it is not later than the expiry. */
  lemma RedeemExactly(c: Setting, events: seq<Event>, e: Event, slot: string, secret: seq<Byte>)
    requires AllAllowed(c, events) && Allowed(c, e) && e.RedeemEnrolToken? && ParseToken(e.token) == Some((slot, secret))
    ensures Step(c, Run(c, events).0, e).1 == Done <==>
              exists i: nat, expires :: LastPut(SlotChanges(events, slot), i, Slot(secret, expires)) && e.nowSecs <= expires
  {
    hide Run, TableRun, LastPut, ParseToken;
    var t := TableRun(events).0;
    Answers(c, events, e);
    if slot in t.slots { SlotHistory(events, slot, t.slots[slot]); }
    forall i: nat, expires | LastPut(SlotChanges(events, slot), i, Slot(secret, expires)) ensures SlotIn(t, slot) == Some(Slot(secret, expires)) {
      SlotHistory(events, slot, Slot(secret, expires));
    }
  }

  /** A text that is no token is refused and changes nothing. */
  lemma MalformedTokenIsRefused(c: Setting, events: seq<Event>, e: Event)
    requires AllAllowed(c, events) && Allowed(c, e) && e.RedeemEnrolToken? && ParseToken(e.token).None?
    ensures Step(c, Run(c, events).0, e) == (Run(c, events).0, No(MalformedToken))
  {
    hide Run, ParseToken;
  }

  /** `init` returns true exactly when nothing initialised or recovered the vault since `meta` was last
      missing. */
  lemma InitExactly(c: Setting, events: seq<Event>, e: Event)
    requires AllAllowed(c, events) && Allowed(c, e) && e.Init? && OwnerDerives(c, TableRun(events).0, e)
    ensures Step(c, Run(c, events).0, e).1 == Flag(!(exists i: nat :: LastPut(MetaChanges(events), i, ())))
  {
    hide Run, TableRun, LastPut;
    Answers(c, events, e);
    MetaHistory(events);
  }

  /** Only its own device is refused a revocation. */
  lemma RevocationRefusedExactly(c: Setting, events: seq<Event>, e: Event)
    requires AllAllowed(c, events) && Allowed(c, e) && e.RevokeDevice?
    ensures Step(c, Run(c, events).0, e).1 == if e.id == e.who then No(OwnDevice) else Done
  {
    hide Run, TableRun;
    Answers(c, events, e);
  }

  /** The id alone is not enough: whoever uses the id of a device of the fleet with another wrapping key
      is refused the master and every secret. */
  lemma ImpostorIsRefused(c: Setting, events: seq<Event>, d: DeviceKey, name: string)
    requires AllAllowed(c, events) && d.id in c.fleet && d.ecdh != c.fleet[d.id].ecdh
    ensures V.LoadMaster(Run(c, events).0, d).Refused?
    ensures V.GetSecret(Run(c, events).0, d, name).Refused?
  {
    hide Run, TableRun, StandsFor, DeviceKeyOf, SecretKeyOf, TheMaster;
    VaultBehavesAsTable(c, events);
    DeviceFound(c, Run(c, events).0, TableRun(events).0, d.id);
  }
}
