/**
 Read-grants over whole runs of the vault: when a presented token is accepted, in terms of what
 happened in the run.
 */
module VaultGrants {
  import opened Outcomes
  import opened VaultRecords
  import opened VaultRuns

  /** At position `i` an enrolled device issued the grant `id`. */
  predicate Issues(events: seq<Event>, i: nat, id: string)
    requires i < |events|
  {
    events[i].IssueGrant? && events[i].grantId == id && events[i].who in TableRun(events[..i]).0.enrolled
  }

  function BodyOf(e: Event): GrantBody
    requires e.IssueGrant?
  {
    GrantBody(e.grantId, e.audience, ReadAbilities(e.names), e.who, e.now, e.expires)
  }

  /** Grant ids are drawn fresh. */
  predicate FreshGrants(events: seq<Event>) {
    forall i, j :: 0 <= i < j < |events| && events[i].IssueGrant? && events[j].IssueGrant? ==> events[i].grantId != events[j].grantId
  }

  /** The event removes the record of the grant. */
  predicate Revokes(e: Event, id: string) {
    match e
    case RevokeGrant(_, g) => g == id
    case Lose(keys) => GrantKeyOf(id) in keys
    case _ => false
  }

  /** Issued at `i` and not revoked since. */
  predicate InForce(events: seq<Event>, i: nat, id: string)
    requires i < |events|
  {
    Issues(events, i, id) && forall j :: i < j < |events| ==> !Revokes(events[j], id)
  }

  lemma StepOnGrants(t: Table, e: Event, id: string)
    ensures var grants := TableStep(t, e).0.grants;
            if e.IssueGrant? && e.grantId == id && e.who in t.enrolled then id in grants && grants[id] == BodyOf(e)
            else if Revokes(e, id) then id !in grants
            else (id in grants <==> id in t.grants) && (id in grants ==> grants[id] == t.grants[id])
  {
    hide SecretKeyOf, DeviceKeyOf, PairKeyOf, EnrolKeyOf, GrantKeyOf, TokenText, ReadAbilities;
  }

  lemma InForceBefore(events: seq<Event>, i: nat, id: string)
    requires i < |events| - 1
    ensures var n := |events| - 1;
            InForce(events, i, id) <==> InForce(events[..n], i, id) && !Revokes(events[n], id)
  {
    hide TableRun, Revokes;
    var n := |events| - 1;
    assert events[..n][..i] == events[..i];
    assert forall j :: i < j < n ==> events[..n][j] == events[j];
  }

  /** The grants of the table are the grants in force, each with the body it was issued with. */
  lemma {:induction false} GrantsAreInForce(events: seq<Event>, id: string)
    requires FreshGrants(events)
    ensures id in TableRun(events).0.grants <==> exists i: nat :: i < |events| && InForce(events, i, id)
    ensures forall i: nat :: i < |events| && InForce(events, i, id) ==>
              id in TableRun(events).0.grants && TableRun(events).0.grants[id] == BodyOf(events[i])
  {
    hide TableStep, Revokes, BodyOf;
    if events != [] {
      var n := |events| - 1;
      GrantsAreInForce(events[..n], id);
      StepOnGrants(TableRun(events[..n]).0, events[n], id);
      forall i: nat | i < n ensures InForce(events, i, id) <==> InForce(events[..n], i, id) && !Revokes(events[n], id) {
        InForceBefore(events, i, id);
      }
      assert InForce(events, n, id) <==> Issues(events, n, id);
      if id in TableRun(events[..n]).0.grants {
        var i: nat :| i < n && InForce(events[..n], i, id);
        assert InForce(events, i, id) <==> !Revokes(events[n], id);
      }
    }
  }

  // ---- verdicts ----

  predicate Past(readTime: string -> Option<int>, expires: Option<string>, nowMs: int) {
    expires.Some? && readTime(expires.value).Some? && readTime(expires.value).value < nowMs
  }

  predicate Lists(abilities: seq<string>, action: string, name: string) {
    action + (":" + name) in abilities || action + ":*" in abilities
  }

  /** The names of secrets whose listing admits an action on a name. An ability is one text, so an
      action that itself starts with `read:` is admitted by a longer name. */
  predicate Admits(names: seq<string>, action: string, name: string) {
    if action == "read" then name in names || "*" in names
    else if "read:" <= action then action[5..] + (":" + name) in names || action[5..] + ":*" in names
    else false
  }

  lemma ReadListed(names: seq<string>, name: string)
    ensures ReadAbility(name) in ReadAbilities(names) <==> name in names
  {
    var a := ReadAbilities(names);
    forall i | 0 <= i < |names| ensures a[i] == ReadAbility(name) <==> names[i] == name {
      assert ReadAbility(name)[5..] == name && ReadAbility(names[i])[5..] == names[i];
    }
    if name in names {
      var i :| 0 <= i < |names| && names[i] == name;
      assert a[i] == ReadAbility(name);
    }
  }

  lemma StartsWithRead(names: seq<string>, ability: string)
    requires ability in ReadAbilities(names)
    ensures "read:" <= ability
  {
  }

  lemma ReadBefore(action: string, rest: string)
    requires "read:" <= action + (":" + rest)
    ensures action == "read" || "read:" <= action
  {
    var ability := action + (":" + rest);
    if |action| <= 4 {
      assert ability[|action|] == ':';
      assert |action| == 4 && action == ability[..4];
    } else {
      assert ability[..5] == action[..5];
    }
  }

  /** Which names admit one spelling of an ability. */
  lemma SpellingListed(names: seq<string>, action: string, rest: string)
    ensures action + (":" + rest) in ReadAbilities(names) <==>
              if action == "read" then rest in names else "read:" <= action && action[5..] + (":" + rest) in names
  {
    var ability := action + (":" + rest);
    if action == "read" {
      assert ability == ReadAbility(rest);
      ReadListed(names, rest);
    } else if "read:" <= action {
      assert ability == ReadAbility(action[5..] + (":" + rest)) by { assert action == "read:" + action[5..]; }
      ReadListed(names, action[5..] + (":" + rest));
    } else if ability in ReadAbilities(names) {
      StartsWithRead(names, ability);
      ReadBefore(action, rest);
    }
  }

  /** Issuing lists exactly what the names admit, for every action. */
  lemma ListsExactly(names: seq<string>, action: string, name: string)
    ensures Lists(ReadAbilities(names), action, name) <==> Admits(names, action, name)
  {
    hide ReadAbilities;
    SpellingListed(names, action, name);
    SpellingListed(names, action, "*");
    assert ":" + "*" == ":*";
  }

  /** The ability for the secret `a:b` is also the one for the action `read:a` on `b`. */
  lemma AmbiguousAbility()
    ensures Lists(ReadAbilities(["a:b"]), "read:a", "b") && !Lists(ReadAbilities(["a", "b"]), "read:a", "b")
  {
    ListsExactly(["a:b"], "read:a", "b");
    ListsExactly(["a", "b"], "read:a", "b");
    var action := "read:a";
    assert action[5..] == "a" && "a" + (":" + "b") == "a:b";
    assert |"a" + (":" + "b")| == 3 && |"a" + ":*"| == 3;
  }

  lemma GrantFound(c: Setting, rs: Records, t: Table, id: string)
    requires Proper(c) && StandsFor(c, rs, t)
    ensures GrantKeyOf(id) in rs <==> id in t.grants
  {
    hide GrantKeyOf, RequestFits, DeviceFits, SlotFits, SecretFits, GrantFits;
  }

  /** The verdict in terms of the table. */
  lemma AcceptedOnTable(c: Setting, rs: Records, t: Table, readTime: string -> Option<int>, k: GrantToken, audience: string, action: string, name: string, nowMs: int)
    requires Proper(c) && StandsFor(c, rs, t)
    ensures VerifyGrant(rs, readTime, k, audience, action, name, nowMs) == Accepted <==>
              && k.body.issuer in t.enrolled && k.body.issuer in c.fleet
              && k == SignGrant(c.fleet[k.body.issuer], k.body)
              && k.body.id in t.grants
              && !Past(readTime, k.body.expires, nowMs)
              && k.body.audience == audience
              && Lists(k.body.abilities, action, name)
  {
    hide StandsFor, DeviceKeyOf, GrantKeyOf, TheMaster;
    DeviceFound(c, rs, t, k.body.issuer);
    GrantFound(c, rs, t, k.body.id);
  }

  /** Signatures cannot be made without the key: what a device of the fleet signed, it issued in the run. */
  ghost predicate Unforged(c: Setting, events: seq<Event>, k: GrantToken) {
    forall x | x in c.fleet && k.sig == Signature(PublicKey(c.fleet[x].ecdsa), k.body) ::
      exists i: nat :: i < |events| && Issues(events, i, k.body.id) && events[i].who == x && BodyOf(events[i]) == k.body
  }

  /** The token is the one issued at `i`: not revoked since, its issuer still enrolled, for this
      audience, not past its expiry, and listing a name that admits the action. */
  ghost predicate Entitles(c: Setting, events: seq<Event>, readTime: string -> Option<int>, k: GrantToken, audience: string, action: string, name: string, nowMs: int, i: nat)
    requires i < |events|
  {
    && InForce(events, i, k.body.id)
    && var e := events[i];
       && e.who in c.fleet && k == SignGrant(c.fleet[e.who], BodyOf(e))
       && e.who in TableRun(events).0.enrolled
       && e.audience == audience
       && !Past(readTime, e.expires, nowMs)
       && Admits(e.names, action, name)
  }

  lemma OneIssue(events: seq<Event>, i: nat, j: nat, id: string)
    requires FreshGrants(events) && i < |events| && j < |events| && Issues(events, i, id) && InForce(events, j, id)
    ensures i == j
  {
    hide TableRun, Revokes;
  }

  lemma EntitledIsAccepted(c: Setting, events: seq<Event>, readTime: string -> Option<int>, k: GrantToken, audience: string, action: string, name: string, nowMs: int, i: nat)
    requires AllAllowed(c, events) && FreshGrants(events) && i < |events| && Entitles(c, events, readTime, k, audience, action, name, nowMs, i)
    ensures VerifyGrant(Run(c, events).0, readTime, k, audience, action, name, nowMs) == Accepted
  {
    hide Run, TableRun, StandsFor, Revokes, Past, Lists, Admits, VerifyGrant;
    VaultBehavesAsTable(c, events);
    AcceptedOnTable(c, Run(c, events).0, TableRun(events).0, readTime, k, audience, action, name, nowMs);
    GrantsAreInForce(events, k.body.id);
    ListsExactly(events[i].names, action, name);
  }

  lemma AcceptedIsEntitled(c: Setting, events: seq<Event>, readTime: string -> Option<int>, k: GrantToken, audience: string, action: string, name: string, nowMs: int)
      returns (i: nat)
    requires AllAllowed(c, events) && FreshGrants(events) && Unforged(c, events, k)
    requires VerifyGrant(Run(c, events).0, readTime, k, audience, action, name, nowMs) == Accepted
    ensures i < |events| && Entitles(c, events, readTime, k, audience, action, name, nowMs, i)
  {
    hide Run, TableRun, StandsFor, Revokes, Past, Lists, Admits, VerifyGrant;
    VaultBehavesAsTable(c, events);
    AcceptedOnTable(c, Run(c, events).0, TableRun(events).0, readTime, k, audience, action, name, nowMs);
    GrantsAreInForce(events, k.body.id);
    var x := k.body.issuer;
    i :| i < |events| && Issues(events, i, k.body.id) && events[i].who == x && BodyOf(events[i]) == k.body;
    var j: nat :| j < |events| && InForce(events, j, k.body.id);
    OneIssue(events, i, j, k.body.id);
    ListsExactly(events[i].names, action, name);
  }

  /** In every run with fresh grant ids, verification for any action accepts a token exactly when an
      enrolled device issued it in the run, the device is still enrolled, the grant was not revoked
      since, it is for this audience, any readable expiry is not before now, and it lists a name that
      admits the action: for `read`, the name itself or `*`. */
  lemma AcceptsExactly(c: Setting, events: seq<Event>, readTime: string -> Option<int>, k: GrantToken, audience: string, action: string, name: string, nowMs: int)
    requires AllAllowed(c, events) && FreshGrants(events) && Unforged(c, events, k)
    ensures VerifyGrant(Run(c, events).0, readTime, k, audience, action, name, nowMs) == Accepted <==>
              exists i: nat :: i < |events| && Entitles(c, events, readTime, k, audience, action, name, nowMs, i)
  {
    hide Run, Unforged, Entitles, VerifyGrant, FreshGrants, AllAllowed;
    var rs := Run(c, events).0;
    if VerifyGrant(rs, readTime, k, audience, action, name, nowMs) == Accepted {
      var i := AcceptedIsEntitled(c, events, readTime, k, audience, action, name, nowMs);
    }
    forall i: nat | i < |events| && Entitles(c, events, readTime, k, audience, action, name, nowMs, i)
      ensures VerifyGrant(rs, readTime, k, audience, action, name, nowMs) == Accepted
    {
      EntitledIsAccepted(c, events, readTime, k, audience, action, name, nowMs, i);
    }
  }

  /** A grant that was issued and then revoked is never accepted again, for any action, audience, name
      or time, however the run goes on. */
  lemma RevokedForGood(c: Setting, events: seq<Event>, j: nat, readTime: string -> Option<int>, k: GrantToken, audience: string, action: string, name: string, nowMs: int)
    requires AllAllowed(c, events) && FreshGrants(events) && j < |events| && Revokes(events[j], k.body.id)
    requires exists i :: 0 <= i < j && events[i].IssueGrant? && events[i].grantId == k.body.id
    ensures VerifyGrant(Run(c, events).0, readTime, k, audience, action, name, nowMs) != Accepted
  {
    hide Run, TableRun, StandsFor, Past, Lists, VerifyGrant, Revokes;
    VaultBehavesAsTable(c, events);
    AcceptedOnTable(c, Run(c, events).0, TableRun(events).0, readTime, k, audience, action, name, nowMs);
    GrantsAreInForce(events, k.body.id);
    assert forall m: nat :: m < |events| && Issues(events, m, k.body.id) ==> m < j;
  }
}
