/** What the catalog says it would mint for a principal, and that minting agrees with it. */
module Effective {
  import opened Outcomes
  import opened Text
  import opened Principals
  import opened Hex
  import opened Policies
  import opened ScopeKeys
  import opened Compiler
  import opened Catalogs
  import opened Compaction
  import Cap = CapTypes

  datatype EffectiveGrant = EffectiveGrant(
    abilities: seq<string>, resource: ResourceMatch, conditions: Conditions, fromRoles: seq<string>)

  /** A statement together with the role it comes from. */
  datatype Tagged = Tagged(role: string, stmt: Statement)

  function RolesFor(s: State, p: Principal): seq<string> {
    if HexOf(p) in s.attachments then s.attachments[HexOf(p)] else []
  }

  function TagAll(role: string, stmts: seq<Statement>): seq<Tagged> {
    seq(|stmts|, i requires 0 <= i < |stmts| => Tagged(role, stmts[i]))
  }

  /** The statements of the named roles in order; a role that is missing contributes none. */
  function TaggedStatements(s: State, names: seq<string>): seq<Tagged> {
    if names == [] then []
    else
      var last := |names| - 1;
      TaggedStatements(s, names[..last])
      + if names[last] in s.roles then TagAll(names[last], s.roles[names[last]].policy.statements) else []
  }

  function Untag(ts: seq<Tagged>): seq<Statement> {
    seq(|ts|, i requires 0 <= i < |ts| => ts[i].stmt)
  }

  /** The concatenation of the policies of a principal's roles. */
  function RolePolicy(s: State, p: Principal, version: string): Policy {
    Policy(version, Untag(TaggedStatements(s, RolesFor(s, p))))
  }

  /** No role is missing and no Allow statement is without actions. */
  predicate Reportable(s: State, names: seq<string>) {
    forall n :: n in names ==>
      n in s.roles
      && forall t :: t in s.roles[n].policy.statements && t.effect.Allow? ==> t.actions != []
  }

  function SourceRoles(ts: seq<Tagged>, scope: Scope): set<string> {
    set t | t in ts && t.stmt.effect.Allow? && ScopeOf(t.stmt) == scope :: t.role
  }

  function Report(ts: seq<Tagged>, scope: Scope): EffectiveGrant {
    EffectiveGrant(Ordered(ActionsOf(Untag(ts), scope)), scope.resource, scope.conditions, Ordered(SourceRoles(ts, scope)))
  }

  ghost function Reports(ts: seq<Tagged>): seq<EffectiveGrant> {
    var scopes := OrderedScopes(AllowScopes(Untag(ts)));
    seq(|scopes|, i requires 0 <= i < |scopes| => Report(ts, scopes[i]))
  }

  ghost function EffectiveGrants(s: State, p: Principal): Result<seq<EffectiveGrant>, IamError> {
    if Reportable(s, RolesFor(s, p)) then Ok(Reports(TaggedStatements(s, RolesFor(s, p)))) else Err(BadPolicy)
  }

  // ---- the report, as the loops compute it ----

  /** Under the key of each scope seen, the roles that contributed to it. */
  ghost predicate ContributorsOf(from: map<string, seq<string>>, groups: map<string, Group>, ts: seq<Tagged>) {
    && from.Keys == groups.Keys
    && forall k :: k in groups ==>
         Elements(from[k]) == SourceRoles(ts, Scope(groups[k].resource, groups[k].conditions))
  }

  function AddRole(from: map<string, seq<string>>, t: Tagged): map<string, seq<string>> {
    var k := ScopeKey(ScopeOf(t.stmt));
    var roles := if k in from then from[k] else [];
    from[k := if t.role in roles then roles else roles + [t.role]]
  }

  lemma UntagStep(ts: seq<Tagged>, t: Tagged)
    ensures Untag(ts + [t]) == Untag(ts) + [t.stmt]
  {
  }

  lemma SourceRolesStep(ts: seq<Tagged>, t: Tagged, scope: Scope)
    ensures SourceRoles(ts + [t], scope)
         == SourceRoles(ts, scope) + (if t.stmt.effect.Allow? && ScopeOf(t.stmt) == scope then {t.role} else {})
  {
    hide ScopeKey;
    assert forall u :: u in ts + [t] <==> u in ts || u == t;
  }

  lemma UnseenScope(ts: seq<Tagged>, scope: Scope)
    requires scope !in AllowScopes(Untag(ts))
    ensures SourceRoles(ts, scope) == {}
  {
    hide ScopeKey;
    forall u | u in ts ensures u.stmt in Untag(ts) {
      var i :| 0 <= i < |ts| && ts[i] == u;
      assert Untag(ts)[i] == u.stmt;
    }
  }

  lemma ContributorStep(from: map<string, seq<string>>, groups: map<string, Group>, ts: seq<Tagged>, t: Tagged)
    requires GroupsOf(groups, Untag(ts)) && ContributorsOf(from, groups, ts) && t.stmt.effect.Allow?
    ensures ContributorsOf(AddRole(from, t), AddTo(groups, t.stmt), ts + [t])
  {
    hide ScopeKey, ActionsOf, SourceRoles, AllowScopes;
    var scope := ScopeOf(t.stmt);
    var key := ScopeKey(scope);
    var after, roles := AddTo(groups, t.stmt), AddRole(from, t);
    forall k | k in after ensures
      Elements(roles[k]) == SourceRoles(ts + [t], Scope(after[k].resource, after[k].conditions))
    {
      var sc := Scope(after[k].resource, after[k].conditions);
      SourceRolesStep(ts, t, sc);
      if k == key {
        if key in groups {
          ScopeKeyInjective(sc, scope);
          InOrAppended(from[k], t.role);
        } else {
          assert scope in AllowScopes(Untag(ts)) ==> ScopeKey(scope) in ScopeKeySet(AllowScopes(Untag(ts)));
          UnseenScope(ts, scope);
        }
      }
    }
  }

  lemma InOrAppended(roles: seq<string>, r: string)
    ensures Elements(if r in roles then roles else roles + [r]) == Elements(roles) + {r}
  {
  }

  method ReportEffectiveGrants(c: Catalog, p: Principal) returns (r: Result<seq<EffectiveGrant>, IamError>)
    ensures r == EffectiveGrants(c.View(), p)
  {
    hide ScopeKey, GroupsOf, ContributorsOf, AddTo, AddRole, Reports;
    var s := c.View();
    var names := RolesFor(s, p);
    var groups: map<string, Group>, from: map<string, seq<string>> := map[], map[];
    StartGroups();
    for i := 0 to |names|
      invariant Reportable(s, names[..i])
      invariant GroupsOf(groups, Untag(TaggedStatements(s, names[..i])))
      invariant ContributorsOf(from, groups, TaggedStatements(s, names[..i]))
    {
      assert names[i] in names;
      if names[i] !in s.roles { return Err(BadPolicy); }
      var stmts := s.roles[names[i]].policy.statements;
      ghost var seen := TaggedStatements(s, names[..i]);
      assert seen + [] == seen;
      for j := 0 to |stmts|
        invariant forall t :: t in stmts[..j] && t.effect.Allow? ==> t.actions != []
        invariant GroupsOf(groups, Untag(seen + TagAll(names[i], stmts[..j])))
        invariant ContributorsOf(from, groups, seen + TagAll(names[i], stmts[..j]))
      {
        ghost var ts, t := seen + TagAll(names[i], stmts[..j]), Tagged(names[i], stmts[j]);
        assert seen + TagAll(names[i], stmts[..j + 1]) == ts + [t];
        UntagStep(ts, t);
        assert stmts[..j + 1] == stmts[..j] + [stmts[j]] && stmts[j] in stmts;
        if stmts[j].effect.Allow? {
          if stmts[j].actions == [] { return Err(BadPolicy); }
          GroupStep(groups, Untag(ts), stmts[j]);
          ContributorStep(from, groups, ts, t);
          groups, from := AddTo(groups, stmts[j]), AddRole(from, Tagged(names[i], stmts[j]));
        } else {
          SkipDeny(groups, from, ts, t);
        }
      }
      assert stmts[..|stmts|] == stmts;
      assert names[..i + 1][..i] == names[..i];
      ReportableStep(s, names, i);
    }
    assert names[..|names|] == names;
    var reports := CollectReports(groups, from, TaggedStatements(s, names));
    r := Ok(reports);
  }

  lemma StartGroups()
    ensures GroupsOf(map[], Untag([])) && ContributorsOf(map[], map[], [])
  {
  }

  lemma ReportableStep(s: State, names: seq<string>, i: nat)
    requires i < |names| && Reportable(s, names[..i]) && names[i] in s.roles
    requires forall t :: t in s.roles[names[i]].policy.statements && t.effect.Allow? ==> t.actions != []
    ensures Reportable(s, names[..i + 1])
  {
    assert forall n :: n in names[..i + 1] <==> n in names[..i] || n == names[i];
  }

  lemma SkipDeny(groups: map<string, Group>, from: map<string, seq<string>>, ts: seq<Tagged>, t: Tagged)
    requires GroupsOf(groups, Untag(ts)) && ContributorsOf(from, groups, ts) && !t.stmt.effect.Allow?
    ensures GroupsOf(groups, Untag(ts + [t])) && ContributorsOf(from, groups, ts + [t])
  {
    hide ScopeKey, ActionsOf, SourceRoles, AllowScopes;
    UntagStep(ts, t);
    forall scope ensures ActionsOf(Untag(ts + [t]), scope) == ActionsOf(Untag(ts), scope)
                      && AllowScopes(Untag(ts + [t])) == AllowScopes(Untag(ts))
                      && SourceRoles(ts + [t], scope) == SourceRoles(ts, scope)
    {
      ActionsOfStep(Untag(ts), t.stmt, scope);
      SourceRolesStep(ts, t, scope);
    }
    var any := ScopeOf(t.stmt);
    assert ActionsOf(Untag(ts + [t]), any) == ActionsOf(Untag(ts), any);
  }

  function GroupReport(g: Group, roles: seq<string>): EffectiveGrant {
    EffectiveGrant(Ordered(Elements(g.actions)), g.resource, g.conditions, Ordered(Elements(roles)))
  }

  lemma GroupReportCorrect(groups: map<string, Group>, from: map<string, seq<string>>, ts: seq<Tagged>, k: string)
    requires GroupsOf(groups, Untag(ts)) && ContributorsOf(from, groups, ts) && k in groups
    ensures GroupReport(groups[k], from[k]) == Report(ts, Scope(groups[k].resource, groups[k].conditions))
  {
    hide ScopeKey, ActionsOf, SourceRoles, AllowScopes, Ordered, Elements;
  }

  lemma ReportsInOrder(groups: map<string, Group>, from: map<string, seq<string>>, ts: seq<Tagged>)
    requires GroupsOf(groups, Untag(ts)) && ContributorsOf(from, groups, ts)
    ensures var keys := Ordered(groups.Keys);
      && |Reports(ts)| == |keys|
      && forall i :: 0 <= i < |keys| ==>
           keys[i] in groups && keys[i] in from && GroupReport(groups[keys[i]], from[keys[i]]) == Reports(ts)[i]
  {
    assert from.Keys == groups.Keys;
    hide ScopeKey, GroupsOf, ContributorsOf, ActionsOf, AllowScopes, Report, GroupReport;
    var keys := Ordered(groups.Keys);
    GroupsInOrder(groups, Untag(ts), keys, OrderedScopes(AllowScopes(Untag(ts))));
    forall i | 0 <= i < |keys| ensures
      keys[i] in groups && keys[i] in from && GroupReport(groups[keys[i]], from[keys[i]]) == Reports(ts)[i]
    {
      GroupReportCorrect(groups, from, ts, keys[i]);
    }
  }

  /** The groups in key order, each list sorted and without duplicates. */
  method CollectReports(groups: map<string, Group>, from: map<string, seq<string>>, ghost ts: seq<Tagged>)
    returns (out: seq<EffectiveGrant>)
    requires GroupsOf(groups, Untag(ts)) && ContributorsOf(from, groups, ts)
    ensures out == Reports(ts)
  {
    hide *;
    ReportsInOrder(groups, from, ts);
    var keys := Ordered(groups.Keys);
    out := [];
    for i := 0 to |keys|
      invariant |out| == i && forall j :: 0 <= j < i ==> out[j] == Reports(ts)[j]
    {
      out := out + [GroupReport(groups[keys[i]], from[keys[i]])];
    }
  }

  // ---- agreement with the compiler ----

  /** No Allow statement of the named roles is without actions. */
  predicate NoEmptyAllow(s: State, names: seq<string>) {
    forall n :: n in names && n in s.roles ==>
      forall t :: t in s.roles[n].policy.statements && t.effect.Allow? ==> t.actions != []
  }

  /** In a coherent catalog the report fails exactly when an attached role has an empty Allow. */
  lemma ReportFailsExactly(s: State, p: Principal)
    requires Coherent(s)
    ensures EffectiveGrants(s, p).Ok? <==> NoEmptyAllow(s, RolesFor(s, p))
  {
    hide HexOf;
  }

  lemma {:induction false} TaggedFromRole(s: State, names: seq<string>, t: Tagged)
    requires t in TaggedStatements(s, names)
    ensures t.role in names && t.role in s.roles && t.stmt in s.roles[t.role].policy.statements
  {
    if names != [] {
      var last := |names| - 1;
      if t in TaggedStatements(s, names[..last]) {
        TaggedFromRole(s, names[..last], t);
      } else {
        var stmts := s.roles[names[last]].policy.statements;
        var i :| 0 <= i < |stmts| && TagAll(names[last], stmts)[i] == t;
      }
    }
  }

  lemma HasFirstAction(stmts: seq<Statement>, st: Statement, scope: Scope)
    requires st in stmts && st.effect.Allow? && ScopeOf(st) == scope && st.actions != []
    ensures ActionsOf(stmts, scope) != {}
  {
    hide ScopeKey;
    assert st.actions[0] in st.actions;
    assert st.actions[0] in ActionsOf(stmts, scope);
  }

  /** In reportable roles every scope that is allowed has an action. */
  lemma ScopeHasAction(s: State, names: seq<string>, scope: Scope)
    requires Reportable(s, names) && scope in AllowScopes(Untag(TaggedStatements(s, names)))
    ensures ActionsOf(Untag(TaggedStatements(s, names)), scope) != {}
  {
    hide ScopeKey, TaggedStatements;
    var ts := TaggedStatements(s, names);
    var st :| st in Untag(ts) && st.effect.Allow? && ScopeOf(st) == scope;
    var i :| 0 <= i < |ts| && Untag(ts)[i] == st;
    assert ts[i] in ts && ts[i].stmt == st;
    TaggedFromRole(s, names, ts[i]);
    assert st.actions != [];
    HasFirstAction(Untag(ts), st, scope);
  }

  /** The compiler accepts the concatenated role policies of a reported principal exactly when there
      is no Deny, something is reported, and every reported scope expands and names a resource. */
  lemma MintableExactly(s: State, p: Principal, universe: seq<string>, version: string)
    requires EffectiveGrants(s, p).Ok?
    ensures var policy, reported := RolePolicy(s, p, version), EffectiveGrants(s, p).value;
            CompileScopes(universe, policy).Ok? <==>
              && !HasDeny(policy.statements)
              && reported != []
              && forall g :: g in reported ==> Expand(universe, Elements(g.abilities)).Ok? && ToCapResource(g.resource).Ok?
  {
    hide ScopeKey, Expand, ToCapResource, ActionsOf, SourceRoles, AllowScopes, HasDeny, Ordered, TaggedStatements, Reportable, RolesFor, CompileScope, Elements;
    var names := RolesFor(s, p);
    var ts := TaggedStatements(s, names);
    var all := AllowScopes(Untag(ts));
    var scopes := OrderedScopes(all);
    var each, reported := CompileEach(universe, Untag(ts), scopes), Reports(ts);
    NoScopes(scopes, all);
    CollectOkExactly(each);
    forall i | 0 <= i < |scopes|
      ensures each[i].Ok? <==> Expand(universe, Elements(reported[i].abilities)).Ok? && ToCapResource(reported[i].resource).Ok?
    {
      assert scopes[i] in all by { InOrder(scopes, all, i); }
      ScopeHasAction(s, names, scopes[i]);
      ScopeCompilesExactly(universe, ActionsOf(Untag(ts), scopes[i]), scopes[i]);
    }
  }

  lemma NoScopes(scopes: seq<Scope>, all: set<Scope>)
    requires InKeyOrder(scopes, all)
    ensures scopes == [] <==> all == {}
  {
    hide ScopeKey;
    NoElements(scopes);
  }

  lemma InOrder(scopes: seq<Scope>, all: set<Scope>, i: nat)
    requires InKeyOrder(scopes, all) && i < |scopes|
    ensures scopes[i] in all
  {
    hide ScopeKey;
    assert scopes[i] in Elements(scopes);
  }

  lemma ReportedIsMinted(s: State, p: Principal, universe: seq<string>, version: string)
    requires EffectiveGrants(s, p).Ok? && CompileScopes(universe, RolePolicy(s, p, version)).Ok?
    ensures var minted, reported := CompileScopes(universe, RolePolicy(s, p, version)).value, EffectiveGrants(s, p).value;
      && |reported| == |minted|
      && forall i :: 0 <= i < |minted| ==>
           && ToCapResource(reported[i].resource) == Ok(minted[i].resource)
           && ToCaveats(reported[i].conditions) == minted[i].caveats
           && Expand(universe, Elements(reported[i].abilities)) == Ok(minted[i].abilities)
  {
    hide ScopeKey, Expand, ToCapResource, ActionsOf, SourceRoles, AllowScopes, HasDeny, Ordered;
    var ts := TaggedStatements(s, RolesFor(s, p));
    var scopes := OrderedScopes(AllowScopes(Untag(ts)));
    var each := CompileEach(universe, Untag(ts), scopes);
    var minted := CompileScopes(universe, RolePolicy(s, p, version)).value;
    forall i | 0 <= i < |minted| ensures
      && ToCapResource(Reports(ts)[i].resource) == Ok(minted[i].resource)
      && ToCaveats(Reports(ts)[i].conditions) == minted[i].caveats
      && Expand(universe, Elements(Reports(ts)[i].abilities)) == Ok(minted[i].abilities)
    {
      assert each[i] == Ok(minted[i]);
    }
  }

  /** Whenever the compiler accepts the concatenation of a principal's role policies, and none of the
      roles has an empty Allow, the report lists the scopes that would be minted, in the same order,
      and expanding each ability list gives exactly the minted abilities. */
  lemma ReportsWhatIsMinted(s: State, p: Principal, universe: seq<string>, version: string)
    requires Coherent(s) && NoEmptyAllow(s, RolesFor(s, p))
    requires CompileScopes(universe, RolePolicy(s, p, version)).Ok?
    ensures EffectiveGrants(s, p).Ok?
    ensures var minted, reported := CompileScopes(universe, RolePolicy(s, p, version)).value, EffectiveGrants(s, p).value;
      && |reported| == |minted|
      && forall i :: 0 <= i < |minted| ==>
           && ToCapResource(reported[i].resource) == Ok(minted[i].resource)
           && ToCaveats(reported[i].conditions) == minted[i].caveats
           && Expand(universe, Elements(reported[i].abilities)) == Ok(minted[i].abilities)
  {
    hide *;
    ReportFailsExactly(s, p);
    ReportedIsMinted(s, p, universe, version);
  }

  // ---- what is reported, from the roles ----

  /** The principal has a role with this Allow statement. */
  ghost predicate Contributes(s: State, p: Principal, role: string, st: Statement) {
    HexOf(p) in s.attachments && role in s.attachments[HexOf(p)] && role in s.roles
    && st in s.roles[role].policy.statements && st.effect.Allow?
  }

  lemma {:induction false} TaggedExactly(s: State, names: seq<string>, role: string, st: Statement)
    ensures Tagged(role, st) in TaggedStatements(s, names) <==>
              role in names && role in s.roles && st in s.roles[role].policy.statements
  {
    if names != [] {
      var last := |names| - 1;
      TaggedExactly(s, names[..last], role, st);
      assert names == names[..last] + [names[last]];
      if names[last] in s.roles { TaggedHere(names[last], s.roles[names[last]].policy.statements, role, st); }
    }
  }

  lemma TaggedHere(name: string, stmts: seq<Statement>, role: string, st: Statement)
    ensures Tagged(role, st) in TagAll(name, stmts) <==> role == name && st in stmts
  {
    var all := TagAll(name, stmts);
    if role == name && st in stmts {
      var i :| 0 <= i < |stmts| && stmts[i] == st;
      assert all[i] == Tagged(role, st);
    }
  }

  lemma UntaggedExactly(ts: seq<Tagged>, st: Statement)
    ensures st in Untag(ts) <==> exists role :: Tagged(role, st) in ts
  {
    if st in Untag(ts) {
      var i :| 0 <= i < |ts| && Untag(ts)[i] == st;
      assert Tagged(ts[i].role, st) in ts;
    }
    if role :| Tagged(role, st) in ts {
      var i :| 0 <= i < |ts| && ts[i] == Tagged(role, st);
      assert Untag(ts)[i] == st;
    }
  }

  /** Each entry of the report is a scope of the principal's roles: an ability is listed in it exactly
      when a role lists it for that scope, and a role is named exactly when it allows something there;
      and every scope of the roles has its entry. */
  lemma ReportedExactly(s: State, p: Principal)
    requires EffectiveGrants(s, p).Ok?
    ensures var reported := EffectiveGrants(s, p).value;
      && (forall g :: g in reported ==>
            && (forall a :: a in g.abilities <==>
                  exists role, st :: Contributes(s, p, role, st) && ScopeOf(st) == Scope(g.resource, g.conditions) && a in st.actions)
            && (forall role :: role in g.fromRoles <==>
                  exists st :: Contributes(s, p, role, st) && ScopeOf(st) == Scope(g.resource, g.conditions)))
      && (forall role, st :: Contributes(s, p, role, st) ==>
            exists g :: g in reported && ScopeOf(st) == Scope(g.resource, g.conditions))
      && (forall i, j :: 0 <= i < j < |reported| ==>
            Scope(reported[i].resource, reported[i].conditions) != Scope(reported[j].resource, reported[j].conditions))
  {
    hide HexOf, ScopeKey, TaggedStatements, Untag, AllowScopes, Report, Contributes, InKeyOrder, Less;
    var ts := TaggedStatements(s, RolesFor(s, p));
    var scopes := OrderedScopes(AllowScopes(Untag(ts)));
    ContributionsTagged(s, p);
    ReportedOnce(scopes, AllowScopes(Untag(ts)));
    var reported := Reports(ts);
    forall i | 0 <= i < |scopes| ensures Scope(reported[i].resource, reported[i].conditions) == scopes[i] { ReportScope(ts, scopes[i]); }
    forall g | g in reported
      ensures (forall a :: a in g.abilities <==>
                 exists role, st :: Contributes(s, p, role, st) && ScopeOf(st) == Scope(g.resource, g.conditions) && a in st.actions)
      ensures (forall role :: role in g.fromRoles <==>
                 exists st :: Contributes(s, p, role, st) && ScopeOf(st) == Scope(g.resource, g.conditions))
    {
      var i :| 0 <= i < |reported| && reported[i] == g;
      EntryExactly(s, p, ts, scopes[i]);
    }
    forall role, st | Contributes(s, p, role, st) ensures exists g :: g in reported && ScopeOf(st) == Scope(g.resource, g.conditions) {
      AllowedScope(ts, role, st);
      var i := PositionOf(scopes, AllowScopes(Untag(ts)), ScopeOf(st));
      assert reported[i] in reported;
    }
  }

  lemma ReportScope(ts: seq<Tagged>, scope: Scope)
    ensures Scope(Report(ts, scope).resource, Report(ts, scope).conditions) == scope
  {
    hide ScopeKey, ActionsOf, SourceRoles;
  }

  lemma ContributionsTagged(s: State, p: Principal)
    ensures forall role, st :: Tagged(role, st) in TaggedStatements(s, RolesFor(s, p)) && st.effect.Allow? <==> Contributes(s, p, role, st)
  {
    hide HexOf, TaggedStatements;
    forall role, st
      ensures Tagged(role, st) in TaggedStatements(s, RolesFor(s, p)) && st.effect.Allow? <==> Contributes(s, p, role, st)
    {
      TaggedExactly(s, RolesFor(s, p), role, st);
    }
  }

  lemma ReportedOnce(scopes: seq<Scope>, all: set<Scope>)
    requires InKeyOrder(scopes, all)
    ensures forall i, j :: 0 <= i < j < |scopes| ==> scopes[i] != scopes[j]
  {
    hide ScopeKey, Leq;
  }

  lemma AllowedScope(ts: seq<Tagged>, role: string, st: Statement)
    requires Tagged(role, st) in ts && st.effect.Allow?
    ensures ScopeOf(st) in AllowScopes(Untag(ts))
  {
    hide ScopeKey;
    UntaggedExactly(ts, st);
  }

  lemma EntryExactly(s: State, p: Principal, ts: seq<Tagged>, scope: Scope)
    requires forall role, st :: Tagged(role, st) in ts && st.effect.Allow? <==> Contributes(s, p, role, st)
    ensures forall a :: a in Report(ts, scope).abilities <==>
              exists role, st :: Contributes(s, p, role, st) && ScopeOf(st) == scope && a in st.actions
    ensures forall role :: role in Report(ts, scope).fromRoles <==>
              exists st :: Contributes(s, p, role, st) && ScopeOf(st) == scope
  {
    hide HexOf, ScopeKey, Less, Untag, Contributes;
    var r := Report(ts, scope);
    forall a ensures a in r.abilities <==> exists role, st :: Contributes(s, p, role, st) && ScopeOf(st) == scope && a in st.actions {
      assert a in r.abilities <==> a in Elements(r.abilities);
      if a in r.abilities {
        var st :| st in Untag(ts) && st.effect.Allow? && ScopeOf(st) == scope && a in st.actions;
        UntaggedExactly(ts, st);
        var role :| Tagged(role, st) in ts;
        assert Contributes(s, p, role, st);
      }
      if role, st :| Contributes(s, p, role, st) && ScopeOf(st) == scope && a in st.actions {
        assert Tagged(role, st) in ts;
        UntaggedExactly(ts, st);
      }
    }
    forall role ensures role in r.fromRoles <==> exists st :: Contributes(s, p, role, st) && ScopeOf(st) == scope {
      assert role in r.fromRoles <==> role in Elements(r.fromRoles);
      if role in r.fromRoles {
        var t :| t in ts && t.stmt.effect.Allow? && ScopeOf(t.stmt) == scope && t.role == role;
        assert t == Tagged(role, t.stmt) && Contributes(s, p, role, t.stmt);
      }
      if st :| Contributes(s, p, role, st) && ScopeOf(st) == scope {
        assert Tagged(role, st) in ts;
      }
    }
  }

  // ---- where the two differ ----

  const ANYWHERE: Conditions := Conditions(None, None, None, None, None, None, None)

  /** A catalog whose only role has these statements and is attached to `p`. */
  function OneRole(p: Principal, stmts: seq<Statement>): State {
    State(map["r" := Role("r", None, Policy("v", stmts))], map[], map[HexOf(p) := ["r"]], 0, [])
  }

  lemma OneRoleCoherent(p: Principal, stmts: seq<Statement>)
    ensures Coherent(OneRole(p, stmts)) && RolesFor(OneRole(p, stmts), p) == ["r"]
    ensures RolePolicy(OneRole(p, stmts), p, "v").statements == stmts
  {
    hide HexOf;
    var s := OneRole(p, stmts);
    assert ["r"][..0] == [];
    assert TaggedStatements(s, ["r"]) == TagAll("r", stmts);
  }

  function AllowOf(actions: seq<string>): Statement {
    Statement(None, Allow, actions, ResourceMatch.Any, ANYWHERE)
  }

  /** A role with a Deny is reported, and refused by the compiler. */
  lemma DenyIsReportedNotMinted(p: Principal, universe: seq<string>)
    ensures var s := OneRole(p, [AllowOf(["x"]), Statement(None, Deny, ["x"], ResourceMatch.Any, ANYWHERE)]);
            EffectiveGrants(s, p).Ok? && CompileScopes(universe, RolePolicy(s, p, "v")) == Err(DenyUnsupported)
  {
    hide HexOf, ScopeKey;
    var stmts := [AllowOf(["x"]), Statement(None, Deny, ["x"], ResourceMatch.Any, ANYWHERE)];
    OneRoleCoherent(p, stmts);
    ReportFailsExactly(OneRole(p, stmts), p);
    assert stmts[1] in stmts;
  }

  /** A role with an empty Allow beside a non-empty one of the same scope compiles, and is not
      reported. */
  lemma EmptyAllowIsMintedNotReported(p: Principal, universe: seq<string>)
    ensures var s := OneRole(p, [AllowOf(["x"]), AllowOf([])]);
            EffectiveGrants(s, p) == Err(BadPolicy)
            && CompileScopes(universe, RolePolicy(s, p, "v")) == Ok([Compiled(["x"], Cap.Any, ToCaveats(ANYWHERE))])
  {
    var stmts := [AllowOf(["x"]), AllowOf([])];
    OneRoleCoherent(p, stmts);
    ReportFailsExactly(OneRole(p, stmts), p);
    hide *;
    LiteralMeans(universe);
    LiteralExpands(universe, "x");
    TwoAllows(universe, RolePolicy(OneRole(p, stmts), p, "v").version, stmts, "x");
    CompilersAgree(universe, RolePolicy(OneRole(p, stmts), p, "v"), Compiled(["x"], Cap.Any, ToCaveats(ANYWHERE)));
  }

  lemma TwoAllows(universe: seq<string>, version: string, stmts: seq<Statement>, a: string)
    requires stmts == [AllowOf([a]), AllowOf([])] && Expand(universe, {a}) == Ok([a])
    ensures Compile(universe, Policy(version, stmts)) == Ok(Compiled([a], Cap.Any, ToCaveats(ANYWHERE)))
  {
    hide ScopeKey, Expand, ToCaveats;
    var scope := Scope(ResourceMatch.Any, ANYWHERE);
    assert [] + [stmts[0]] == [stmts[0]] && [stmts[0]] + [stmts[1]] == stmts;
    assert AllowScopes([]) == {};
    NoActions(scope);
    ActionsOfStep([], stmts[0], scope);
    ActionsOfStep([stmts[0]], stmts[1], scope);
    hide AllowScopes, ActionsOf;
    assert Elements([a]) == {a} && Elements<string>([]) == {};
    assert AllowScopes(stmts) == {scope} && ActionsOf(stmts, scope) == {a};
    CompileOneScope(universe, Policy(version, stmts), scope);
  }

  lemma LiteralMeans(universe: seq<string>)
    ensures Meaning(universe, "x") == {"x"} && ActionOk(universe, "x")
  {
    assert Trim("x") == "x" by { TrimNothing("x"); }
    hide Trim;
  }

  lemma LiteralExpands(universe: seq<string>, a: string)
    requires Meaning(universe, a) == {a} && ActionOk(universe, a)
    ensures Expand(universe, {a}) == Ok([a])
  {
    hide Meaning, ActionOk;
    assert Abilities(universe, {a}) == {a};
    OrderedOne(a);
  }

  /** Compaction changes no principal's effective grants. */
  lemma CompactionKeepsEffectiveGrants(s: State, p: Principal)
    requires Coherent(s)
    ensures EffectiveGrants(Replay(CompactLog(s)), p) == EffectiveGrants(s, p)
  {
    hide Coherent, CompactLog, Replay;
    CompactReplays(s);
    SameTagged(Replay(CompactLog(s)), s, RolesFor(s, p));
  }

  lemma {:induction false} SameTagged(a: State, b: State, names: seq<string>)
    requires a.roles == b.roles
    ensures TaggedStatements(a, names) == TaggedStatements(b, names)
  {
    if names != [] { SameTagged(a, b, names[..|names| - 1]); }
  }
}
