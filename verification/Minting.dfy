/**
 What a policy says, told from its text alone: which node a resource names, which use its conditions
 allow, which abilities an action stands for. The compiled forms mean the same.
 */
module PolicyMeaning {
  import opened Outcomes
  import opened Text
  import opened Hex
  import opened Principals
  import opened Policies
  import opened Compiler
  import opened Narrowing

  // ---- resources ----

  /** The node is one that the resource names. */
  predicate Targets(m: ResourceMatch, id: NodeId, tags: set<string>) {
    match m
    case Any => true
    case Node(h) => Lower(Trim(h)) == Encode(id)
    case Tag(t) => t in tags
    case AllOf(ts) => forall t :: t in ts ==> t in tags
  }

  /** The resource names something: a tag that is not empty, a list of tags that is not, or a node id
      in hex. */
  ghost predicate Names(m: ResourceMatch) {
    match m
    case Any => true
    case Node(h) => exists p :: Lower(Trim(h)) == HexOf(p)
    case Tag(t) => t != ""
    case AllOf(ts) => ts != []
  }

  lemma NodeExact(h: string)
    ensures ToCapResource(Node(h)).Ok? <==> exists p :: Lower(Trim(h)) == HexOf(p)
    ensures ToCapResource(Node(h)).Ok? ==> ToCapResource(Node(h)).value.Node? && Lower(Trim(h)) == Encode(ToCapResource(Node(h)).value.id)
  {
    hide Trim, Encode, Decode, Lower;
    var parsed := Principals.Parse(h);
    if parsed.Ok? { ParseExact(h, parsed.value); }
    if p :| Lower(Trim(h)) == HexOf(p) { ParseExact(h, p); }
  }

  /** A resource compiles exactly when it names something, and then matches exactly the nodes it
      names. */
  lemma ResourceExact(m: ResourceMatch)
    ensures ToCapResource(m).Ok? <==> Names(m)
    ensures ToCapResource(m).Err? ==> ToCapResource(m).error == BadResource
    ensures ToCapResource(m).Ok? ==> forall id, tags :: Matches(ToCapResource(m).value, id, tags) <==> Targets(m, id, tags)
  {
    hide Trim, Encode, Decode, Lower;
    if m.Node? {
      NodeExact(m.id);
      if ToCapResource(m).Ok? {
        var n: NodeId := ToCapResource(m).value.id;
        forall id: NodeId ensures Encode(n) == Encode(id) <==> n == id {
          if Encode(n) == Encode(id) { HexInjective(Principal(n), Principal(id)); }
        }
      }
    }
  }

  // ---- conditions ----

  /** Not before and not after the bounds that are set; 0 is no bound. */
  predicate InTime(c: Conditions, now: nat) {
    && (c.notBefore.Some? && c.notBefore.value != 0 ==> c.notBefore.value <= now)
    && (c.notAfter.Some? && c.notAfter.value != 0 ==> now <= c.notAfter.value)
  }

  /** What the conditions themselves allow of a use. */
  predicate Allows(c: Conditions, u: Use) {
    && InTime(c, u.time)
    && (c.maxCpu.Some? ==> u.cpu <= c.maxCpu.value)
    && (c.maxMemMb.Some? ==> u.memMb <= c.maxMemMb.value)
    && (c.maxCredits.Some? ==> u.credits <= c.maxCredits.value)
    && (c.allowedPorts.Some? && u.port.Some? ==> u.port.value in c.allowedPorts.value)
    && (c.pathPrefix.Some? && u.path.Some? ==> c.pathPrefix.value <= u.path.value)
  }

  /** The compiled caveats permit exactly the uses that the conditions allow, from the moment they are
      active. */
  lemma CaveatsExact(c: Conditions, u: Use)
    ensures ToCaveats(c).notBefore <= u.time && Permits(ToCaveats(c), u) <==> Allows(c, u)
    ensures ToCaveats(c).notBefore <= u.time && Unexpired(ToCaveats(c), u.time) <==> InTime(c, u.time)
  {
  }

  // ---- actions ----

  /** A literal action stands for itself, in the universe or not. */
  lemma LiteralAction(universe: seq<string>, action: string)
    requires var t := Trim(action); t != "" && t[|t| - 1] != '*'
    ensures Expand(universe, {action}) == Ok([Trim(action)])
  {
    hide Trim;
    var t := Trim(action);
    assert Meaning(universe, action) == {t} && t in {t};
    hide Meaning;
    assert Abilities(universe, {action}) == {t};
    OrderedOne(t);
  }

  /** A prefix and a star stand for the abilities of the universe with that prefix, a star alone for
      all of them; it is an error when there are none. */
  lemma WildcardAction(universe: seq<string>, action: string, prefix: string)
    requires Trim(action) == prefix + "*"
    ensures Expand(universe, {action}).Ok? <==> exists x :: x in universe && prefix <= x
    ensures Expand(universe, {action}).Ok? ==> forall x :: x in Expand(universe, {action}).value <==> x in universe && prefix <= x
  {
    hide Trim;
    var t := Trim(action);
    assert t[|t| - 1] == '*' && t[..|t| - 1] == prefix;
    var m := Meaning(universe, action);
    assert m == set x | x in universe && prefix <= x;
    hide Meaning;
    assert m != {} <==> exists x :: x in m;
    assert forall x :: x in m <==> x in universe && prefix <= x;
    assert ActionOk(universe, action) <==> m != {};
    assert Abilities(universe, {action}) == m;
    if Expand(universe, {action}).Ok? {
      var r := Expand(universe, {action}).value;
      assert forall x :: x in r <==> x in Elements(r);
    }
  }

  /** A blank action is an error, wherever it stands. */
  lemma BlankAction(universe: seq<string>, actions: set<string>, blank: string)
    requires blank in actions && Trim(blank) == ""
    ensures Expand(universe, actions) == Err(BadAction)
  {
    hide Trim, Meaning;
    assert !ActionOk(universe, blank);
  }

  /** An action list expands exactly when each of its actions does, to the union. */
  lemma ActionsExpandTogether(universe: seq<string>, actions: set<string>)
    ensures Expand(universe, actions).Ok? <==> forall a :: a in actions ==> Expand(universe, {a}).Ok?
    ensures Expand(universe, actions).Ok? ==>
              forall x :: x in Expand(universe, actions).value <==> exists a :: a in actions && x in Expand(universe, {a}).value
  {
    hide Trim, Meaning, ActionOk;
    forall a ensures Expand(universe, {a}).Ok? <==> ActionOk(universe, a) {
      assert a in {a};
    }
    if Expand(universe, actions).Ok? {
      var r := Expand(universe, actions).value;
      forall x ensures x in r <==> exists a :: a in actions && x in Expand(universe, {a}).value {
        assert x in r <==> x in Elements(r);
        forall a | a in actions ensures x in Expand(universe, {a}).value <==> x in Meaning(universe, a) {
          assert a in {a} && Expand(universe, {a}).Ok?;
          assert x in Expand(universe, {a}).value <==> x in Elements(Expand(universe, {a}).value);
        }
      }
    }
  }
}

/** What the service mints: which grants, when it refuses, and when their tokens verify. */
module Minting {
  import opened Outcomes
  import opened Text
  import opened Principals
  import opened Policies
  import opened ScopeKeys
  import opened Compiler
  import opened Narrowing
  import opened Chains
  import opened PolicyMeaning
  import Cap = CapTypes

  /** The link carries what the policy grants in one scope: the abilities of its Allow statements, no
      more and no fewer, on the nodes that the resource names, for the uses that the conditions allow. */
  ghost predicate Carries(universe: seq<string>, policy: Policy, scope: Scope, cap: Capability) {
    && (forall x :: x in cap.abilities <==> Grants(universe, policy.statements, scope, x))
    && StrictlySorted(cap.abilities)
    && (forall id, tags :: Matches(cap.resource, id, tags) <==> Targets(scope.resource, id, tags))
    && (forall u: Use :: cap.caveats.notBefore <= u.time && Permits(cap.caveats, u) <==> Allows(scope.conditions, u))
  }

  lemma CompiledCarries(universe: seq<string>, policy: Policy, scope: Scope, cap: Capability)
    requires var c := CompileScope(universe, ActionsOf(policy.statements, scope), scope);
             c.Ok? && cap.abilities == c.value.abilities && cap.resource == c.value.resource && cap.caveats == c.value.caveats
    ensures Carries(universe, policy, scope, cap)
  {
    hide Expand, ActionsOf, Grants, Matches, Targets, ToCapResource, Permits, Allows, ToCaveats, StrictlySorted;
    CompiledAbilities(universe, policy.statements, scope);
    ResourceExact(scope.resource);
    forall u: Use ensures ToCaveats(scope.conditions).notBefore <= u.time && Permits(ToCaveats(scope.conditions), u) <==> Allows(scope.conditions, u) {
      CaveatsExact(scope.conditions, u);
    }
  }

  /** The one scope of a policy that compiles. */
  lemma OnlyScope(universe: seq<string>, policy: Policy) returns (scope: Scope)
    requires Compile(universe, policy).Ok?
    ensures !HasDeny(policy.statements) && AllowScopes(policy.statements) == {scope}
    ensures Compile(universe, policy) == CompileScope(universe, ActionsOf(policy.statements, scope), scope)
  {
    hide CompileScope, ActionsOf, ScopeKey;
    scope :| AllowScopes(policy.statements) == {scope};
    CompileOneScope(universe, policy, scope);
  }

  // ---- mint ----

  /** A minted grant is one signed root link, from the issuer, to the audience, with the nonce asked
      for, that carries what the policy grants in its one scope. */
  lemma MintedLink(iam: Iam, issuer: Identity, audience: NodeId, policy: Policy, nonce: nat) returns (scope: Scope)
    requires Mint(iam, issuer, audience, policy, nonce).Ok?
    ensures AllowScopes(policy.statements) == {scope}
    ensures var chain := Mint(iam, issuer, audience, policy, nonce).value;
      && |chain| == 1
      && var cap := chain[0].cap;
         && cap.issuer == issuer.nodeId && cap.audience == audience && cap.nonce == nonce && cap.parent == None
         && chain[0].sig.signer == issuer.nodeId && chain[0].sig.over == cap
         && Carries(iam.universe, policy, scope, cap)
  {
    hide Carries, CompileScope, ActionsOf, AllowScopes, HasDeny;
    scope := OnlyScope(iam.universe, policy);
    CompiledCarries(iam.universe, policy, scope, Mint(iam, issuer, audience, policy, nonce).value[0].cap);
  }

  /** Every action of an Allow statement expands, and every resource of one names something. */
  ghost predicate Compilable(universe: seq<string>, stmts: seq<Statement>) {
    forall s :: s in stmts && s.effect.Allow? ==>
      Names(s.resource) && forall a :: a in s.actions ==> Expand(universe, {a}).Ok?
  }

  lemma CompilableInScope(universe: seq<string>, stmts: seq<Statement>, scope: Scope)
    requires scope in AllowScopes(stmts)
    ensures CompileScope(universe, ActionsOf(stmts, scope), scope).Ok? <==>
              && ActionsOf(stmts, scope) != {}
              && Names(scope.resource)
              && forall a :: a in ActionsOf(stmts, scope) ==> Expand(universe, {a}).Ok?
  {
    hide ScopeKey, ActionsOf, Names, ToCapResource, Expand;
    var actions := ActionsOf(stmts, scope);
    ActionsExpandTogether(universe, actions);
    ResourceExact(scope.resource);
    if actions != {} {
      ScopeCompilesExactly(universe, actions, scope);
    } else {
      NothingExpands(universe);
    }
  }

  lemma NothingExpands(universe: seq<string>)
    ensures Expand(universe, {}) == Ok([])
  {
    hide Meaning;
    assert Abilities(universe, {}) == {};
  }

  lemma CompilableEverywhere(universe: seq<string>, stmts: seq<Statement>)
    ensures Compilable(universe, stmts) <==>
              forall scope :: scope in AllowScopes(stmts) ==>
                Names(scope.resource) && forall a :: a in ActionsOf(stmts, scope) ==> Expand(universe, {a}).Ok?
  {
    hide ScopeKey, Names, Expand;
    if Compilable(universe, stmts) {
      forall scope | scope in AllowScopes(stmts)
        ensures Names(scope.resource) && forall a :: a in ActionsOf(stmts, scope) ==> Expand(universe, {a}).Ok?
      {
        var s :| s in stmts && s.effect.Allow? && ScopeOf(s) == scope;
        forall a | a in ActionsOf(stmts, scope) ensures Expand(universe, {a}).Ok? {
          var t :| t in stmts && t.effect.Allow? && ScopeOf(t) == scope && a in t.actions;
        }
      }
    } else {
      var s :| s in stmts && s.effect.Allow? && !(Names(s.resource) && forall a :: a in s.actions ==> Expand(universe, {a}).Ok?);
      assert ScopeOf(s) in AllowScopes(stmts);
      assert forall a :: a in s.actions ==> a in ActionsOf(stmts, ScopeOf(s));
    }
  }

  /** The grouping compiler succeeds exactly when there is no Deny, some Allow, an action in every
      allowed scope, and everything expands and names something. */
  lemma CompileScopesSucceedsExactly(universe: seq<string>, policy: Policy)
    ensures var stmts := policy.statements;
            CompileScopes(universe, policy).Ok? <==>
              && !HasDeny(stmts) && AllowScopes(stmts) != {}
              && (forall scope :: scope in AllowScopes(stmts) ==> ActionsOf(stmts, scope) != {})
              && Compilable(universe, stmts)
  {
    hide ScopeKey, ActionsOf, AllowScopes, HasDeny, Names, Expand, CompileScope, Compilable;
    var stmts := policy.statements;
    var all := AllowScopes(stmts);
    EachCompiles(universe, stmts, OrderedScopes(all), all);
    CompilableEverywhere(universe, stmts);
    forall scope | scope in all ensures CompileScope(universe, ActionsOf(stmts, scope), scope).Ok? <==>
              && ActionsOf(stmts, scope) != {}
              && Names(scope.resource)
              && forall a :: a in ActionsOf(stmts, scope) ==> Expand(universe, {a}).Ok?
    { CompilableInScope(universe, stmts, scope); }
  }

  lemma EachCompiles(universe: seq<string>, stmts: seq<Statement>, scopes: seq<Scope>, all: set<Scope>)
    requires InKeyOrder(scopes, all)
    ensures Collect(CompileEach(universe, stmts, scopes)).Ok? <==>
              forall scope :: scope in all ==> CompileScope(universe, ActionsOf(stmts, scope), scope).Ok?
  {
    hide ScopeKey, ActionsOf, CompileScope, Less, Collect;
    var each := CompileEach(universe, stmts, scopes);
    CollectOkExactly(each);
    forall scope | scope in all ensures exists i :: 0 <= i < |scopes| && scopes[i] == scope { assert scope in Elements(scopes); }
    forall i | 0 <= i < |scopes| ensures scopes[i] in all && each[i] == CompileScope(universe, ActionsOf(stmts, scopes[i]), scopes[i]) {
      assert scopes[i] in Elements(scopes);
    }
    if Collect(each).Ok? {
      forall scope | scope in all ensures CompileScope(universe, ActionsOf(stmts, scope), scope).Ok? {
        var i :| 0 <= i < |scopes| && scopes[i] == scope;
        assert each[i].Ok?;
      }
    }
  }

  /** `mint` succeeds exactly when there is no Deny, one scope with an action in it, and everything
      expands and names something; otherwise it says which of the first two it is. */
  lemma MintSucceedsExactly(iam: Iam, issuer: Identity, audience: NodeId, policy: Policy, nonce: nat)
    ensures var stmts, r := policy.statements, Mint(iam, issuer, audience, policy, nonce);
      && (r.Ok? <==>
            && !HasDeny(stmts)
            && (exists scope :: AllowScopes(stmts) == {scope} && ActionsOf(stmts, scope) != {})
            && Compilable(iam.universe, stmts))
      && (HasDeny(stmts) ==> r == Err(DenyUnsupported))
      && (!HasDeny(stmts) && !(exists scope :: AllowScopes(stmts) == {scope}) ==> r == Err(BadPolicy))
  {
    hide ScopeKey, ActionsOf, AllowScopes, HasDeny, Names, Expand, CompileScope, Compilable;
    var stmts := policy.statements;
    CompilableEverywhere(iam.universe, stmts);
    if scope :| !HasDeny(stmts) && AllowScopes(stmts) == {scope} {
      CompileOneScope(iam.universe, policy, scope);
      assert scope in AllowScopes(stmts);
      CompilableInScope(iam.universe, stmts, scope);
      assert forall other :: AllowScopes(stmts) == {other} ==> other in {scope};
      assert forall other :: other in AllowScopes(stmts) ==> other == scope;
    }
  }

  /** `mint` gives what `mint_policy` gives first, for the policies with one scope. */
  lemma MintIsFirstScope(iam: Iam, issuer: Identity, audience: NodeId, policy: Policy, nonce: nat, chain: Chain)
    requires nonce <= U64_MAX
    ensures Mint(iam, issuer, audience, policy, nonce) == Ok(chain) <==>
              (exists scope :: AllowScopes(policy.statements) == {scope}) && MintScope(iam, issuer, audience, policy, nonce, 0) == Ok(chain)
  {
    if Mint(iam, issuer, audience, policy, nonce).Ok? {
      hide CompileScope, ActionsOf, AllowScopes, HasDeny, ScopeKey, CompileScopes;
      var scope := OnlyScope(iam.universe, policy);
      CompilersAgree(iam.universe, policy, Compile(iam.universe, policy).value);
    } else if scope :| AllowScopes(policy.statements) == {scope} {
      if MintScope(iam, issuer, audience, policy, nonce, 0).Ok? { OneScopeCompiles(iam.universe, policy, scope); }
    }
  }

  lemma OneScopeCompiles(universe: seq<string>, policy: Policy, scope: Scope)
    requires CompileScopes(universe, policy).Ok? && AllowScopes(policy.statements) == {scope}
    ensures Compile(universe, policy).Ok?
  {
    hide CompileScope, ActionsOf, HasDeny, ScopeKey, Less;
    OneScope(OrderedScopes({scope}), scope);
    var c := CompileScopes(universe, policy).value;
    CompilersAgree(universe, policy, c[0]);
    assert c == [c[0]];
  }

  /** The grant of `mint_policy` at position `i` is one signed root link with the nonce `i` after the
      base that carries what the policy grants in the scope at `i` in key order. */
  lemma MintedScopeLink(iam: Iam, issuer: Identity, audience: NodeId, policy: Policy, baseNonce: nat, i: nat) returns (scopes: seq<Scope>)
    requires MintScope(iam, issuer, audience, policy, baseNonce, i).Ok?
    ensures InKeyOrder(scopes, AllowScopes(policy.statements)) && i < |scopes|
    ensures var chain := MintScope(iam, issuer, audience, policy, baseNonce, i).value;
      && |chain| == 1
      && var cap := chain[0].cap;
         && cap.issuer == issuer.nodeId && cap.audience == audience && cap.nonce == baseNonce + i && cap.parent == None
         && chain[0].sig.signer == issuer.nodeId && chain[0].sig.over == cap
         && Carries(iam.universe, policy, scopes[i], cap)
  {
    hide Carries, CompileScope, ActionsOf, AllowScopes, HasDeny, ScopeKey, Less;
    scopes := OrderedScopes(AllowScopes(policy.statements));
    var each := CompileEach(iam.universe, policy.statements, scopes);
    assert each[i].Ok?;
    CompiledCarries(iam.universe, policy, scopes[i], MintScope(iam, issuer, audience, policy, baseNonce, i).value[0].cap);
  }

  // ---- attenuate and reissue_under ----

  /** An attenuated chain is the given one and one link more: issued and signed by the holder to the
      audience asked for, with the nonce asked for, naming the leaf as its parent and carrying what the
      narrower policy grants in its one scope. */
  lemma AttenuatedLink(iam: Iam, holder: Identity, chain: Chain, audience: NodeId, narrower: Policy, nonce: nat) returns (scope: Scope)
    requires chain != [] && Attenuate(iam, holder, chain, audience, narrower, nonce).Ok?
    ensures AllowScopes(narrower.statements) == {scope}
    ensures var longer := Attenuate(iam, holder, chain, audience, narrower, nonce).value;
      && |longer| == |chain| + 1 && longer[..|chain|] == chain
      && var cap := longer[|chain|].cap;
         && cap.issuer == holder.nodeId && cap.audience == audience && cap.nonce == nonce
         && cap.parent == Some(LinkId(chain[|chain| - 1].cap))
         && longer[|chain|].sig.signer == holder.nodeId && longer[|chain|].sig.over == cap
         && Carries(iam.universe, narrower, scope, cap)
  {
    hide Carries, CompileScope, ActionsOf, AllowScopes, HasDeny, IsSubsetOf, IsNarrowerOrEqual;
    scope := OnlyScope(iam.universe, narrower);
    CompiledCarries(iam.universe, narrower, scope, Attenuate(iam, holder, chain, audience, narrower, nonce).value[|chain|].cap);
  }

  /** `attenuate` refuses when the caller does not hold the leaf, before it looks at the policy; then
      what does not compile; and then exactly what would amplify: an ability, a node or a use that the
      leaf does not have. */
  lemma AttenuateRefusesExactly(iam: Iam, holder: Identity, chain: Chain, audience: NodeId, narrower: Policy, nonce: nat)
    requires chain != []
    ensures var leaf, r := Leaf(chain).cap, Attenuate(iam, holder, chain, audience, narrower, nonce);
      && (leaf.audience != holder.nodeId ==> r == Err(WouldAmplify))
      && (leaf.audience == holder.nodeId && Compile(iam.universe, narrower).Err? ==> r == Err(Compile(iam.universe, narrower).error))
      && (leaf.audience == holder.nodeId && Compile(iam.universe, narrower).Ok? ==>
            var c := Compile(iam.universe, narrower).value;
            && (r.Ok? <==>
                  && (forall a :: a in c.abilities ==> a in leaf.abilities)
                  && (forall id, tags :: Matches(c.resource, id, tags) ==> Matches(leaf.resource, id, tags))
                  && (forall u :: Permits(c.caveats, u) ==> Permits(leaf.caveats, u)))
            && (r.Err? ==> r.error == WouldAmplify))
  {
    hide Compile, IsSubsetOf, IsNarrowerOrEqual, Matches, Permits;
    if Compile(iam.universe, narrower).Ok? {
      SubsetExact(Compile(iam.universe, narrower).value.resource, Leaf(chain).cap.resource);
      NarrowerExact(Compile(iam.universe, narrower).value.caveats, Leaf(chain).cap.caveats);
    }
  }

  /** A grant is re-issued exactly when it is a single link without a parent; the new link differs from
      it in issuer, nonce and signature alone. */
  lemma ReissuedLink(newRoot: Identity, chain: Chain, nonce: nat)
    requires chain != []
    ensures var r := ReissueUnder(newRoot, chain, nonce);
      && (r.Ok? <==> |chain| == 1 && chain[0].cap.parent == None)
      && (r.Err? ==> r.error == WouldAmplify)
      && (r.Ok? ==>
            && |r.value| == 1
            && var was, cap := chain[0].cap, r.value[0].cap;
               && cap.issuer == newRoot.nodeId && cap.nonce == nonce
               && cap.audience == was.audience && cap.abilities == was.abilities && cap.resource == was.resource
               && cap.caveats == was.caveats && cap.parent == None
               && r.value[0].sig.signer == newRoot.nodeId && r.value[0].sig.over == cap)
  {
  }

  /** A chain that was attenuated is never re-issued. */
  lemma AttenuatedIsNotReissued(newRoot: Identity, iam: Iam, holder: Identity, chain: Chain, audience: NodeId, narrower: Policy, n: nat, nonce: nat)
    requires chain != [] && Attenuate(iam, holder, chain, audience, narrower, n).Ok?
    ensures ReissueUnder(newRoot, Attenuate(iam, holder, chain, audience, narrower, n).value, nonce) == Err(WouldAmplify)
  {
    hide Compile, IsSubsetOf, IsNarrowerOrEqual;
  }

  // ---- from the policy to the verdict ----

  /** The statement lets the request through: it allows, one of its actions means the requested one, it
      names the node, and its conditions hold at the time. */
  predicate Applies(universe: seq<string>, s: Statement, q: Request) {
    && s.effect.Allow?
    && (exists a :: a in s.actions && q.action in Meaning(universe, a))
    && Targets(s.resource, q.selfId, q.tags)
    && InTime(s.conditions, q.now)
  }

  lemma ScopeApplies(universe: seq<string>, stmts: seq<Statement>, scope: Scope, q: Request)
    ensures Grants(universe, stmts, scope, q.action) && Targets(scope.resource, q.selfId, q.tags) && InTime(scope.conditions, q.now)
       <==> exists s :: s in stmts && ScopeOf(s) == scope && Applies(universe, s, q)
  {
    hide Meaning, Targets, InTime;
    if Grants(universe, stmts, scope, q.action) && Targets(scope.resource, q.selfId, q.tags) && InTime(scope.conditions, q.now) {
      var s, a :| s in stmts && s.effect.Allow? && ScopeOf(s) == scope && a in s.actions && q.action in Meaning(universe, a);
      assert Applies(universe, s, q);
    }
  }

  /** A single signed root link that carries what a policy grants in a scope passes the short check
      exactly when the root, the audience and the revocations are right and a statement of that scope
      lets the request through. */
  lemma RootLinkVerdict(universe: seq<string>, policy: Policy, scope: Scope, roots: set<NodeId>, q: Request, chain: Chain)
    requires |chain| == 1 && Carries(universe, policy, scope, chain[0].cap)
    ensures ShortCheck(roots, q, chain) <==>
      && (chain[0].cap.issuer == q.selfId || chain[0].cap.issuer in roots)
      && (chain[0].cap.issuer, chain[0].cap.nonce) !in q.revoked
      && chain[0].cap.audience == q.requester
      && exists s :: s in policy.statements && ScopeOf(s) == scope && Applies(universe, s, q)
  {
    hide Matches, Targets, Applies, Grants;
    var cap := chain[0].cap;
    ScopeApplies(universe, policy.statements, scope, q);
    TimeOf(cap.caveats, scope.conditions, q.now);
  }

  /** Permitting the same uses means being active at the same times. */
  lemma TimeOf(caveats: Cap.Caveats, c: Conditions, now: nat)
    requires forall u: Use :: caveats.notBefore <= u.time && Permits(caveats, u) <==> Allows(c, u)
    ensures caveats.notBefore <= now && Unexpired(caveats, now) <==> InTime(c, now)
  {
    var u := Use(now, 0, 0, 0, None, None);
    assert Permits(caveats, u) <==> Unexpired(caveats, now);
    assert Allows(c, u) <==> InTime(c, now);
  }

  /** From the policy to the verdict: the token of a minted grant verifies for a request exactly when it
      is within the limits, the issuer is accepted, the grant is not revoked, the requester is its
      audience, and some statement of the policy lets the request through. */
  lemma MintedVerifies(iam: Iam, issuer: Identity, audience: NodeId, policy: Policy, nonce: nat, verifier: Iam, linkBytes: SignedCapability -> nat, q: Request)
    requires Mint(iam, issuer, audience, policy, nonce).Ok?
    ensures var chain := Mint(iam, issuer, audience, policy, nonce).value;
      Verify(verifier, q, EncodeChain(linkBytes, chain)) == Ok(()) <==>
        && WithinLimits(verifier, linkBytes, chain)
        && (issuer.nodeId == q.selfId || issuer.nodeId in verifier.acceptedRoots)
        && (issuer.nodeId, nonce) !in q.revoked
        && audience == q.requester
        && exists s :: s in policy.statements && Applies(iam.universe, s, q)
  {
    hide Mint, ShortCheck, Carries, Applies, EncodedBytes, Verify, AllowScopes, WithinLimits;
    var d := Minted(iam, issuer, audience, policy, nonce);
    var chain := Mint(iam, issuer, audience, policy, nonce).value;
    var scope := MintedLink(iam, issuer, audience, policy, nonce);
    VerifyBuiltExact(d, verifier, linkBytes, q);
    RootLinkVerdict(iam.universe, policy, scope, verifier.acceptedRoots, q, chain);
    AppliesInScope(iam.universe, policy.statements, {scope}, q);
    assert forall s :: s in policy.statements && Applies(iam.universe, s, q) ==> ScopeOf(s) in {scope};
  }

  lemma AppliesInScope(universe: seq<string>, stmts: seq<Statement>, scopes: set<Scope>, q: Request)
    requires AllowScopes(stmts) == scopes
    ensures forall s :: s in stmts && Applies(universe, s, q) ==> ScopeOf(s) in scopes
  {
    hide Meaning, Targets, InTime;
  }

  /** The grant is within the verifier's limits and not revoked. */
  predicate Usable(grant: Chain, verifier: Iam, linkBytes: SignedCapability -> nat, q: Request)
    requires grant != []
  {
    WithinLimits(verifier, linkBytes, grant) && !Revoked(q, grant[0])
  }

  predicate Accepts(grant: Chain, verifier: Iam, linkBytes: SignedCapability -> nat, q: Request) {
    Verify(verifier, q, EncodeChain(linkBytes, grant)) == Ok(())
  }

  /** Every scope of a policy that compiles has its grant. */
  lemma GrantForEachScope(iam: Iam, issuer: Identity, audience: NodeId, policy: Policy, baseNonce: nat, scopes: seq<Scope>)
    requires CompileScopes(iam.universe, policy).Ok? && baseNonce + |CompileScopes(iam.universe, policy).value| <= U64_MAX + 1
    requires scopes == OrderedScopes(AllowScopes(policy.statements))
    ensures |scopes| == |CompileScopes(iam.universe, policy).value|
    ensures forall i: nat :: i < |scopes| ==> MintScope(iam, issuer, audience, policy, baseNonce, i).Ok?
  {
    hide ScopeKey, Less, CompileScope, ActionsOf, AllowScopes, HasDeny;
  }

  lemma ScopeVerdict(iam: Iam, issuer: Identity, audience: NodeId, policy: Policy, baseNonce: nat, i: nat, scopes: seq<Scope>, verifier: Iam, linkBytes: SignedCapability -> nat, q: Request)
    requires MintScope(iam, issuer, audience, policy, baseNonce, i).Ok?
    requires InKeyOrder(scopes, AllowScopes(policy.statements)) && i < |scopes|
    requires Usable(MintScope(iam, issuer, audience, policy, baseNonce, i).value, verifier, linkBytes, q)
    ensures Accepts(MintScope(iam, issuer, audience, policy, baseNonce, i).value, verifier, linkBytes, q) <==>
        && (issuer.nodeId == q.selfId || issuer.nodeId in verifier.acceptedRoots)
        && audience == q.requester
        && exists s :: s in policy.statements && ScopeOf(s) == scopes[i] && Applies(iam.universe, s, q)
  {
    hide MintScope, ShortCheck, Carries, Applies, EncodedBytes, Verify, AllowScopes, WithinLimits, InKeyOrder, ScopeKey;
    var own := MintedScopeLink(iam, issuer, audience, policy, baseNonce, i);
    KeyOrderUnique(own, scopes, AllowScopes(policy.statements));
    VerifyBuiltExact(MintedScope(iam, issuer, audience, policy, baseNonce, i), verifier, linkBytes, q);
    RootLinkVerdict(iam.universe, policy, scopes[i], verifier.acceptedRoots, q, MintScope(iam, issuer, audience, policy, baseNonce, i).value);
  }

  /** The same for `mint_policy`: of its grants, one for each scope, some token verifies for a request
      exactly when the issuer is accepted, the requester is the audience, and some statement lets the
      request through; for grants within the limits and not revoked. */
  lemma MintPolicyVerifies(iam: Iam, issuer: Identity, audience: NodeId, policy: Policy, baseNonce: nat, grants: seq<Chain>, verifier: Iam, linkBytes: SignedCapability -> nat, q: Request)
    requires CompileScopes(iam.universe, policy).Ok? && |grants| == |CompileScopes(iam.universe, policy).value| && baseNonce + |grants| <= U64_MAX + 1
    requires forall i: nat :: i < |grants| ==> MintScope(iam, issuer, audience, policy, baseNonce, i) == Ok(grants[i])
    requires forall g :: g in grants ==> g != [] && Usable(g, verifier, linkBytes, q)
    ensures (exists g :: g in grants && Accepts(g, verifier, linkBytes, q))
       <==> && (issuer.nodeId == q.selfId || issuer.nodeId in verifier.acceptedRoots)
            && audience == q.requester
            && exists s :: s in policy.statements && Applies(iam.universe, s, q)
  {
    hide MintScope, CompileScopes, Usable, Accepts, Applies, AllowScopes, InKeyOrder, ScopeKey;
    var all := AllowScopes(policy.statements);
    var scopes := OrderedScopes(all);
    GrantForEachScope(iam, issuer, audience, policy, baseNonce, scopes);
    forall i: nat | i < |grants|
      ensures Accepts(grants[i], verifier, linkBytes, q) <==>
        && (issuer.nodeId == q.selfId || issuer.nodeId in verifier.acceptedRoots)
        && audience == q.requester
        && exists s :: s in policy.statements && ScopeOf(s) == scopes[i] && Applies(iam.universe, s, q)
    {
      assert grants[i] in grants;
      ScopeVerdict(iam, issuer, audience, policy, baseNonce, i, scopes, verifier, linkBytes, q);
    }
    AppliesInScope(iam.universe, policy.statements, all, q);
    if s :| s in policy.statements && Applies(iam.universe, s, q) {
      var i := PositionOf(scopes, all, ScopeOf(s));
      assert grants[i] in grants;
    }
  }
}
