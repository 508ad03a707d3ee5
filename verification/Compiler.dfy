/**
 From policy documents to what capabilities carry: wildcard expansion, the compiler for a policy
 with one scope and the compiler that groups statements by scope.

 Each loop of the source is a method here. Its specification says what the statements mean, not how
 they are visited: an action stands for a set of abilities, a policy for a set of scopes with the
 actions listed under each.
 */
module Compiler {
  import opened Outcomes
  import opened Text
  import opened Hex
  import opened Policies
  import opened ScopeKeys
  import Cap = CapTypes

  // ---- what an action string stands for ----

  predicate IsWildcard(t: string) {
    t != "" && t[|t| - 1] == '*'
  }

  /** The abilities an action stands for: itself, or the part of the universe a wildcard covers. */
  function Meaning(universe: seq<string>, action: string): set<string> {
    var t := Trim(action);
    if IsWildcard(t) then set x | x in universe && t[..|t| - 1] <= x else {t}
  }

  predicate ActionOk(universe: seq<string>, action: string) {
    Trim(action) != "" && Meaning(universe, action) != {}
  }

  function Abilities(universe: seq<string>, actions: set<string>): set<string> {
    set a, x | a in actions && x in Meaning(universe, a) :: x
  }

  /** The abilities of all the actions in order, or an error when an action is empty or a wildcard
      covers nothing. */
  function Expand(universe: seq<string>, actions: set<string>): Result<seq<string>, IamError> {
    if exists a :: a in actions && !ActionOk(universe, a) then Err(BadAction)
    else Ok(Ordered(Abilities(universe, actions)))
  }

  function Matching(universe: seq<string>, prefix: string): (r: seq<string>)
    ensures Elements(r) == set x | x in universe && prefix <= x
  {
    if universe == [] then []
    else
      var rest := Matching(universe[1..], prefix);
      var r := if prefix <= universe[0] then [universe[0]] + rest else rest;
      assert forall x :: x in r <==> (x == universe[0] && prefix <= x) || x in Elements(rest);
      assert forall x :: x in universe <==> x == universe[0] || x in universe[1..];
      r
  }

  method ExpandActions(universe: seq<string>, actions: seq<string>) returns (r: Result<seq<string>, IamError>)
    ensures r == Expand(universe, Elements(actions))
  {
    var out: seq<string> := [];
    for i := 0 to |actions|
      invariant forall a :: a in Elements(actions[..i]) ==> ActionOk(universe, a)
      invariant Elements(out) == Abilities(universe, Elements(actions[..i]))
    {
      ghost var before := out;
      var a := Trim(actions[i]);
      assert actions[i] in Elements(actions);
      assert forall x :: x in Elements(actions[..i + 1]) <==> x == actions[i] || x in Elements(actions[..i]);
      if a == "" { return Err(BadAction); }
      if a == "*" {
        assert Meaning(universe, actions[i]) == Elements(universe);
        if universe == [] { return Err(BadAction); }
        assert universe[0] in Meaning(universe, actions[i]);
        out := out + universe;
      } else if IsWildcard(a) {
        var matched := Matching(universe, a[..|a| - 1]);
        NoElements(matched);
        if matched == [] { return Err(BadAction); }
        out := out + matched;
      } else {
        assert a in Meaning(universe, actions[i]);
        out := out + [a];
      }
      assert forall x :: x in out <==> x in Elements(before) || x in Meaning(universe, actions[i]);
    }
    assert actions[..|actions|] == actions;
    r := Ok(Ordered(Elements(out)));
  }

  // ---- what a policy grants ----

  /** What one capability carries: sorted abilities, one resource, one set of caveats. */
  datatype Compiled = Compiled(abilities: seq<string>, resource: Cap.Resource, caveats: Cap.Caveats)

  function ScopeOf(s: Statement): Scope {
    Scope(s.resource, s.conditions)
  }

  predicate HasDeny(stmts: seq<Statement>) {
    exists s :: s in stmts && s.effect.Deny?
  }

  function AllowScopes(stmts: seq<Statement>): set<Scope> {
    set s | s in stmts && s.effect.Allow? :: ScopeOf(s)
  }

  function ActionsOf(stmts: seq<Statement>, scope: Scope): set<string> {
    set s, a | s in stmts && s.effect.Allow? && ScopeOf(s) == scope && a in s.actions :: a
  }

  /** What is granted in one scope. */
  function CompileScope(universe: seq<string>, actions: set<string>, scope: Scope): Result<Compiled, IamError> {
    match Expand(universe, actions)
    case Err(e) => Err(e)
    case Ok(abilities) =>
      if abilities == [] then Err(BadAction)
      else
        match ToCapResource(scope.resource)
        case Err(e) => Err(e)
        case Ok(resource) => Ok(Compiled(abilities, resource, ToCaveats(scope.conditions)))
  }

  /** `compile`: all Allow statements must share one scope. */
  ghost function Compile(universe: seq<string>, policy: Policy): Result<Compiled, IamError> {
    var stmts := policy.statements;
    if HasDeny(stmts) then Err(DenyUnsupported)
    else if exists scope :: AllowScopes(stmts) == {scope} then
      var scope :| AllowScopes(stmts) == {scope};
      CompileScope(universe, ActionsOf(stmts, scope), scope)
    else Err(BadPolicy)
  }

  /** The scopes of a policy in key order. */
  ghost predicate InKeyOrder(scopes: seq<Scope>, all: set<Scope>) {
    && Elements(scopes) == all
    && forall i, j :: 0 <= i < j < |scopes| ==> Less(ScopeKey(scopes[i]), ScopeKey(scopes[j]))
  }

  function ScopeKeySet(scopes: set<Scope>): set<string> {
    set s | s in scopes :: ScopeKey(s)
  }

  ghost function WithKey(all: set<Scope>, key: string): (s: Scope)
    requires key in ScopeKeySet(all)
    ensures s in all && ScopeKey(s) == key
  {
    var s :| s in all && ScopeKey(s) == key;
    s
  }

  ghost function OrderedScopes(all: set<Scope>): (scopes: seq<Scope>)
    ensures InKeyOrder(scopes, all)
  {
    var keys := Ordered(ScopeKeySet(all));
    var scopes := seq(|keys|, i requires 0 <= i < |keys| => assert keys[i] in Elements(keys); WithKey(all, keys[i]));
    OrderedScopesCorrect(all, keys, scopes);
    scopes
  }

  lemma OrderedScopesCorrect(all: set<Scope>, keys: seq<string>, scopes: seq<Scope>)
    requires StrictlySorted(keys) && Elements(keys) == ScopeKeySet(all) && |scopes| == |keys|
    requires forall i :: 0 <= i < |keys| ==> scopes[i] in all && ScopeKey(scopes[i]) == keys[i]
    ensures InKeyOrder(scopes, all)
  {
    hide ScopeKey;
    forall s | s in all ensures s in scopes {
      assert ScopeKey(s) in Elements(keys);
      var i :| 0 <= i < |keys| && keys[i] == ScopeKey(s);
      ScopeKeyInjective(scopes[i], s);
    }
    assert Elements(scopes) == all;
  }

  /** The values of a list of results, or the first error in it. */
  function Collect<T>(rs: seq<Result<T, IamError>>): (r: Result<seq<T>, IamError>)
    ensures r.Ok? ==> |r.value| == |rs| && forall i :: 0 <= i < |rs| ==> rs[i] == Ok(r.value[i])
    ensures r.Err? ==> exists i :: 0 <= i < |rs| && rs[i] == Err(r.error) && forall j :: 0 <= j < i ==> rs[j].Ok?
  {
    if rs == [] then Ok([])
    else
      var last := |rs| - 1;
      match Collect(rs[..last])
      case Err(e) =>
        assert exists i :: 0 <= i < last && rs[..last][i] == Err(e) && forall j :: 0 <= j < i ==> rs[..last][j].Ok?;
        Err(e)
      case Ok(done) =>
        assert forall j :: 0 <= j < last ==> rs[..last][j] == rs[j];
        match rs[last]
        case Err(e) => Err(e)
        case Ok(v) => Ok(done + [v])
  }

  /** Each scope compiled in turn. */
  function CompileEach(universe: seq<string>, stmts: seq<Statement>, scopes: seq<Scope>): seq<Result<Compiled, IamError>> {
    seq(|scopes|, i requires 0 <= i < |scopes| => CompileScope(universe, ActionsOf(stmts, scopes[i]), scopes[i]))
  }

  /** `compile_scopes`: one result for each distinct scope, in key order. */
  ghost function CompileScopes(universe: seq<string>, policy: Policy): Result<seq<Compiled>, IamError> {
    var stmts := policy.statements;
    if HasDeny(stmts) then Err(DenyUnsupported)
    else if AllowScopes(stmts) == {} then Err(BadPolicy)
    else Collect(CompileEach(universe, stmts, OrderedScopes(AllowScopes(stmts))))
  }

  lemma {:induction false} KeyOrderUnique(a: seq<Scope>, b: seq<Scope>, all: set<Scope>)
    requires InKeyOrder(a, all) && InKeyOrder(b, all)
    ensures a == b
  {
    hide ScopeKey;
    var ka := seq(|a|, i requires 0 <= i < |a| => ScopeKey(a[i]));
    var kb := seq(|b|, i requires 0 <= i < |b| => ScopeKey(b[i]));
    KeysOf(a, ka);
    KeysOf(b, kb);
    SortedUnique(ka, kb);
    assert |a| == |ka| == |kb| == |b|;
    forall i | 0 <= i < |a| ensures a[i] == b[i] {
      assert ka[i] == kb[i];
      ScopeKeyInjective(a[i], b[i]);
    }
  }

  lemma KeysOf(a: seq<Scope>, ka: seq<string>)
    requires |ka| == |a| && forall i :: 0 <= i < |a| ==> ka[i] == ScopeKey(a[i])
    ensures Elements(ka) == ScopeKeySet(Elements(a))
  {
    forall k | k in ScopeKeySet(Elements(a)) ensures k in ka {
      var s :| s in Elements(a) && ScopeKey(s) == k;
      var i :| 0 <= i < |a| && a[i] == s;
      assert ka[i] == k;
    }
    forall k | k in ka ensures k in ScopeKeySet(Elements(a)) {
      var i :| 0 <= i < |ka| && ka[i] == k;
      assert a[i] in Elements(a);
    }
  }

  // ---- the two compilers ----

  function AllowStatements(stmts: seq<Statement>): (r: seq<Statement>)
    ensures forall s :: s in r <==> s in stmts && s.effect.Allow?
  {
    if stmts == [] then []
    else (if stmts[0].effect.Allow? then [stmts[0]] else []) + AllowStatements(stmts[1..])
  }

  method CompilePolicy(universe: seq<string>, policy: Policy) returns (r: Result<Compiled, IamError>)
    ensures r == Compile(universe, policy)
  {
    hide ScopeKey;
    var stmts := policy.statements;
    var allows := AllowStatements(stmts);
    if HasDeny(stmts) { return Err(DenyUnsupported); }
    if allows == [] {
      assert AllowScopes(stmts) == {};
      return Err(BadPolicy);
    }
    ghost var first := ScopeOf(allows[0]);
    assert allows[0] in allows && first in AllowScopes(stmts);
    for i := 1 to |allows|
      invariant forall j :: 0 <= j < i ==> ScopeOf(allows[j]) == first
    {
      if allows[i].resource != allows[0].resource || allows[i].conditions != allows[0].conditions {
        assert allows[i] in allows && ScopeOf(allows[i]) in AllowScopes(stmts) && ScopeOf(allows[i]) != first;
        return Err(BadPolicy);
      }
    }
    assert AllowScopes(stmts) == {first};
    var actions: seq<string> := [];
    for i := 0 to |allows|
      invariant forall a :: a in actions <==> exists j :: 0 <= j < i && a in allows[j].actions
    {
      actions := actions + allows[i].actions;
    }
    assert Elements(actions) == ActionsOf(stmts, first) by {
      forall a | a in ActionsOf(stmts, first) ensures a in actions {
        var s :| s in stmts && s.effect.Allow? && ScopeOf(s) == first && a in s.actions;
        assert s in allows;
      }
    }
    var expanded := ExpandActions(universe, actions);
    match expanded {
      case Err(e) => return Err(e);
      case Ok(abilities) =>
        if abilities == [] { return Err(BadAction); }
        match ToCapResource(allows[0].resource) {
          case Err(e) => return Err(e);
          case Ok(resource) => return Ok(Compiled(abilities, resource, ToCaveats(allows[0].conditions)));
        }
    }
  }

  datatype Group = Group(resource: ResourceMatch, conditions: Conditions, actions: seq<string>)

  /** The groups hold exactly the scopes of the statements, each with the actions listed for it. */
  ghost predicate GroupsOf(groups: map<string, Group>, stmts: seq<Statement>) {
    && groups.Keys == ScopeKeySet(AllowScopes(stmts))
    && forall k :: k in groups ==>
         var scope := Scope(groups[k].resource, groups[k].conditions);
         ScopeKey(scope) == k && Elements(groups[k].actions) == ActionsOf(stmts, scope)
  }

  function AddTo(groups: map<string, Group>, s: Statement): map<string, Group> {
    var k := ScopeKey(ScopeOf(s));
    var g := if k in groups then groups[k] else Group(s.resource, s.conditions, []);
    groups[k := g.(actions := g.actions + s.actions)]
  }

  lemma ActionsOfStep(stmts: seq<Statement>, s: Statement, scope: Scope)
    ensures ActionsOf(stmts + [s], scope)
         == ActionsOf(stmts, scope) + (if s.effect.Allow? && ScopeOf(s) == scope then Elements(s.actions) else {})
    ensures AllowScopes(stmts + [s]) == AllowScopes(stmts) + (if s.effect.Allow? then {ScopeOf(s)} else {})
  {
    hide ScopeKey;
    assert forall t :: t in stmts + [s] <==> t in stmts || t == s;
  }

  lemma NoActions(scope: Scope)
    ensures ActionsOf([], scope) == {}
  {
  }

  lemma GroupStep(groups: map<string, Group>, stmts: seq<Statement>, s: Statement)
    requires GroupsOf(groups, stmts) && s.effect.Allow?
    ensures GroupsOf(AddTo(groups, s), stmts + [s])
  {
    hide ScopeKey;
    var scope, all := ScopeOf(s), stmts + [s];
    var key := ScopeKey(scope);
    var after := AddTo(groups, s);
    ActionsOfStep(stmts, s, scope);
    assert after.Keys == ScopeKeySet(AllowScopes(all)) by {
      assert ScopeKeySet(AllowScopes(stmts) + {scope}) == ScopeKeySet(AllowScopes(stmts)) + {key};
    }
    forall k | k in after ensures
      var sc := Scope(after[k].resource, after[k].conditions);
      ScopeKey(sc) == k && Elements(after[k].actions) == ActionsOf(all, sc)
    {
      var sc := Scope(after[k].resource, after[k].conditions);
      ActionsOfStep(stmts, s, sc);
      if k == key {
        if key in groups {
          ScopeKeyInjective(sc, scope);
        } else {
          NewScope(stmts, scope);
        }
        assert forall a :: a in after[k].actions <==> a in ActionsOf(stmts, scope) || a in s.actions;
      }
    }
  }

  lemma NewScope(stmts: seq<Statement>, scope: Scope)
    requires ScopeKey(scope) !in ScopeKeySet(AllowScopes(stmts))
    ensures ActionsOf(stmts, scope) == {}
  {
    hide ScopeKey;
  }

  /** The body of the second loop of `compile_scopes`. */
  method CompileGroup(universe: seq<string>, g: Group) returns (r: Result<Compiled, IamError>)
    ensures r == ResultOf(universe, g)
  {
    var expanded := ExpandActions(universe, g.actions);
    match expanded {
      case Err(e) => return Err(e);
      case Ok(abilities) =>
        if abilities == [] { return Err(BadAction); }
        match ToCapResource(g.resource) {
          case Err(e) => return Err(e);
          case Ok(resource) => return Ok(Compiled(abilities, resource, ToCaveats(g.conditions)));
        }
    }
  }

  /** The first loop of `compile_scopes`. */
  method GroupByScope(allows: seq<Statement>) returns (groups: map<string, Group>)
    requires forall s :: s in allows ==> s.effect.Allow?
    ensures GroupsOf(groups, allows)
  {
    hide ScopeKey;
    groups := map[];
    for i := 0 to |allows|
      invariant GroupsOf(groups, allows[..i])
    {
      assert allows[..i + 1] == allows[..i] + [allows[i]];
      GroupStep(groups, allows[..i], allows[i]);
      groups := AddTo(groups, allows[i]);
    }
    assert allows[..|allows|] == allows;
  }

  function ResultOf(universe: seq<string>, g: Group): Result<Compiled, IamError> {
    CompileScope(universe, Elements(g.actions), Scope(g.resource, g.conditions))
  }

  /** The second loop of `compile_scopes`, over the groups in key order. */
  method CompileGroups(universe: seq<string>, groups: map<string, Group>, keys: seq<string>, ghost each: seq<Result<Compiled, IamError>>)
    returns (r: Result<seq<Compiled>, IamError>)
    requires |each| == |keys|
    requires forall i :: 0 <= i < |keys| ==> keys[i] in groups && each[i] == ResultOf(universe, groups[keys[i]])
    ensures r == Collect(each)
  {
    hide CompileScope, Collect;
    var out: seq<Compiled> := [];
    for i := 0 to |keys|
      invariant |out| == i
      invariant forall j :: 0 <= j < i ==> each[j] == Ok(out[j])
    {
      var c := CompileGroup(universe, groups[keys[i]]);
      match c {
        case Err(e) =>
          FirstError(each, i);
          return Err(e);
        case Ok(v) =>
          out := out + [v];
      }
    }
    AllOk(each, out);
    r := Ok(out);
  }

  method CompilePolicyScopes(universe: seq<string>, policy: Policy) returns (r: Result<seq<Compiled>, IamError>)
    ensures r == CompileScopes(universe, policy)
  {
    hide ScopeKey, CompileScope, GroupsOf, ActionsOf, AllowScopes;
    var stmts := policy.statements;
    if HasDeny(stmts) { return Err(DenyUnsupported); }
    var allows := AllowStatements(stmts);
    var groups := GroupByScope(allows);
    ghost var scopes := OrderedScopes(AllowScopes(allows));
    OnlyAllows(stmts);
    var keys := Ordered(groups.Keys);
    GroupsInOrder(groups, allows, keys, scopes);
    NoElements(scopes);
    if keys == [] { return Err(BadPolicy); }
    r := CompileGroups(universe, groups, keys, CompileEach(universe, stmts, scopes));
  }

  /** Dropping the statements that are not Allow changes nothing that is granted. */
  lemma OnlyAllows(stmts: seq<Statement>)
    ensures AllowScopes(AllowStatements(stmts)) == AllowScopes(stmts)
    ensures forall scope :: ActionsOf(AllowStatements(stmts), scope) == ActionsOf(stmts, scope)
  {
    hide ScopeKey, AllowStatements;
  }

  /** The keys of the groups in order are the scopes in order. */
  lemma GroupsInOrder(groups: map<string, Group>, stmts: seq<Statement>, keys: seq<string>, scopes: seq<Scope>)
    requires GroupsOf(groups, stmts) && keys == Ordered(groups.Keys)
    requires InKeyOrder(scopes, AllowScopes(stmts))
    ensures |keys| == |scopes|
    ensures forall i :: 0 <= i < |keys| ==>
      && keys[i] in groups
      && Scope(groups[keys[i]].resource, groups[keys[i]].conditions) == scopes[i]
      && Elements(groups[keys[i]].actions) == ActionsOf(stmts, scopes[i])
  {
    hide ScopeKey;
    var ks := seq(|scopes|, i requires 0 <= i < |scopes| => ScopeKey(scopes[i]));
    KeysOf(scopes, ks);
    SortedUnique(keys, ks);
    forall i | 0 <= i < |keys| ensures
      && keys[i] in groups
      && Scope(groups[keys[i]].resource, groups[keys[i]].conditions) == scopes[i]
      && Elements(groups[keys[i]].actions) == ActionsOf(stmts, scopes[i])
    {
      assert keys[i] in Elements(keys) && keys[i] == ks[i];
      ScopeKeyInjective(Scope(groups[keys[i]].resource, groups[keys[i]].conditions), scopes[i]);
    }
  }

  lemma FirstError<T>(rs: seq<Result<T, IamError>>, i: nat)
    requires i < |rs| && rs[i].Err? && forall j :: 0 <= j < i ==> rs[j].Ok?
    ensures Collect(rs) == Err(rs[i].error)
  {
  }

  lemma AllOk<T>(rs: seq<Result<T, IamError>>, out: seq<T>)
    requires |rs| == |out| && forall i :: 0 <= i < |rs| ==> rs[i] == Ok(out[i])
    ensures Collect(rs) == Ok(out)
  {
    assert Collect(rs).value == out;
  }

  // ---- properties ----

  /** Everything a list of statements grants, statement by statement: which abilities in which scope. */
  ghost predicate Grants(universe: seq<string>, stmts: seq<Statement>, scope: Scope, ability: string) {
    exists s, a :: s in stmts && s.effect.Allow? && ScopeOf(s) == scope && a in s.actions && ability in Meaning(universe, a)
  }

  /** The compiled list neither loses nor invents a (scope, ability) pair, and has one entry for
      each scope, in key order, with that scope's resource and caveats. */
  lemma CompileScopesConserves(universe: seq<string>, policy: Policy) returns (scopes: seq<Scope>)
    requires CompileScopes(universe, policy).Ok?
    ensures InKeyOrder(scopes, AllowScopes(policy.statements))
    ensures var out := CompileScopes(universe, policy).value;
      && |out| == |scopes|
      && (forall i :: 0 <= i < |out| ==>
            && StrictlySorted(out[i].abilities) && out[i].abilities != []
            && ToCapResource(scopes[i].resource) == Ok(out[i].resource)
            && out[i].caveats == ToCaveats(scopes[i].conditions)
            && forall x :: x in out[i].abilities <==> Grants(universe, policy.statements, scopes[i], x))
      && (forall scope, x :: Grants(universe, policy.statements, scope, x) ==> exists i :: 0 <= i < |out| && scopes[i] == scope)
  {
    hide ScopeKey, Meaning, ToCapResource, Less;
    var stmts := policy.statements;
    scopes := OrderedScopes(AllowScopes(stmts));
    var each := CompileEach(universe, stmts, scopes);
    var out := CompileScopes(universe, policy).value;
    forall i | 0 <= i < |out| ensures
      && StrictlySorted(out[i].abilities) && out[i].abilities != []
      && ToCapResource(scopes[i].resource) == Ok(out[i].resource)
      && out[i].caveats == ToCaveats(scopes[i].conditions)
      && forall x :: x in out[i].abilities <==> Grants(universe, stmts, scopes[i], x)
    {
      assert each[i] == Ok(out[i]);
      CompiledAbilities(universe, stmts, scopes[i]);
    }
    forall scope, x | Grants(universe, stmts, scope, x) ensures exists i :: 0 <= i < |out| && scopes[i] == scope {
      assert scope in AllowScopes(stmts);
      assert scope in Elements(scopes);
    }
  }

  lemma CompiledAbilities(universe: seq<string>, stmts: seq<Statement>, scope: Scope)
    requires CompileScope(universe, ActionsOf(stmts, scope), scope).Ok?
    ensures var c := CompileScope(universe, ActionsOf(stmts, scope), scope).value;
      && StrictlySorted(c.abilities) && c.abilities != []
      && forall x :: x in c.abilities <==> Grants(universe, stmts, scope, x)
  {
    hide ScopeKey, Meaning, ToCapResource, Less;
    var actions := ActionsOf(stmts, scope);
    var abilities := CompileScope(universe, actions, scope).value.abilities;
    forall x ensures x in abilities <==> Grants(universe, stmts, scope, x) {
      assert x in abilities <==> x in Elements(abilities);
      if Grants(universe, stmts, scope, x) {
        var s, a :| s in stmts && s.effect.Allow? && ScopeOf(s) == scope && a in s.actions && x in Meaning(universe, a);
        assert a in actions;
      }
    }
  }

  /** The single-scope compiler succeeds with `c` exactly when the grouping one gives just `[c]`. */
  lemma CompilersAgree(universe: seq<string>, policy: Policy, c: Compiled)
    ensures Compile(universe, policy) == Ok(c) <==> CompileScopes(universe, policy) == Ok([c])
  {
    hide ScopeKey, CompileScope, ActionsOf, Less;
    var stmts := policy.statements;
    var all := AllowScopes(stmts);
    var scopes := OrderedScopes(all);
    var each := CompileEach(universe, stmts, scopes);
    assert |scopes| == 1 ==> all == {scopes[0]};
    if !HasDeny(stmts) {
      if scope :| all == {scope} {
        OneScope(scopes, scope);
        if Collect(each) == Ok([c]) { assert each[0] == Ok(Collect(each).value[0]); }
        if each[0] == Ok(c) { AllOk(each, [c]); }
      } else {
        assert |scopes| != 1;
      }
    }
  }

  lemma OneScope(scopes: seq<Scope>, scope: Scope)
    requires InKeyOrder(scopes, {scope})
    ensures scopes == [scope]
  {
    hide ScopeKey, Leq;
    assert InKeyOrder([scope], {scope});
    KeyOrderUnique(scopes, [scope], {scope});
  }

  lemma PositionOf(scopes: seq<Scope>, all: set<Scope>, scope: Scope) returns (i: nat)
    requires InKeyOrder(scopes, all) && scope in all
    ensures i < |scopes| && scopes[i] == scope
  {
    hide ScopeKey, Less;
    assert scope in Elements(scopes);
    i :| i < |scopes| && scopes[i] == scope;
  }

  lemma CompileOneScope(universe: seq<string>, policy: Policy, scope: Scope)
    requires !HasDeny(policy.statements) && AllowScopes(policy.statements) == {scope}
    ensures Compile(universe, policy) == CompileScope(universe, ActionsOf(policy.statements, scope), scope)
  {
    hide ScopeKey, CompileScope, HasDeny, AllowScopes, ActionsOf;
    assert forall other :: {other} == {scope} ==> other in {scope};
  }

  lemma ExpandedNotEmpty(universe: seq<string>, actions: set<string>)
    requires actions != {} && Expand(universe, actions).Ok?
    ensures Expand(universe, actions).value != []
  {
    hide Meaning;
    var a :| a in actions;
    assert ActionOk(universe, a);
    var x :| x in Meaning(universe, a);
    assert x in Abilities(universe, actions);
  }

  /** A scope with an action compiles exactly when its actions expand and its resource is one. */
  lemma ScopeCompilesExactly(universe: seq<string>, actions: set<string>, scope: Scope)
    requires actions != {}
    ensures CompileScope(universe, actions, scope).Ok? <==> Expand(universe, actions).Ok? && ToCapResource(scope.resource).Ok?
  {
    hide Expand, ToCapResource;
    if Expand(universe, actions).Ok? { ExpandedNotEmpty(universe, actions); }
  }

  lemma CollectOkExactly<T>(rs: seq<Result<T, IamError>>)
    ensures Collect(rs).Ok? <==> forall i :: 0 <= i < |rs| ==> rs[i].Ok?
  {
  }

  /** Two statement lists grant the same: the same denials, the same scopes, and in each scope the
      same actions. */
  ghost predicate SameGrants(p: seq<Statement>, q: seq<Statement>) {
    && HasDeny(p) == HasDeny(q)
    && AllowScopes(p) == AllowScopes(q)
    && forall scope :: ActionsOf(p, scope) == ActionsOf(q, scope)
  }

  /** What the compilers return depends only on what the statements grant. */
  lemma CompileDependsOnGrants(universe: seq<string>, p: Policy, q: Policy)
    requires SameGrants(p.statements, q.statements)
    ensures CompileScopes(universe, p) == CompileScopes(universe, q)
    ensures Compile(universe, p) == Compile(universe, q)
  {
    hide ScopeKey, CompileScope, ActionsOf, AllowScopes, HasDeny;
    SameEach(universe, p.statements, q.statements, OrderedScopes(AllowScopes(p.statements)));
    if scope :| !HasDeny(p.statements) && AllowScopes(p.statements) == {scope} {
      CompileOneScope(universe, p, scope);
      CompileOneScope(universe, q, scope);
    }
  }

  lemma SameEach(universe: seq<string>, p: seq<Statement>, q: seq<Statement>, scopes: seq<Scope>)
    requires SameGrants(p, q)
    ensures CompileEach(universe, p, scopes) == CompileEach(universe, q, scopes)
  {
    hide ScopeKey, CompileScope, ActionsOf, AllowScopes, HasDeny;
  }

  /** Neither the order of the statements nor repeating one matters. */
  lemma StatementOrderIrrelevant(universe: seq<string>, p: Policy, q: Policy)
    requires Elements(p.statements) == Elements(q.statements)
    ensures CompileScopes(universe, p) == CompileScopes(universe, q)
    ensures Compile(universe, p) == Compile(universe, q)
  {
    hide ScopeKey;
    assert forall s :: s in p.statements <==> s in Elements(p.statements);
    assert forall s :: s in q.statements <==> s in Elements(q.statements);
    assert SameGrants(p.statements, q.statements);
    CompileDependsOnGrants(universe, p, q);
  }

  /** Nor does splitting the action list of a statement over two statements. */
  lemma StatementSplitIrrelevant(universe: seq<string>, version: string, x: seq<Statement>, s: Statement, y: seq<Statement>, k: nat)
    requires k <= |s.actions|
    ensures var whole := Policy(version, x + [s] + y);
            var split := Policy(version, x + [s.(actions := s.actions[..k]), s.(actions := s.actions[k..])] + y);
            CompileScopes(universe, whole) == CompileScopes(universe, split)
            && Compile(universe, whole) == Compile(universe, split)
  {
    var l, r := s.(actions := s.actions[..k]), s.(actions := s.actions[k..]);
    SplitOne(s, l, r, k);
    SameGrantsWithin(x, [s], [l, r], y);
    CompileDependsOnGrants(universe, Policy(version, x + [s] + y), Policy(version, x + [l, r] + y));
  }

  lemma SplitOne(s: Statement, l: Statement, r: Statement, k: nat)
    requires k <= |s.actions| && l == s.(actions := s.actions[..k]) && r == s.(actions := s.actions[k..])
    ensures SameGrants([s], [l, r])
  {
    hide ScopeKey, ActionsOf;
    assert [l] + [r] == [l, r] && [] + [l] == [l] && [] + [s] == [s];
    assert HasDeny([s]) == s.effect.Deny? by { assert s in [s]; }
    assert HasDeny([l, r]) == s.effect.Deny? by { assert l in [l, r]; }
    assert Elements(s.actions) == Elements(l.actions) + Elements(r.actions) by { assert s.actions == l.actions + r.actions; }
    hide Elements;
    forall scope ensures ActionsOf([s], scope) == ActionsOf([l, r], scope) && AllowScopes([s]) == AllowScopes([l, r]) {
      assert ActionsOf([], scope) == {} by { NoActions(scope); }
      ActionsOfStep([], s, scope);
      ActionsOfStep([], l, scope);
      ActionsOfStep([l], r, scope);
    }
    assert ActionsOf([s], ScopeOf(s)) == ActionsOf([l, r], ScopeOf(s));
  }

  lemma GrantsOfAppend(p: seq<Statement>, q: seq<Statement>)
    ensures HasDeny(p + q) == (HasDeny(p) || HasDeny(q))
    ensures AllowScopes(p + q) == AllowScopes(p) + AllowScopes(q)
    ensures forall scope :: ActionsOf(p + q, scope) == ActionsOf(p, scope) + ActionsOf(q, scope)
  {
    hide ScopeKey;
    assert forall s :: s in p + q <==> s in p || s in q;
  }

  lemma SameGrantsWithin(x: seq<Statement>, p: seq<Statement>, q: seq<Statement>, y: seq<Statement>)
    requires SameGrants(p, q)
    ensures SameGrants(x + p + y, x + q + y)
  {
    hide ScopeKey, HasDeny, AllowScopes, ActionsOf;
    GrantsOfAppend(x, p);
    GrantsOfAppend(x, q);
    GrantsOfAppend(x + p, y);
    GrantsOfAppend(x + q, y);
  }
}
