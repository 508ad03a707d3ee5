/**
 What resources and caveats mean, and when one is no broader than another. `ce_cap` is not part of
 this model: these are the meanings its documentation gives them. A child is no broader than its
 parent when everything it covers is covered by the parent, and the lemmas below show that the
 checks decide exactly that.
 */
module Narrowing {
  import opened Outcomes
  import opened Text
  import opened Principals
  import opened CapTypes

  // ---- resources ----

  predicate Matches(r: Resource, id: NodeId, tags: set<string>) {
    match r
    case Any => true
    case Node(n) => n == id
    case Tag(t) => t in tags
    case AllOf(ts) => forall t :: t in ts ==> t in tags
  }

  /** The tags a node must advertise; a node-pinned resource asks for none. */
  function Required(r: Resource): set<string> {
    match r
    case Tag(t) => {t}
    case AllOf(ts) => Elements(ts)
    case _ => {}
  }

  predicate IsSubsetOf(a: Resource, b: Resource) {
    if b.Node? then a == b
    else Required(b) == {} || (!a.Node? && Required(b) <= Required(a))
  }

  /** The subset check decides exactly whether every node matched by `a` is matched by `b`. */
  lemma SubsetExact(a: Resource, b: Resource)
    ensures IsSubsetOf(a, b) <==> forall id, tags :: Matches(a, id, tags) ==> Matches(b, id, tags)
  {
    forall id, tags ensures !b.Node? ==> (Matches(b, id, tags) <==> Required(b) <= tags) {
      if b.AllOf? && Required(b) <= tags { assert forall t :: t in b.tags ==> t in Required(b); }
    }
    if !IsSubsetOf(a, b) {
      var id: NodeId, tags := if a.Node? then a.id else if b.Node? then Other(b.id) else seq(32, _ => 0), Required(a);
      assert a.AllOf? ==> forall t :: t in a.tags ==> t in Required(a);
      assert Matches(a, id, tags) && !Matches(b, id, tags);
    } else {
      forall id, tags | Matches(a, id, tags) ensures Matches(b, id, tags) {
        assert !a.Node? ==> Required(a) <= tags;
      }
    }
  }

  function Other(id: NodeId): (o: NodeId)
    ensures o != id
  {
    var o := id[0 := if id[0] == 0 then 1 else 0];
    assert o[0] != id[0];
    o
  }

  lemma SubsetReflexive(a: Resource)
    ensures IsSubsetOf(a, a)
  {
  }

  lemma SubsetTransitive(a: Resource, b: Resource, c: Resource)
    requires IsSubsetOf(a, b) && IsSubsetOf(b, c)
    ensures IsSubsetOf(a, c)
  {
    SubsetExact(a, b);
    SubsetExact(b, c);
    SubsetExact(a, c);
  }

  // ---- caveats ----

  /** What a use of a grant asks for; `port` and `path` are absent when it opens no tunnel or file. */
  datatype Use = Use(time: nat, cpu: nat, memMb: nat, credits: nat, port: Option<nat>, path: Option<string>)

  predicate Within(ceiling: Option<nat>, amount: nat) {
    ceiling.Some? ==> amount <= ceiling.value
  }

  predicate Unexpired(c: Caveats, now: nat) {
    c.notAfter == 0 || now <= c.notAfter
  }

  function Prefix(p: Option<string>): string {
    match p
    case Some(s) => s
    case None => ""
  }

  predicate Permits(c: Caveats, u: Use) {
    && Unexpired(c, u.time)
    && Within(c.maxCpu, u.cpu) && Within(c.maxMemMb, u.memMb) && Within(c.maxCredits, u.credits)
    && (c.allowedPorts.Some? && u.port.Some? ==> u.port.value in c.allowedPorts.value)
    && (u.path.Some? ==> Prefix(c.pathPrefix) <= u.path.value)
  }

  predicate NoHigher(child: Option<nat>, parent: Option<nat>) {
    parent.Some? ==> child.Some? && child.value <= parent.value
  }

  /** A child can never raise a ceiling, widen the port set, escape the path prefix or outlive its
      parent. When it becomes active is not compared; that is checked at use, for every link. */
  predicate IsNarrowerOrEqual(child: Caveats, parent: Caveats) {
    && (parent.notAfter != 0 ==> child.notAfter != 0 && child.notAfter <= parent.notAfter)
    && NoHigher(child.maxCpu, parent.maxCpu)
    && NoHigher(child.maxMemMb, parent.maxMemMb)
    && NoHigher(child.maxCredits, parent.maxCredits)
    && (parent.allowedPorts.Some? ==>
          child.allowedPorts.Some? && forall p :: p in child.allowedPorts.value ==> p in parent.allowedPorts.value)
    && Prefix(parent.pathPrefix) <= Prefix(child.pathPrefix)
  }

  function Above(ps: seq<nat>): (n: nat)
    ensures forall p :: p in ps ==> p < n
  {
    if ps == [] then 0
    else
      var rest := Above(ps[1..]);
      assert forall p :: p in ps ==> p == ps[0] || p in ps[1..];
      if ps[0] < rest then rest else ps[0] + 1
  }

  /** The caveat check decides exactly whether every use the child permits is one the parent permits. */
  lemma NarrowerExact(child: Caveats, parent: Caveats)
    ensures IsNarrowerOrEqual(child, parent) <==> forall u :: Permits(child, u) ==> Permits(parent, u)
  {
    if !IsNarrowerOrEqual(child, parent) {
      var u := Escape(child, parent);
    }
  }

  /** A use that shows a child to be broader than its parent. */
  lemma Escape(child: Caveats, parent: Caveats) returns (u: Use)
    requires !IsNarrowerOrEqual(child, parent)
    ensures Permits(child, u) && !Permits(parent, u)
  {
    var none := Use(0, 0, 0, 0, None, None);
    if parent.notAfter != 0 && (child.notAfter == 0 || child.notAfter > parent.notAfter) {
      u := none.(time := parent.notAfter + 1);
    } else if !NoHigher(child.maxCpu, parent.maxCpu) {
      u := none.(cpu := parent.maxCpu.value + 1);
    } else if !NoHigher(child.maxMemMb, parent.maxMemMb) {
      u := none.(memMb := parent.maxMemMb.value + 1);
    } else if !NoHigher(child.maxCredits, parent.maxCredits) {
      u := none.(credits := parent.maxCredits.value + 1);
    } else if !(Prefix(parent.pathPrefix) <= Prefix(child.pathPrefix)) {
      u := none.(path := Some(Prefix(child.pathPrefix)));
    } else if child.allowedPorts.None? {
      u := none.(port := Some(Above(parent.allowedPorts.value)));
    } else {
      var p :| p in child.allowedPorts.value && p !in parent.allowedPorts.value;
      u := none.(port := Some(p));
    }
  }

  lemma NarrowerReflexive(c: Caveats)
    ensures IsNarrowerOrEqual(c, c)
  {
  }

  lemma NarrowerTransitive(a: Caveats, b: Caveats, c: Caveats)
    requires IsNarrowerOrEqual(a, b) && IsNarrowerOrEqual(b, c)
    ensures IsNarrowerOrEqual(a, c)
  {
    NarrowerExact(a, b);
    NarrowerExact(b, c);
    NarrowerExact(a, c);
  }
}

/**
 Grants: chains of signed capabilities that are minted, attenuated and verified. Signatures and
 link hashes are symbolic: a signature names its signer and the body it covers, and the hash of a
 link is as good as the link.
 */
module Chains {
  import opened Outcomes
  import opened Principals
  import opened Policies
  import opened Compiler
  import opened Narrowing
  import Cap = CapTypes

  datatype Capability = Capability(
    issuer: NodeId, audience: NodeId, abilities: seq<string>, resource: Cap.Resource, caveats: Cap.Caveats,
    nonce: nat, parent: Option<LinkId>)

  datatype LinkId = LinkId(of: Capability)

  datatype Signature = Signature(signer: NodeId, over: Capability)

  datatype SignedCapability = SignedCapability(cap: Capability, sig: Signature)

  type Chain = seq<SignedCapability>

  /** Holding the key of a node id. */
  datatype Identity = Identity(nodeId: NodeId)

  function Issue(signer: Identity, audience: NodeId, c: Compiled, nonce: nat, parent: Option<LinkId>): SignedCapability {
    var cap := Capability(signer.nodeId, audience, c.abilities, c.resource, c.caveats, nonce, parent);
    SignedCapability(cap, Signature(signer.nodeId, cap))
  }

  predicate SignatureOk(l: SignedCapability) {
    l.sig == Signature(l.cap.issuer, l.cap)
  }

  // ---- the contract of ce_cap::authorize (SECURITY.md) ----

  /** Who asks for what, where and when, and what is revoked. */
  datatype Request = Request(
    selfId: NodeId, tags: set<string>, now: nat, requester: NodeId, action: string, revoked: set<(NodeId, nat)>)

  predicate RootAccepted(roots: set<NodeId>, q: Request, chain: Chain)
    requires chain != []
  {
    chain[0].cap.issuer == q.selfId || chain[0].cap.issuer in roots
  }

  predicate Revoked(q: Request, l: SignedCapability) {
    (l.cap.issuer, l.cap.nonce) in q.revoked
  }

  predicate LinkOk(q: Request, l: SignedCapability) {
    && SignatureOk(l)
    && l.cap.caveats.notBefore <= q.now && Unexpired(l.cap.caveats, q.now)
    && !Revoked(q, l)
    && Matches(l.cap.resource, q.selfId, q.tags)
  }

  /** A link is issued by its parent's audience, names the parent and is no broader. */
  predicate Continues(parent: SignedCapability, child: SignedCapability) {
    && child.cap.issuer == parent.cap.audience
    && child.cap.parent == Some(LinkId(parent.cap))
    && (forall a :: a in child.cap.abilities ==> a in parent.cap.abilities)
    && IsSubsetOf(child.cap.resource, parent.cap.resource)
    && IsNarrowerOrEqual(child.cap.caveats, parent.cap.caveats)
  }

  function Leaf(chain: Chain): SignedCapability
    requires chain != []
  {
    chain[|chain| - 1]
  }

  predicate Authorized(roots: set<NodeId>, q: Request, chain: Chain) {
    && chain != []
    && RootAccepted(roots, q, chain)
    && (forall i :: 0 <= i < |chain| ==> LinkOk(q, chain[i]))
    && (forall i :: 0 < i < |chain| ==> Continues(chain[i - 1], chain[i]))
    && Leaf(chain).cap.audience == q.requester
    && q.action in Leaf(chain).cap.abilities
  }

  // ---- the service ----

  datatype Iam = Iam(universe: seq<string>, acceptedRoots: set<NodeId>, maxTokenBytes: nat, maxChainDepth: nat)

  const U64_MAX: nat := 0xFFFF_FFFF_FFFF_FFFF

  ghost function Mint(iam: Iam, issuer: Identity, audience: NodeId, policy: Policy, nonce: nat): Result<Chain, IamError> {
    match Compile(iam.universe, policy)
    case Err(e) => Err(e)
    case Ok(c) => Ok([Issue(issuer, audience, c, nonce, None)])
  }

  /** Sub-delegation: everything the verifier will check about the new link is checked before signing. */
  ghost function Attenuate(iam: Iam, holder: Identity, chain: Chain, audience: NodeId, narrower: Policy, nonce: nat): Result<Chain, IamError>
    requires chain != []
  {
    var leaf := Leaf(chain);
    if leaf.cap.audience != holder.nodeId then Err(WouldAmplify)
    else
      match Compile(iam.universe, narrower)
      case Err(e) => Err(e)
      case Ok(c) =>
        if !(forall a :: a in c.abilities ==> a in leaf.cap.abilities) then Err(WouldAmplify)
        else if !IsSubsetOf(c.resource, leaf.cap.resource) then Err(WouldAmplify)
        else if !IsNarrowerOrEqual(c.caveats, leaf.cap.caveats) then Err(WouldAmplify)
        else Ok(chain + [Issue(holder, audience, c, nonce, Some(LinkId(leaf.cap)))])
  }

  /** The grant of `mint_policy` for the scope at position `i`. */
  ghost function MintScope(iam: Iam, issuer: Identity, audience: NodeId, policy: Policy, baseNonce: nat, i: nat): (r: Result<Chain, IamError>)
    ensures r.Ok? ==> r.value != []
  {
    match CompileScopes(iam.universe, policy)
    case Err(e) => Err(e)
    case Ok(scopes) =>
      if i < |scopes| && baseNonce + |scopes| <= U64_MAX + 1 then Ok([Issue(issuer, audience, scopes[i], baseNonce + i, None)])
      else Err(BadPolicy)
  }

  /** One grant for each scope, with consecutive nonces; an error when they would not fit in 64 bits. */
  method MintPolicy(iam: Iam, issuer: Identity, audience: NodeId, policy: Policy, baseNonce: nat)
    returns (r: Result<seq<Chain>, IamError>)
    requires baseNonce <= U64_MAX
    ensures match CompileScopes(iam.universe, policy)
            case Err(e) => r == Err(e)
            case Ok(scopes) =>
              && (r.Ok? <==> baseNonce + |scopes| <= U64_MAX + 1)
              && (r.Err? ==> r.error == BadPolicy)
              && (r.Ok? ==>
                   && |r.value| == |scopes|
                   && forall i :: 0 <= i < |scopes| ==> r.value[i] == [Issue(issuer, audience, scopes[i], baseNonce + i, None)])
    ensures r.Ok? ==> forall i :: 0 <= i < |r.value| ==> MintScope(iam, issuer, audience, policy, baseNonce, i) == Ok(r.value[i])
  {
    hide CompileScopes;
    var compiled := CompilePolicyScopes(iam.universe, policy);
    match compiled {
      case Err(e) => return Err(e);
      case Ok(scopes) =>
        var out: seq<Chain> := [];
        for i := 0 to |scopes|
          invariant |out| == i && (i > 0 ==> baseNonce + i - 1 <= U64_MAX)
          invariant forall j :: 0 <= j < i ==> out[j] == [Issue(issuer, audience, scopes[j], baseNonce + j, None)]
        {
          if baseNonce + i > U64_MAX { return Err(BadPolicy); }
          out := out + [[Issue(issuer, audience, scopes[i], baseNonce + i, None)]];
        }
        r := Ok(out);
    }
  }

  /** A root grant re-signed by a new root key; an attenuated grant cannot be. */
  function ReissueUnder(newRoot: Identity, chain: Chain, nonce: nat): Result<Chain, IamError>
    requires chain != []
  {
    if |chain| != 1 then Err(WouldAmplify)
    else
      var leaf := Leaf(chain).cap;
      if leaf.parent.Some? then Err(WouldAmplify)
      else Ok([Issue(newRoot, leaf.audience, Compiled(leaf.abilities, leaf.resource, leaf.caveats), nonce, None)])
  }

  // ---- tokens ----

  /** A token as far as a verifier sees it: its length, and the chain it decodes to if it does. */
  datatype Token = Token(bytes: nat, decoded: Option<Chain>)

  /** Two hex digits for each byte of the links; how many bytes a link takes is left open. */
  function EncodedBytes(linkBytes: SignedCapability -> nat, chain: Chain): nat {
    if chain == [] then 0
    else EncodedBytes(linkBytes, chain[..|chain| - 1]) + 2 * linkBytes(chain[|chain| - 1])
  }

  function EncodeChain(linkBytes: SignedCapability -> nat, chain: Chain): Token {
    Token(EncodedBytes(linkBytes, chain), Some(chain))
  }

  function GuardedDecode(iam: Iam, token: Token): Result<Chain, IamError> {
    if token.bytes > iam.maxTokenBytes then Err(MalformedChain)
    else
      match token.decoded
      case None => Err(MalformedChain)
      case Some(chain) =>
        if chain == [] then Err(MalformedChain)
        else if |chain| > iam.maxChainDepth then Err(MalformedChain)
        else Ok(chain)
  }

  function Verify(iam: Iam, q: Request, token: Token): Result<(), IamError> {
    match GuardedDecode(iam, token)
    case Err(e) => Err(e)
    case Ok(chain) => if Authorized(iam.acceptedRoots, q, chain) then Ok(()) else Err(Denied)
  }

  /** A token is malformed exactly when it is too long, does not decode, or decodes to a chain that is
      empty or too deep; any other token is accepted or denied by its chain alone. */
  lemma VerifyExactly(iam: Iam, q: Request, token: Token)
    ensures var wellFormed := token.bytes <= iam.maxTokenBytes && token.decoded.Some? && 0 < |token.decoded.value| <= iam.maxChainDepth;
            Verify(iam, q, token)
            == if !wellFormed then Err(MalformedChain)
               else if Authorized(iam.acceptedRoots, q, token.decoded.value) then Ok(()) else Err(Denied)
  {
  }

  predicate WithinLimits(iam: Iam, linkBytes: SignedCapability -> nat, chain: Chain) {
    EncodedBytes(linkBytes, chain) <= iam.maxTokenBytes && |chain| <= iam.maxChainDepth
  }

  // ---- chains that this service builds ----

  /** How a chain came about: minted, minted for one scope of a policy with several, re-issued under
      a new root, or attenuated. The services may differ in their action universe from step to step. */
  datatype Derivation =
    | Minted(iam: Iam, issuer: Identity, audience: NodeId, policy: Policy, nonce: nat)
    | MintedScope(iam: Iam, issuer: Identity, audience: NodeId, policy: Policy, baseNonce: nat, scope: nat)
    | Reissued(from: Derivation, newRoot: Identity, nonce: nat)
    | Attenuated(from: Derivation, iam: Iam, holder: Identity, audience: NodeId, policy: Policy, nonce: nat)

  ghost function Build(d: Derivation): (r: Result<Chain, IamError>)
    ensures r.Ok? ==> r.value != []
  {
    match d
    case Minted(iam, issuer, audience, policy, nonce) => Mint(iam, issuer, audience, policy, nonce)
    case MintedScope(iam, issuer, audience, policy, baseNonce, scope) => MintScope(iam, issuer, audience, policy, baseNonce, scope)
    case Reissued(from, newRoot, nonce) =>
      (match Build(from)
       case Err(e) => Err(e)
       case Ok(chain) => ReissueUnder(newRoot, chain, nonce))
    case Attenuated(from, iam, holder, audience, policy, nonce) =>
      match Build(from)
      case Err(e) => Err(e)
      case Ok(chain) => Attenuate(iam, holder, chain, audience, policy, nonce)
  }

  /** Every link is signed by its issuer and continues the one before it. */
  predicate Linked(chain: Chain) {
    && (forall i :: 0 <= i < |chain| ==> SignatureOk(chain[i]))
    && (forall i :: 0 < i < |chain| ==> Continues(chain[i - 1], chain[i]))
  }

  lemma {:induction false} BuiltIsLinked(d: Derivation)
    requires Build(d).Ok?
    ensures Linked(Build(d).value) && Build(d).value != []
    ensures Build(d).value[0].cap.parent == None
  {
    hide Compile, CompileScopes, IsSubsetOf, IsNarrowerOrEqual;
    if d.Attenuated? { BuiltIsLinked(d.from); }
  }

  /** `attenuate` signs exactly the links that continue the chain: with a policy that compiles, it
      succeeds if and only if the link it would sign passes the verifier's attenuation check. */
  lemma AttenuateExact(iam: Iam, holder: Identity, chain: Chain, audience: NodeId, narrower: Policy, nonce: nat)
    requires chain != [] && Compile(iam.universe, narrower).Ok?
    ensures var c := Compile(iam.universe, narrower).value;
            var link := Issue(holder, audience, c, nonce, Some(LinkId(Leaf(chain).cap)));
            var r := Attenuate(iam, holder, chain, audience, narrower, nonce);
            && (r.Ok? <==> Continues(Leaf(chain), link))
            && (r.Ok? ==> r.value == chain + [link])
            && (r.Err? ==> r.error == WouldAmplify && forall roots, q :: !Authorized(roots, q, chain + [link]))
  {
    hide Compile, IsSubsetOf, IsNarrowerOrEqual;
    var link := Issue(holder, audience, Compile(iam.universe, narrower).value, nonce, Some(LinkId(Leaf(chain).cap)));
    var longer := chain + [link];
    assert longer[|chain| - 1] == Leaf(chain) && longer[|chain|] == link;
  }

  // ---- narrowing along a chain ----

  /** A later link is no broader than any earlier one. */
  lemma {:induction false} LaterIsNarrower(chain: Chain, i: nat, j: nat)
    requires Linked(chain) && i <= j < |chain|
    ensures forall a :: a in chain[j].cap.abilities ==> a in chain[i].cap.abilities
    ensures IsSubsetOf(chain[j].cap.resource, chain[i].cap.resource)
    ensures IsNarrowerOrEqual(chain[j].cap.caveats, chain[i].cap.caveats)
    decreases j - i
  {
    if i == j {
      SubsetReflexive(chain[i].cap.resource);
      NarrowerReflexive(chain[i].cap.caveats);
    } else {
      hide IsSubsetOf, IsNarrowerOrEqual;
      LaterIsNarrower(chain, i, j - 1);
      SubsetTransitive(chain[j].cap.resource, chain[j - 1].cap.resource, chain[i].cap.resource);
      NarrowerTransitive(chain[j].cap.caveats, chain[j - 1].cap.caveats, chain[i].cap.caveats);
    }
  }

  /** A leaf fixes the chain it can stand at the end of: of two linked chains with the same leaf, one
      ends with the links of the other. */
  lemma {:induction false} LeafFixesChain(a: Chain, b: Chain, n: nat)
    requires Linked(a) && Linked(b) && 0 < n <= |a| && n <= |b| && Leaf(a).cap == Leaf(b).cap
    ensures a[|a| - n..] == b[|b| - n..]
  {
    hide IsSubsetOf, IsNarrowerOrEqual;
    if n == 1 {
      assert a[|a| - 1] == b[|b| - 1];
    } else {
      LeafFixesChain(a, b, n - 1);
      var i, j := |a| - n, |b| - n;
      assert a[i + 1] == a[i + 1..][0] == b[j + 1..][0] == b[j + 1];
      assert Continues(a[i], a[i + 1]) && Continues(b[j], b[j + 1]);
      assert a[i..] == [a[i]] + a[i + 1..] && b[j..] == [b[j]] + b[j + 1..];
    }
  }

  /** What an authorized chain stands for, link by link: its root is accepted, and every link is signed
      by its issuer, active, unexpired, not revoked, lists the action and matches the node; each after
      the first is issued by the one that the link before it was given to, and names that link. */
  lemma AuthorizedChain(roots: set<NodeId>, q: Request, chain: Chain)
    requires Authorized(roots, q, chain)
    ensures chain != [] && (chain[0].cap.issuer == q.selfId || chain[0].cap.issuer in roots)
    ensures chain[|chain| - 1].cap.audience == q.requester
    ensures forall i :: 0 <= i < |chain| ==>
      var l := chain[i];
      && l.sig.signer == l.cap.issuer && l.sig.over == l.cap
      && l.cap.caveats.notBefore <= q.now && (l.cap.caveats.notAfter == 0 || q.now <= l.cap.caveats.notAfter)
      && (l.cap.issuer, l.cap.nonce) !in q.revoked
      && q.action in l.cap.abilities && Matches(l.cap.resource, q.selfId, q.tags)
    ensures forall i :: 0 < i < |chain| ==>
      chain[i].cap.issuer == chain[i - 1].cap.audience && chain[i].cap.parent == Some(LinkId(chain[i - 1].cap))
  {
    hide IsSubsetOf, IsNarrowerOrEqual, Matches;
    assert Linked(chain);
    forall i | 0 <= i < |chain| ensures LinkOk(q, chain[i]) && q.action in chain[i].cap.abilities {
      LaterIsNarrower(chain, i, |chain| - 1);
    }
  }

  /** Attenuation never amplifies: what the leaf allows is allowed by every link. */
  lemma LeafWithinEveryLink(chain: Chain, i: nat, id: NodeId, tags: set<string>, u: Use, action: string)
    requires Linked(chain) && i < |chain|
    requires action in Leaf(chain).cap.abilities
    requires Matches(Leaf(chain).cap.resource, id, tags) && Permits(Leaf(chain).cap.caveats, u)
    ensures action in chain[i].cap.abilities
    ensures Matches(chain[i].cap.resource, id, tags) && Permits(chain[i].cap.caveats, u)
  {
    hide IsSubsetOf, IsNarrowerOrEqual, Matches, Permits;
    LaterIsNarrower(chain, i, |chain| - 1);
    SubsetExact(Leaf(chain).cap.resource, chain[i].cap.resource);
    NarrowerExact(Leaf(chain).cap.caveats, chain[i].cap.caveats);
  }

  /** The check that is enough for a linked chain: its root, that no link is revoked or not yet
      active, and for the rest the leaf alone. */
  predicate ShortCheck(roots: set<NodeId>, q: Request, chain: Chain)
    requires chain != []
  {
    && RootAccepted(roots, q, chain)
    && (forall i :: 0 <= i < |chain| ==> !Revoked(q, chain[i]))
    && (forall i :: 0 <= i < |chain| ==> chain[i].cap.caveats.notBefore <= q.now)
    && Unexpired(Leaf(chain).cap.caveats, q.now)
    && Matches(Leaf(chain).cap.resource, q.selfId, q.tags)
    && Leaf(chain).cap.audience == q.requester
    && q.action in Leaf(chain).cap.abilities
  }

  lemma ShortCheckExact(roots: set<NodeId>, q: Request, chain: Chain)
    requires chain != [] && Linked(chain)
    ensures Authorized(roots, q, chain) <==> ShortCheck(roots, q, chain)
  {
    if ShortCheck(roots, q, chain) {
      forall i | 0 <= i < |chain| ensures LinkOk(q, chain[i]) {
        LaterIsNarrower(chain, i, |chain| - 1);
        SubsetExact(Leaf(chain).cap.resource, chain[i].cap.resource);
      }
    }
  }

  /** For every chain this service builds, verifying its token is the short check within the limits. */
  lemma VerifyBuiltExact(d: Derivation, iam: Iam, linkBytes: SignedCapability -> nat, q: Request)
    requires Build(d).Ok?
    ensures var chain := Build(d).value;
            Verify(iam, q, EncodeChain(linkBytes, chain)) == Ok(())
            <==> WithinLimits(iam, linkBytes, chain) && ShortCheck(iam.acceptedRoots, q, chain)
  {
    hide Build, Authorized, ShortCheck, Linked, EncodedBytes;
    BuiltIsLinked(d);
    ShortCheckExact(iam.acceptedRoots, q, Build(d).value);
  }

  lemma {:induction false} EncodedBytesGrow(linkBytes: SignedCapability -> nat, chain: Chain, n: nat)
    requires n <= |chain|
    ensures EncodedBytes(linkBytes, chain[..n]) <= EncodedBytes(linkBytes, chain)
    decreases |chain| - n
  {
    if n == |chain| {
      assert chain[..n] == chain;
    } else {
      EncodedBytesGrow(linkBytes, chain, n + 1);
      assert chain[..n + 1][..n] == chain[..n];
    }
  }

  /** If `verify` allows the holder an action, it allows every earlier holder the same action there
      and then, on the shorter chain that holder was given. */
  lemma PrefixAllowed(d: Derivation, iam: Iam, linkBytes: SignedCapability -> nat, q: Request, n: nat)
    requires Build(d).Ok? && 0 < n <= |Build(d).value|
    requires Verify(iam, q, EncodeChain(linkBytes, Build(d).value)) == Ok(())
    ensures var prefix := Build(d).value[..n];
            Verify(iam, q.(requester := Leaf(prefix).cap.audience), EncodeChain(linkBytes, prefix)) == Ok(())
  {
    hide Build, EncodedBytes, IsSubsetOf, IsNarrowerOrEqual, Matches, Unexpired, SignatureOk;
    var chain := Build(d).value;
    BuiltIsLinked(d);
    LaterIsNarrower(chain, n - 1, |chain| - 1);
    EncodedBytesGrow(linkBytes, chain, n);
    var prefix, p := chain[..n], q.(requester := chain[n - 1].cap.audience);
    assert forall i :: 0 <= i < n ==> prefix[i] == chain[i];
    forall i | 0 <= i < n ensures LinkOk(p, prefix[i]) { assert LinkOk(q, chain[i]); }
    assert Authorized(iam.acceptedRoots, p, prefix);
  }

  // ---- moving a root grant to a new root key ----

  /** The re-issued grant gives the verdicts of the original, with the new root in the old one's
      place. */
  lemma ReissueKeepsVerdicts(newRoot: Identity, chain: Chain, nonce: nat, roots: set<NodeId>, newRoots: set<NodeId>, q: Request)
    requires |chain| == 1 && SignatureOk(chain[0]) && ReissueUnder(newRoot, chain, nonce).Ok?
    requires RootAccepted(roots, q, chain)
    requires newRoot.nodeId == q.selfId || newRoot.nodeId in newRoots
    requires !Revoked(q, chain[0]) && (newRoot.nodeId, nonce) !in q.revoked
    ensures Authorized(roots, q, chain) <==> Authorized(newRoots, q, ReissueUnder(newRoot, chain, nonce).value)
  {
    hide Matches, Unexpired;
  }
}
