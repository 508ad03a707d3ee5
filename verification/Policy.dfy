/** The resources and caveats a capability carries; their meaning is in module Chains. */
module CapTypes {
  import opened Outcomes
  import opened Principals

  datatype Resource =
    | Any
    | Node(id: NodeId)
    | Tag(tag: string)
    | AllOf(tags: seq<string>)

  /** In `notBefore` and `notAfter` (unix seconds) 0 means no bound. */
  datatype Caveats = Caveats(
    notBefore: nat, notAfter: nat,
    maxCpu: Option<nat>, maxMemMb: Option<nat>, maxCredits: Option<nat>,
    allowedPorts: Option<seq<nat>>, pathPrefix: Option<string>)
}

/** Policies and roles, and the text form of a resource. */
module Policies {
  import opened Outcomes
  import opened Hex
  import Principals
  import Cap = CapTypes

  datatype Effect = Allow | Deny

  datatype ResourceMatch = Any | Node(id: string) | Tag(tag: string) | AllOf(tags: seq<string>)

  datatype Conditions = Conditions(
    notBefore: Option<nat>, notAfter: Option<nat>,
    maxCpu: Option<nat>, maxMemMb: Option<nat>, maxCredits: Option<nat>,
    allowedPorts: Option<seq<nat>>, pathPrefix: Option<string>)

  datatype Statement = Statement(
    sid: Option<string>, effect: Effect, actions: seq<string>, resource: ResourceMatch, conditions: Conditions)

  datatype Policy = Policy(version: string, statements: seq<Statement>)

  datatype Role = Role(name: string, description: Option<string>, policy: Policy)

  // ---- compiling to capability terms ----

  function ToCapResource(m: ResourceMatch): Result<Cap.Resource, IamError> {
    match m
    case Any => Ok(Cap.Any)
    case Node(h) =>
      (match Decode(Trim(h))
       case Some(bytes) => if |bytes| == 32 then Ok(Cap.Node(bytes)) else Err(BadResource)
       case None => Err(BadResource))
    case Tag(t) => if t == "" then Err(BadResource) else Ok(Cap.Tag(t))
    case AllOf(ts) => if ts == [] then Err(BadResource) else Ok(Cap.AllOf(ts))
  }

  function OrZero(n: Option<nat>): nat {
    match n
    case Some(v) => v
    case None => 0
  }

  function ToCaveats(c: Conditions): Cap.Caveats {
    Cap.Caveats(OrZero(c.notBefore), OrZero(c.notAfter), c.maxCpu, c.maxMemMb, c.maxCredits, c.allowedPorts, c.pathPrefix)
  }

  // ---- the text form ----

  /** `split(',')`: always at least one piece. */
  function Split(s: string): (r: seq<string>)
    ensures |r| > 0
  {
    if s == "" then [""]
    else
      var rest := Split(s[1..]);
      if s[0] == ',' then [""] + rest else [[s[0]] + rest[0]] + rest[1..]
  }

  function Join(ts: seq<string>): string {
    if ts == [] then ""
    else if |ts| == 1 then ts[0]
    else ts[0] + ("," + Join(ts[1..]))
  }

  function TrimmedNonEmpty(pieces: seq<string>): seq<string> {
    if pieces == [] then []
    else
      var t := Trim(pieces[0]);
      (if t == "" then [] else [t]) + TrimmedNonEmpty(pieces[1..])
  }

  function Parse(text: string): Result<ResourceMatch, IamError> {
    var s := Trim(text);
    if s == "*" || Lower(s) == "any" then Ok(Any)
    else if "tag:" <= s then Ok(Tag(Trim(s[4..])))
    else if "all-of:" <= s then
      var tags := TrimmedNonEmpty(Split(s[7..]));
      if tags == [] then Err(BadResource) else Ok(AllOf(tags))
    else
      match Decode(s)
      case Some(bytes) => if |bytes| == 32 then Ok(Node(Lower(s))) else Err(BadResource)
      case None => Err(BadResource)
  }

  /** `render_resource`: the spelling that `Parse` reads. */
  function Render(r: Cap.Resource): string {
    match r
    case Any => "*"
    case Node(n) => Encode(n)
    case Tag(t) => "tag:" + t
    case AllOf(ts) => "all-of:" + Join(ts)
  }

  // ---- printing and parsing undo each other ----

  predicate PlainTag(t: string) {
    t != "" && Trimmed(t) && ',' !in t
  }

  /** The matches that are spelled the way `Parse` would spell them. */
  predicate Canonical(m: ResourceMatch) {
    match m
    case Any => true
    case Node(h) => Decode(h).Some? && |h| == 64 && Lower(h) == h
    case Tag(t) => t != "" && Trimmed(t)
    case AllOf(ts) => ts != [] && forall t :: t in ts ==> PlainTag(t)
  }

  lemma {:induction false} SplitAtComma(t: string, s: string)
    requires ',' !in t
    ensures Split(t) == [t]
    ensures Split(t + ("," + s)) == [t] + Split(s)
  {
    if t == "" {
      assert "" + ("," + s) == "," + s && ("," + s)[1..] == s;
    } else {
      SplitAtComma(t[1..], s);
      assert (t + ("," + s))[1..] == t[1..] + ("," + s);
      assert t == [t[0]] + t[1..];
    }
  }

  lemma {:induction false} JoinEnds(ts: seq<string>)
    requires ts != [] && forall t :: t in ts ==> PlainTag(t)
    ensures Join(ts) != "" && !IsSpace(Join(ts)[|Join(ts)| - 1])
  {
    hide IsSpace;
    assert PlainTag(ts[0]);
    if |ts| > 1 { JoinEnds(ts[1..]); }
  }

  lemma {:induction false} SplitJoin(ts: seq<string>)
    requires ts != [] && forall t :: t in ts ==> PlainTag(t)
    ensures TrimmedNonEmpty(Split(Join(ts))) == ts
  {
    hide IsSpace, Trim, Split;
    assert PlainTag(ts[0]);
    TrimNothing(ts[0]);
    var rest := if |ts| == 1 then "" else Join(ts[1..]);
    SplitAtComma(ts[0], rest);
    if |ts| == 1 {
      assert TrimmedNonEmpty([ts[0]]) == [ts[0]] + TrimmedNonEmpty([]);
    } else {
      SplitJoin(ts[1..]);
      assert ([ts[0]] + Split(rest))[1..] == Split(rest);
      assert ts == [ts[0]] + ts[1..];
    }
  }

  lemma {:induction false} SplitPieces(s: string)
    ensures forall t :: t in Split(s) ==> ',' !in t
  {
    if s != "" { SplitPieces(s[1..]); }
  }

  lemma {:induction false} TrimmedPieces(pieces: seq<string>)
    requires forall t :: t in pieces ==> ',' !in t
    ensures forall t :: t in TrimmedNonEmpty(pieces) ==> PlainTag(t)
  {
    if pieces != [] {
      var t := pieces[0];
      TrimClean(t);
      TrimKeeps(t);
      TrimmedPieces(pieces[1..]);
    }
  }

  lemma TrimKeeps(s: string)
    ensures forall c :: c in Trim(s) ==> c in s
  {
    TrimStartKeeps(s);
    TrimEndClean(TrimStart(s));
  }

  lemma {:induction false} TrimStartKeeps(s: string)
    ensures forall c :: c in TrimStart(s) ==> c in s
  {
    if s != "" && IsSpace(s[0]) { TrimStartKeeps(s[1..]); }
  }

  /** What `Parse` returns is canonical, except that `tag:` alone gives the empty tag. */
  lemma ParseIsCanonical(text: string)
    requires Parse(text).Ok?
    ensures Canonical(Parse(text).value) || Parse(text).value == Tag("")
  {
    var s := Trim(text);
    if s == "*" || Lower(s) == "any" {
    } else if "tag:" <= s {
      TrimClean(s[4..]);
    } else if "all-of:" <= s {
      SplitPieces(s[7..]);
      TrimmedPieces(Split(s[7..]));
    } else {
      EncodeDecode(s);
      LowerIdempotent(s);
    }
  }

  lemma ParseNode(h: string)
    requires Canonical(Node(h))
    ensures Parse(h) == Ok(Node(h)) && ToCapResource(Node(h)) == Ok(Cap.Node(Decode(h).value))
    ensures Encode(Decode(h).value) == h
  {
    hide IsSpace, Decode, Encode;
    DecodedHasNoSpace(h);
    TrimNothing(h);
    EncodeDecode(h);
    assert HexValue(h[0]).Some? && HexValue(h[1]).Some?;
  }

  lemma ParseTag(t: string)
    requires Canonical(Tag(t))
    ensures Parse("tag:" + t) == Ok(Tag(t))
  {
    hide Decode, Lower;
    var s := "tag:" + t;
    TrimNothing(s);
    TrimNothing(t);
    assert s[4..] == t && |Lower(s)| > 3;
  }

  lemma ParseAllOf(ts: seq<string>)
    requires Canonical(AllOf(ts))
    ensures Parse("all-of:" + Join(ts)) == Ok(AllOf(ts))
  {
    hide Decode, Lower, Split, TrimmedNonEmpty, Join;
    SplitJoin(ts);
    JoinEnds(ts);
    var s := "all-of:" + Join(ts);
    TrimNothing(s);
    assert s[7..] == Join(ts) && |Lower(s)| > 3 && s[0] == 'a';
  }

  lemma RenderCanonical(m: ResourceMatch)
    requires Canonical(m)
    ensures ToCapResource(m).Ok?
    ensures Parse(Render(ToCapResource(m).value)) == Ok(m)
  {
    match m
    case Any =>
      assert Parse("*") == Ok(ResourceMatch.Any) by { TrimNothing("*"); }
    case Node(h) =>
      hide Parse, Canonical, Decode;
      ParseNode(h);
    case Tag(t) =>
      ParseTag(t);
    case AllOf(ts) =>
      ParseAllOf(ts);
  }

  /** For every resource match that compiles, rendering and parsing gives it back exactly when it
      is canonical. */
  lemma RenderParseExact(m: ResourceMatch)
    requires ToCapResource(m).Ok?
    ensures Parse(Render(ToCapResource(m).value)) == Ok(m) <==> Canonical(m)
  {
    if Canonical(m) {
      RenderCanonical(m);
    } else if Parse(Render(ToCapResource(m).value)) == Ok(m) {
      ParseIsCanonical(Render(ToCapResource(m).value));
    }
  }

  /** For every text that parses and compiles, print and parse undo each other. */
  lemma ParseRenderRoundTrip(text: string)
    requires Parse(text).Ok? && ToCapResource(Parse(text).value).Ok?
    ensures Parse(Render(ToCapResource(Parse(text).value).value)) == Parse(text)
  {
    ParseIsCanonical(text);
    RenderCanonical(Parse(text).value);
  }

  // ---- which texts spell which match ----

  /** `split` undoes `join`: the pieces between the commas, in order. */
  lemma {:induction false} SplitExact(s: string)
    ensures Join(Split(s)) == s && forall t :: t in Split(s) ==> ',' !in t
  {
    SplitPieces(s);
    if s != "" {
      SplitExact(s[1..]);
      var rest := Split(s[1..]);
      assert s == [s[0]] + s[1..];
      if s[0] == ',' {
        assert ([""] + rest)[1..] == rest;
      } else {
        assert ([[s[0]] + rest[0]] + rest[1..])[1..] == rest[1..];
      }
    }
  }

  lemma {:induction false} NonBlankPieces(pieces: seq<string>)
    ensures forall t :: t in TrimmedNonEmpty(pieces) <==> t != "" && exists x :: x in pieces && Trim(x) == t
  {
    hide Trim;
    if pieces != [] {
      NonBlankPieces(pieces[1..]);
      assert forall x :: x in pieces <==> x == pieces[0] || x in pieces[1..];
    }
  }

  /** The trimmed text `s` spells the match. */
  ghost predicate Spells(s: string, m: ResourceMatch) {
    match m
    case Any => s == "*" || Lower(s) == "any"
    case Node(h) => h == Lower(s) && exists p :: Principals.HexOf(p) == h
    case Tag(t) => "tag:" <= s && t == Trim(s[4..])
    case AllOf(ts) => "all-of:" <= s && ts != [] && ts == TrimmedNonEmpty(Split(s[7..]))
  }

  lemma SpellsNode(s: string)
    ensures Decode(s).Some? && |Decode(s).value| == 32 <==> exists p :: Principals.HexOf(p) == Lower(s)
  {
    hide Decode, Encode, Lower;
    if Decode(s).Some? && |Decode(s).value| == 32 {
      EncodeDecode(s);
      assert Principals.HexOf(Principals.Principal(Decode(s).value)) == Lower(s);
    }
    if p :| Principals.HexOf(p) == Lower(s) {
      DecodeEncode(p.id);
      LowerDecodes(s);
      EncodeDecode(s);
    }
  }

  /** `parse` gives a match exactly when the trimmed text spells it, and otherwise reports a bad
      resource. */
  lemma ParseExactly(text: string, m: ResourceMatch)
    ensures Parse(text) == Ok(m) <==> Spells(Trim(text), m)
    ensures Parse(text).Err? ==> Parse(text).error == BadResource
  {
    hide Trim, Decode, Split, TrimmedNonEmpty;
    var s := Trim(text);
    SpellsNode(s);
    HexLength(s);
    assert |Lower(s)| == |s|;
    if "tag:" <= s || "all-of:" <= s {
      NotHex(s);
      assert |s| >= 4;
    }
  }

  lemma HexLength(s: string)
    ensures (exists p :: Principals.HexOf(p) == Lower(s)) ==> |s| == 64
  {
  }

  lemma NotHex(s: string)
    requires "tag:" <= s || "all-of:" <= s
    ensures Decode(s).None?
  {
    hide Decode, IsSpace;
    assert HexValue(s[0]).None? || HexValue(s[1]).None?;
    if Decode(s).Some? { DecodedHasNoSpace(s); }
  }
}
