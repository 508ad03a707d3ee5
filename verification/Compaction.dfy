/** The minimal log that compaction writes, what replaying it gives, and how long it is. */
module Compaction {
  import opened Outcomes
  import opened Text
  import opened Hex
  import opened Principals
  import opened Catalogs

  function RoleEntry(s: State, name: string): Entry
    requires name in s.roles
  {
    Entry(PutRole(s.roles[name]), None)
  }

  function PolicyEntry(s: State, name: string): Entry
    requires name in s.policies
  {
    Entry(PutPolicy(name, s.policies[name]), None)
  }

  function RoleEntries(s: State, names: seq<string>): seq<Entry>
    requires forall n :: n in names ==> n in s.roles
  {
    seq(|names|, i requires 0 <= i < |names| => RoleEntry(s, names[i]))
  }

  function PolicyEntries(s: State, names: seq<string>): seq<Entry>
    requires forall n :: n in names ==> n in s.policies
  {
    seq(|names|, i requires 0 <= i < |names| => PolicyEntry(s, names[i]))
  }

  function AttachEntries(p: Principal, roles: seq<string>): seq<Entry> {
    seq(|roles|, i requires 0 <= i < |roles| => Entry(AttachRole(p, roles[i]), None))
  }

  /** The attachments of the given principals, in order; a key that is no principal's hex is skipped. */
  function AttachmentEntries(s: State, hexes: seq<string>): seq<Entry>
    requires forall h :: h in hexes ==> h in s.attachments
  {
    if hexes == [] then []
    else
      var last := |hexes| - 1;
      AttachmentEntries(s, hexes[..last])
      + match Principals.Parse(hexes[last])
        case Ok(p) => AttachEntries(p, s.attachments[hexes[last]])
        case Err(_) => []
  }

  function Keys<V>(m: map<string, V>): (ks: seq<string>)
    ensures StrictlySorted(ks) && Elements(ks) == m.Keys && |ks| == |m|
    ensures forall k :: k in ks <==> k in m
  {
    var ks := Ordered(m.Keys);
    assert forall k :: k in ks <==> k in Elements(ks);
    ks
  }

  function CompactLog(s: State): seq<Entry> {
    RoleEntries(s, Keys(s.roles)) + PolicyEntries(s, Keys(s.policies)) + AttachmentEntries(s, Keys(s.attachments))
  }

  ghost predicate SameContent(a: State, b: State) {
    a.roles == b.roles && a.policies == b.policies && a.attachments == b.attachments
  }

  // ---- replaying the compacted log ----

  function Restrict<V>(m: map<string, V>, names: seq<string>): map<string, V> {
    map n | n in names && n in m :: m[n]
  }

  lemma RestrictStep<V>(m: map<string, V>, names: seq<string>, n: string)
    requires n in m
    ensures Restrict(m, names + [n]) == Restrict(m, names)[n := m[n]]
  {
  }

  lemma RestrictAll<V>(m: map<string, V>)
    ensures Restrict(m, Keys(m)) == m
  {
  }

  /** What one more entry does to the roles, policies and attachments. */
  lemma ReplaySnoc(st: State, log: seq<Entry>, e: Entry)
    ensures SameContent(ReplayFrom(st, log + [e]), Content(ReplayFrom(st, log), e.op))
  {
    hide Content;
    assert (log + [e])[..|log|] == log;
  }

  lemma {:induction false} ReplayRoles(st: State, s: State, names: seq<string>)
    requires forall n :: n in names ==> n in s.roles && s.roles[n].name == n
    ensures SameContent(ReplayFrom(st, RoleEntries(s, names)), st.(roles := st.roles + Restrict(s.roles, names)))
  {
    hide Apply, Restrict;
    if names == [] {
      assert Restrict(s.roles, []) == map[] by { EmptyRestrict(s.roles); }
    } else {
      var n := |names| - 1;
      ReplayRoles(st, s, names[..n]);
      assert names == names[..n] + [names[n]];
      assert RoleEntries(s, names) == RoleEntries(s, names[..n]) + [RoleEntry(s, names[n])];
      ReplaySnoc(st, RoleEntries(s, names[..n]), RoleEntry(s, names[n]));
      RestrictStep(s.roles, names[..n], names[n]);
    }
  }

  lemma EmptyRestrict<V>(m: map<string, V>)
    ensures Restrict(m, []) == map[]
  {
  }

  lemma {:induction false} ReplayPolicies(st: State, s: State, names: seq<string>)
    requires forall n :: n in names ==> n in s.policies
    ensures SameContent(ReplayFrom(st, PolicyEntries(s, names)), st.(policies := st.policies + Restrict(s.policies, names)))
  {
    hide Apply, Restrict;
    if names == [] {
      assert Restrict(s.policies, []) == map[] by { EmptyRestrict(s.policies); }
    } else {
      var n := |names| - 1;
      ReplayPolicies(st, s, names[..n]);
      assert names == names[..n] + [names[n]];
      assert PolicyEntries(s, names) == PolicyEntries(s, names[..n]) + [PolicyEntry(s, names[n])];
      ReplaySnoc(st, PolicyEntries(s, names[..n]), PolicyEntry(s, names[n]));
      RestrictStep(s.policies, names[..n], names[n]);
    }
  }

  function Assigned(attachments: map<string, seq<string>>, hex: string, roles: seq<string>): map<string, seq<string>> {
    if roles == [] then attachments else attachments[hex := roles]
  }

  lemma AttachOnlyHere(attachments: map<string, seq<string>>, hex: string, name: string)
    ensures Attach(attachments, hex, name) == attachments[hex := Attach(attachments, hex, name)[hex]]
  {
    hide Sort;
  }

  lemma AttachedEntry(attachments: map<string, seq<string>>, hex: string, roles: seq<string>, x: string)
    requires hex !in attachments && StrictlySorted(roles) && StrictlySorted(roles + [x])
    ensures Attach(Assigned(attachments, hex, roles), hex, x)[hex] == roles + [x]
  {
    hide Sort, Less, Ordered, Elements, StrictlySorted, Attach;
    AttachSorted(Assigned(attachments, hex, roles), hex, x);
    ElementsAppend(roles, x);
    NoElements(roles);
    SortedUnique(Ordered(Elements(roles + [x])), roles + [x]);
  }

  lemma AttachNext(attachments: map<string, seq<string>>, hex: string, roles: seq<string>, x: string)
    requires hex !in attachments && StrictlySorted(roles + [x])
    ensures Attach(Assigned(attachments, hex, roles), hex, x) == Assigned(attachments, hex, roles + [x])
  {
    SortedPrefix(roles, x);
    hide Attach, StrictlySorted;
    AttachedEntry(attachments, hex, roles, x);
    AttachOnlyHere(Assigned(attachments, hex, roles), hex, x);
  }

  lemma SortedPrefix(roles: seq<string>, x: string)
    requires StrictlySorted(roles + [x])
    ensures StrictlySorted(roles)
  {
    hide Less;
    assert forall i :: 0 <= i < |roles| ==> (roles + [x])[i] == roles[i];
  }

  /** Attaching a sorted list one by one gives that list. */
  lemma {:induction false} ReplayAttach(st: State, p: Principal, roles: seq<string>)
    requires HexOf(p) !in st.attachments && StrictlySorted(roles)
    ensures SameContent(ReplayFrom(st, AttachEntries(p, roles)), st.(attachments := Assigned(st.attachments, HexOf(p), roles)))
  {
    hide HexOf, Less, Apply, Attach;
    if roles != [] {
      var n := |roles| - 1;
      ReplayAttach(st, p, roles[..n]);
      var e := Entry(AttachRole(p, roles[n]), None);
      assert AttachEntries(p, roles) == AttachEntries(p, roles[..n]) + [e];
      ReplaySnoc(st, AttachEntries(p, roles[..n]), e);
      assert roles == roles[..n] + [roles[n]];
      AttachNext(st.attachments, HexOf(p), roles[..n], roles[n]);
    }
  }

  /** One more principal: its list is attached as it stands. */
  lemma ReplayNextPrincipal(st: State, s: State, hexes: seq<string>, h: string)
    requires Coherent(s) && h in s.attachments && forall k :: k in hexes ==> k in s.attachments
    requires h !in ReplayFrom(st, AttachmentEntries(s, hexes)).attachments
    ensures var before := ReplayFrom(st, AttachmentEntries(s, hexes));
            SameContent(ReplayFrom(st, AttachmentEntries(s, hexes + [h])), before.(attachments := before.attachments[h := s.attachments[h]]))
  {
    hide HexOf, Principals.Parse, StrictlySorted, ReplayFrom, Coherent;
    assert (hexes + [h])[..|hexes|] == hexes;
    AttachmentOf(s, h);
    var p :| HexOf(p) == h;
    ParseHex(p);
    var entries := AttachEntries(p, s.attachments[h]);
    assert AttachmentEntries(s, hexes + [h]) == AttachmentEntries(s, hexes) + entries;
    ReplayInParts(st, AttachmentEntries(s, hexes), entries);
    ReplayAttach(ReplayFrom(st, AttachmentEntries(s, hexes)), p, s.attachments[h]);
  }

  lemma {:induction false} ReplayAttachments(st: State, s: State, hexes: seq<string>)
    requires Coherent(s) && Distinct(hexes)
    requires forall h :: h in hexes ==> h in s.attachments && h !in st.attachments
    ensures SameContent(ReplayFrom(st, AttachmentEntries(s, hexes)),
                        st.(attachments := st.attachments + Restrict(s.attachments, hexes)))
  {
    hide Coherent;
    if hexes == [] {
      EmptyRestrict(s.attachments);
    } else {
      hide Apply, Restrict, AttachmentEntries, ReplayFrom;
      var n := |hexes| - 1;
      ReplayAttachments(st, s, hexes[..n]);
      assert hexes == hexes[..n] + [hexes[n]] && hexes[n] in hexes && hexes[n] !in hexes[..n];
      RestrictKeys(s.attachments, hexes[..n], hexes[n]);
      ReplayNextPrincipal(st, s, hexes[..n], hexes[n]);
      RestrictNext(st.attachments, s.attachments, hexes[..n], hexes[n]);
    }
  }

  lemma RestrictNext<V>(base: map<string, V>, m: map<string, V>, names: seq<string>, n: string)
    requires n in m
    ensures base + Restrict(m, names + [n]) == (base + Restrict(m, names))[n := m[n]]
  {
  }

  lemma RestrictKeys<V>(m: map<string, V>, names: seq<string>, n: string)
    requires n !in names
    ensures n !in Restrict(m, names)
  {
  }

  lemma EmptyPlus<V>(m: map<string, V>)
    ensures map[] + m == m
  {
  }

  lemma FiledNames(s: State)
    requires Coherent(s)
    ensures forall n :: n in Keys(s.roles) ==> n in s.roles && s.roles[n].name == n
  {
    hide Trim, Keys, AttachmentsSound, PoliciesNamed;
  }

  lemma CompactedRoles(s: State)
    requires Coherent(s)
    ensures SameContent(Replay(RoleEntries(s, Keys(s.roles))), EMPTY.(roles := s.roles))
  {
    FiledNames(s);
    hide Coherent, ReplayFrom, Restrict, Keys, RoleEntries;
    ReplayRoles(EMPTY, s, Keys(s.roles));
    RestrictAll(s.roles);
    EmptyPlus(s.roles);
  }

  lemma CompactedPolicies(st: State, s: State)
    requires st.policies == map[]
    ensures SameContent(ReplayFrom(st, PolicyEntries(s, Keys(s.policies))), st.(policies := s.policies))
  {
    hide ReplayFrom, Restrict, Keys, PolicyEntries;
    ReplayPolicies(st, s, Keys(s.policies));
    RestrictAll(s.policies);
    EmptyPlus(s.policies);
  }

  lemma CompactedAttachments(st: State, s: State)
    requires Coherent(s) && st.attachments == map[]
    ensures SameContent(ReplayFrom(st, AttachmentEntries(s, Keys(s.attachments))), st.(attachments := s.attachments))
  {
    hide Coherent, ReplayFrom, Restrict, Keys, AttachmentEntries;
    SortedDistinct(Keys(s.attachments));
    ReplayAttachments(st, s, Keys(s.attachments));
    RestrictAll(s.attachments);
    EmptyPlus(s.attachments);
  }

  /** Replaying the compacted log reproduces the roles, policies and attachments exactly. */
  lemma CompactReplays(s: State)
    requires Coherent(s)
    ensures SameContent(Replay(CompactLog(s)), s)
    ensures Coherent(Replay(CompactLog(s)))
  {
    hide Coherent, ReplayFrom, Keys, RoleEntries, PolicyEntries, AttachmentEntries;
    var roles, policies := RoleEntries(s, Keys(s.roles)), PolicyEntries(s, Keys(s.policies));
    var attachments := AttachmentEntries(s, Keys(s.attachments));
    CompactedRoles(s);
    var a := ReplayFrom(EMPTY, roles);
    CompactedPolicies(a, s);
    CompactedAttachments(ReplayFrom(a, policies), s);
    ReplayInParts(EMPTY, roles, policies);
    ReplayInParts(EMPTY, roles + policies, attachments);
    CoherentContent(s, Replay(CompactLog(s)));
  }

  lemma SortedDistinct(ks: seq<string>)
    requires StrictlySorted(ks)
    ensures Distinct(ks)
  {
    hide Leq;
  }

  lemma CoherentContent(a: State, b: State)
    requires Coherent(a) && SameContent(a, b)
    ensures Coherent(b)
  {
  }

  /** Compacting what a compacted log gives writes the same log again. */
  lemma CompactTwice(s: State)
    requires Coherent(s)
    ensures CompactLog(Replay(CompactLog(s))) == CompactLog(s)
  {
    hide Coherent;
    CompactReplays(s);
    CompactFromContent(s, Replay(CompactLog(s)));
  }

  lemma CompactFromContent(a: State, b: State)
    requires SameContent(a, b)
    ensures CompactLog(a) == CompactLog(b)
  {
    assert RoleEntries(a, Keys(a.roles)) == RoleEntries(b, Keys(b.roles));
    assert PolicyEntries(a, Keys(a.policies)) == PolicyEntries(b, Keys(b.policies));
    SameAttachmentEntries(a, b, Keys(a.attachments));
  }

  lemma {:induction false} SameAttachmentEntries(a: State, b: State, hexes: seq<string>)
    requires a.attachments == b.attachments && forall h :: h in hexes ==> h in a.attachments
    ensures AttachmentEntries(a, hexes) == AttachmentEntries(b, hexes)
  {
    if hexes != [] { SameAttachmentEntries(a, b, hexes[..|hexes| - 1]); }
  }

  // ---- how long it is ----

  function Pairs(attachments: map<string, seq<string>>): set<(string, string)> {
    set h, r | h in attachments && r in attachments[h] :: (h, r)
  }

  /** The number of live roles, policies and attachments. */
  function Live(s: State): nat {
    |s.roles.Keys| + |s.policies.Keys| + |Pairs(s.attachments)|
  }

  lemma {:induction false} SubsetSize<T>(a: set<T>, b: set<T>)
    requires a <= b
    ensures |a| <= |b|
  {
    if a != {} {
      var x :| x in a;
      SubsetSize(a - {x}, b - {x});
    }
  }

  lemma OneMore<T>(a: set<T>, b: set<T>, x: T)
    requires a <= b + {x}
    ensures |a| <= |b| + 1
  {
    SubsetSize(a, b + {x});
    if x in b { assert b + {x} == b; }
  }

  lemma SortElements(s: seq<string>)
    ensures Elements(Sort(s)) == Elements(s)
  {
    SameElements(Sort(s), s);
  }

  /** One operation adds at most one live object. */
  lemma LiveStep(s: State, op: Op, actor: Option<Principal>)
    ensures Live(Apply(s, op, actor)) <= Live(s) + 1
  {
    hide HexOf, AuditAction, AuditTarget, Sort;
    var t := Apply(s, op, actor);
    match op
    case PutRole(r) => OneMore(t.roles.Keys, s.roles.Keys, r.name);
    case PutPolicy(n, _) => OneMore(t.policies.Keys, s.policies.Keys, n);
    case RemoveRole(n) =>
      SubsetSize(t.roles.Keys, s.roles.Keys);
      SubsetSize(Pairs(t.attachments), Pairs(s.attachments));
    case RemovePolicy(n) => SubsetSize(t.policies.Keys, s.policies.Keys);
    case AttachRole(p, r) =>
      AttachPairs(s.attachments, HexOf(p), r);
      OneMore(Pairs(t.attachments), Pairs(s.attachments), (HexOf(p), r));
    case DetachRole(p, r) => SubsetSize(Pairs(t.attachments), Pairs(s.attachments));
  }

  lemma AttachPairs(attachments: map<string, seq<string>>, hex: string, name: string)
    ensures Pairs(Attach(attachments, hex, name)) <= Pairs(attachments) + {(hex, name)}
  {
    hide Sort;
    var entry := if hex in attachments then attachments[hex] else [];
    SortElements(entry + [name]);
    ElementsAppend(entry, name);
    forall h, r | h in Attach(attachments, hex, name) && r in Attach(attachments, hex, name)[h]
      ensures (h, r) in Pairs(attachments) + {(hex, name)}
    {
      if h == hex && r != name { assert r in entry || r in Elements(Sort(entry + [name])); }
    }
  }

  /** Live objects never outnumber the operations of the log. */
  lemma {:induction false} LiveBounded(log: seq<Entry>)
    ensures Live(Replay(log)) <= |log|
  {
    if log != [] {
      var n := |log| - 1;
      LiveBounded(log[..n]);
      LiveStep(Replay(log[..n]), log[n].op, ActorOf(log[n]));
    }
  }

  lemma {:induction false} PairsOfOne(h: string, roles: seq<string>)
    requires Distinct(roles)
    ensures |set r | r in roles :: (h, r)| == |roles|
  {
    if roles != [] {
      var n := |roles| - 1;
      PairsOfOne(h, roles[..n]);
      assert (set r | r in roles :: (h, r)) == (set r | r in roles[..n] :: (h, r)) + {(h, roles[n])} by {
        assert roles == roles[..n] + [roles[n]];
      }
      assert roles[n] !in roles[..n];
    }
  }

  lemma AttachmentOf(s: State, h: string)
    requires Coherent(s) && h in s.attachments
    ensures IsHex(h) && s.attachments[h] != [] && StrictlySorted(s.attachments[h])
  {
    hide RolesFiled, PoliciesNamed, StrictlySorted, HexOf;
  }

  lemma {:induction false} AttachmentCount(s: State, hexes: seq<string>)
    requires Coherent(s) && Distinct(hexes) && forall h :: h in hexes ==> h in s.attachments
    ensures |AttachmentEntries(s, hexes)| == |set h, r | h in hexes && r in s.attachments[h] :: (h, r)|
  {
    hide HexOf, Principals.Parse, StrictlySorted, Coherent;
    if hexes != [] {
      var n := |hexes| - 1;
      var h := hexes[n];
      AttachmentCount(s, hexes[..n]);
      assert h in hexes && h !in hexes[..n] && hexes == hexes[..n] + [h];
      AttachmentOf(s, h);
      var p :| HexOf(p) == h;
      ParseHex(p);
      SortedDistinct(s.attachments[h]);
      PairsOfOne(h, s.attachments[h]);
      var before := set h, r | h in hexes[..n] && r in s.attachments[h] :: (h, r);
      var these := set r | r in s.attachments[h] :: (h, r);
      assert (set h, r | h in hexes && r in s.attachments[h] :: (h, r)) == before + these;
      assert before !! these;
    }
  }

  lemma PairsByKeys(attachments: map<string, seq<string>>)
    ensures (set h, r | h in Keys(attachments) && r in attachments[h] :: (h, r)) == Pairs(attachments)
  {
    hide Ordered;
  }

  /** The compacted log has one entry for each live object, so it is never longer than the log it
      replaces. */
  lemma CompactLength(log: seq<Entry>)
    requires Coherent(Replay(log))
    ensures |CompactLog(Replay(log))| == Live(Replay(log)) <= |log|
  {
    hide Coherent, Replay, Keys, AttachmentEntries, Pairs;
    var s := Replay(log);
    LiveBounded(log);
    SortedDistinct(Keys(s.attachments));
    AttachmentCount(s, Keys(s.attachments));
    PairsByKeys(s.attachments);
    assert |s.roles| == |s.roles.Keys| && |s.policies| == |s.policies.Keys|;
  }
}
