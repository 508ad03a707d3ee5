/**
 Runs of the vault protocol: several devices, one store, records lost at any time. Without
 cryptography the vault would be a guarded table that only enrolled devices read and write; the
 records simulate that table step by step, so everything readable from it is readable from them.
 */
module VaultRuns {
  import opened Outcomes
  import opened Hex
  import opened VaultRecords
  import V = VaultRecords

  // ---- the table ----

  datatype Slot = Slot(secret: seq<Byte>, expires: int)

  datatype Stored = Stored(value: Bytes, kind: string, version: nat, createdAt: string, rotatedAt: Option<string>, writer: string)

  /** Who is enrolled, who asked to be paired under which code, which enrol tokens are out, the last
      value put under each name, and the read-grants in force. */
  datatype Table = Table(
    initialised: bool,
    enrolled: set<string>,
    requests: map<string, string>,
    slots: map<string, Slot>,
    secrets: map<string, Stored>,
    grants: map<string, GrantBody>)

  const EMPTY: Table := Table(false, {}, map[], map[], map[], map[])

  // ---- events ----

  datatype Event =
    | Init(who: string, text: string, now: string)
    | Recover(who: string, text: string, now: string)
    | RequestPairing(who: string, code: string, text: string, now: string)
    | ApprovePairing(who: string, code: string, now: string)
    | IssueEnrolToken(who: string, slot: string, secret: seq<Byte>, text: string, ttl: nat, nowSecs: int)
    | RedeemEnrolToken(who: string, token: string, text: string, now: string, nowSecs: int)
    | RevokeDevice(who: string, id: string)
    | PutSecret(who: string, name: string, value: Bytes, kind: string, now: string)
    | GetSecret(who: string, name: string)
    | DeleteSecret(who: string, name: string)
    | IssueGrant(who: string, grantId: string, audience: string, names: seq<string>, expires: Option<string>, now: string)
    | RevokeGrant(who: string, grantId: string)
    | Lose(keys: set<string>)

  datatype Outcome = Done | Flag(yes: bool) | Text(text: string) | Secret(revealed: Revealed) | Version(n: nat) | Granted(body: GrantBody) | No(why: Refusal)

  /** The devices that take part, by id, which of them is the owner, and the namespace. */
  datatype Setting = Setting(fleet: map<string, DeviceKey>, owner: string, ns: string)

  ghost predicate Proper(c: Setting) {
    c.owner in c.fleet && forall id :: id in c.fleet ==> c.fleet[id].id == id
  }

  /** The actor is a device of the setting. */
  predicate Allowed(c: Setting, e: Event) {
    e.Lose? || e.who in c.fleet
  }

  /** The call derives its caller's own master: a recovery, or the initialisation of a vault that is
      not initialised. */
  predicate Derives(t: Table, e: Event) {
    e.Recover? || (e.Init? && !t.initialised)
  }

  /** Only the owner derives a master. */
  predicate OwnerDerives(c: Setting, t: Table, e: Event) {
    Derives(t, e) ==> e.who == c.owner
  }

  function TheMaster(c: Setting): Bytes
    requires c.owner in c.fleet
  {
    OwnerMaster(c.fleet[c.owner].ecdh, c.ns)
  }

  // ---- one step on the records ----

  function Plain<T>(r: (Records, Reply<T>), f: T -> Outcome): (Records, Outcome) {
    match r.1
    case Answered(v) => (r.0, f(v))
    case Refused(why) => (r.0, No(why))
  }

  function Step(c: Setting, rs: Records, e: Event): (Records, Outcome)
    requires Allowed(c, e)
  {
    match e
    case Init(who, l, now) => var (after, created) := V.Init(rs, c.fleet[who], c.ns, l, now); (after, Flag(created))
    case Recover(who, l, now) => (V.Recover(rs, c.fleet[who], c.ns, l, now), Done)
    case RequestPairing(who, code, l, now) => (V.RequestPairing(rs, c.fleet[who], code, l, now), Done)
    case ApprovePairing(who, code, now) => Plain(V.ApprovePairing(rs, c.fleet[who], code, now), (id: string) => Text(id))
    case IssueEnrolToken(who, slot, secret, l, ttl, nowSecs) =>
      Plain(V.IssueEnrolToken(rs, c.fleet[who], slot, secret, l, ttl, nowSecs), (t: string) => Text(t))
    case RedeemEnrolToken(who, token, l, now, nowSecs) =>
      Plain(V.RedeemEnrolToken(rs, c.fleet[who], token, l, now, nowSecs), (u: ()) => Done)
    case RevokeDevice(who, id) => Plain(V.RevokeDevice(rs, c.fleet[who], id), (u: ()) => Done)
    case PutSecret(who, name, value, kind, now) => Plain(V.PutSecret(rs, c.fleet[who], name, value, kind, now), (n: nat) => Version(n))
    case GetSecret(who, name) => Plain((rs, V.GetSecret(rs, c.fleet[who], name)), (v: Revealed) => Secret(v))
    case DeleteSecret(_, name) => (V.DeleteSecret(rs, name), Done)
    case IssueGrant(who, id, audience, names, expires, now) =>
      Plain(V.IssueGrant(rs, c.fleet[who], id, audience, names, expires, now), (t: GrantToken) => Granted(t.body))
    case RevokeGrant(_, id) => (V.RevokeGrant(rs, id), Done)
    case Lose(keys) => (rs - keys, Done)
  }

  // ---- one step on the table ----

  function TableStep(t: Table, e: Event): (Table, Outcome) {
    match e
    case Init(who, _, _) =>
      if t.initialised then (t, Flag(false)) else (t.(initialised := true, enrolled := t.enrolled + {who}), Flag(true))
    case Recover(who, _, _) => (t.(initialised := true, enrolled := t.enrolled + {who}), Done)
    case RequestPairing(who, code, _, _) => (t.(requests := t.requests[code := who]), Done)
    case ApprovePairing(who, code, _) =>
      if code !in t.requests then (t, No(NotFound))
      else if who !in t.enrolled then (t, No(NotEnrolled))
      else (t.(enrolled := t.enrolled + {t.requests[code]}, requests := t.requests - {code}), Text(t.requests[code]))
    case IssueEnrolToken(who, slot, secret, _, ttl, nowSecs) =>
      if who !in t.enrolled then (t, No(NotEnrolled))
      else (t.(slots := t.slots[slot := Slot(secret, nowSecs + ttl)]), Text(TokenText(slot, secret)))
    case RedeemEnrolToken(who, token, _, _, nowSecs) =>
      (match ParseToken(token)
       case None => (t, No(MalformedToken))
       case Some((slot, secret)) =>
         if slot !in t.slots then (t, No(NotFound))
         else if t.slots[slot].expires < nowSecs then (t, No(Expired))
         else if t.slots[slot].secret != secret then (t, No(WrongSecret))
         else (t.(enrolled := t.enrolled + {who}, slots := t.slots - {slot}), Done))
    case RevokeDevice(who, id) =>
      if id == who then (t, No(OwnDevice)) else (t.(enrolled := t.enrolled - {id}), Done)
    case PutSecret(who, name, value, kind, now) =>
      if who !in t.enrolled then (t, No(NotEnrolled))
      else
        var is_ := name in t.secrets;
        var version := (if is_ then t.secrets[name].version else 0) + 1;
        var created := if is_ then t.secrets[name].createdAt else now;
        var stored := Stored(value, kind, version, created, if is_ then Some(now) else None, who);
        (t.(secrets := t.secrets[name := stored]), Version(version))
    case GetSecret(who, name) =>
      if name !in t.secrets then (t, No(NotFound))
      else if who !in t.enrolled then (t, No(NotEnrolled))
      else (t, Secret(Revealed(t.secrets[name].value, t.secrets[name].kind)))
    case DeleteSecret(_, name) => (t.(secrets := t.secrets - {name}), Done)
    case IssueGrant(who, id, audience, names, expires, now) =>
      if who !in t.enrolled then (t, No(NotEnrolled))
      else
        var body := GrantBody(id, audience, ReadAbilities(names), who, now, expires);
        (t.(grants := t.grants[id := body]), Granted(body))
    case RevokeGrant(_, id) => (t.(grants := t.grants - {id}), Done)
    case Lose(keys) => (Without(t, keys), Done)
  }

  function Members(s: set<string>): map<string, ()> {
    map x | x in s :: ()
  }

  /** The rows whose keys are not lost. */
  function Kept<T>(m: map<string, T>, key: string -> string, lost: set<string>): map<string, T> {
    map x | x in m && key(x) !in lost :: m[x]
  }

  /** The table after some of its records are gone. */
  function Without(t: Table, lost: set<string>): Table {
    Table(
      t.initialised && META !in lost,
      Kept(Members(t.enrolled), DeviceKeyOf, lost).Keys,
      Kept(t.requests, PairKeyOf, lost),
      Kept(t.slots, EnrolKeyOf, lost),
      Kept(t.secrets, SecretKeyOf, lost),
      Kept(t.grants, GrantKeyOf, lost))
  }

  // ---- how the records stand for the table ----

  /** The records under the keys of one class are the rows of `m`: none missing, none besides. */
  ghost predicate Rows<T>(rs: Records, key: string -> string, m: map<string, T>, fits: (string, Record, T) -> bool) {
    && (forall x :: key(x) in rs <==> x in m)
    && (forall x :: x in m ==> fits(x, rs[key(x)], m[x]))
  }

  function DeviceFits(c: Setting): (string, Record, ()) -> bool
    requires c.owner in c.fleet
  {
    (id: string, r: Record, u: ()) => id in c.fleet && r.DeviceRec? && r.id == id && r.ecdsaPub == PublicKey(c.fleet[id].ecdsa)
                  && r.wrapped == WrapBlob(PublicKey(c.fleet[id].ecdh), TheMaster(c))
  }

  function RequestFits(c: Setting): (string, Record, string) -> bool {
    (code: string, r: Record, who: string) => who in c.fleet && r.PairRec? && r.pub == PublicOf(c.fleet[who])
  }

  function SlotFits(c: Setting): (string, Record, Slot) -> bool
    requires c.owner in c.fleet
  {
    (id: string, r: Record, slot: Slot) => r.EnrolRec? && r.sealed == Sealed(Raw(slot.secret), TheMaster(c)) && r.expires == slot.expires
  }

  function SecretFits(c: Setting): (string, Record, Stored) -> bool
    requires c.owner in c.fleet
  {
    (name: string, r: Record, v: Stored) =>
      r == SecretRec(name, v.kind, v.version, v.createdAt, v.rotatedAt, Sealed(TheMaster(c), v.value), v.writer)
  }

  function GrantFits(c: Setting): (string, Record, GrantBody) -> bool {
    (id: string, r: Record, b: GrantBody) => b.id == id && b.issuer in c.fleet && r == GrantRec(SignGrant(c.fleet[b.issuer], b))
  }

  /** Every device record wraps the one master to that device, every slot and secret is sealed as it
      was issued or put, every grant is its issuer's signed body, and there are no other records of
      these classes. */
  ghost predicate StandsFor(c: Setting, rs: Records, t: Table)
    requires Proper(c)
  {
    && (META in rs <==> t.initialised)
    && Rows(rs, DeviceKeyOf, Members(t.enrolled), DeviceFits(c))
    && Rows(rs, PairKeyOf, t.requests, RequestFits(c))
    && Rows(rs, EnrolKeyOf, t.slots, SlotFits(c))
    && Rows(rs, SecretKeyOf, t.secrets, SecretFits(c))
    && Rows(rs, GrantKeyOf, t.grants, GrantFits(c))
  }

  // ---- rows ----

  /** The keys of one class: marked by their first character, and each determines its name. */
  ghost predicate Keyed(key: string -> string, class_: char) {
    forall x :: Class(key(x)) == class_ && NameIn(key(x)) == x
  }

  lemma Keys()
    ensures Keyed(DeviceKeyOf, 'd') && Keyed(PairKeyOf, 'p') && Keyed(EnrolKeyOf, 'e')
    ensures Keyed(SecretKeyOf, 's') && Keyed(GrantKeyOf, 'g') && Class(META) == 'm'
  {
    DeviceKeys();
    PairKeys();
    EnrolKeys();
    SecretKeys();
    GrantKeys();
  }

  lemma KeyClasses(x: string)
    ensures Class(DeviceKeyOf(x)) == 'd' && Class(PairKeyOf(x)) == 'p' && Class(EnrolKeyOf(x)) == 'e'
    ensures Class(SecretKeyOf(x)) == 's' && Class(GrantKeyOf(x)) == 'g'
  {
  }

  lemma KeyOfClass(key: string -> string, class_: char, x: string)
    requires Keyed(key, class_)
    ensures Class(key(x)) == class_
  {
    hide Class, NameIn;
  }

  lemma KeysDiffer(key: string -> string, class_: char, x: string, y: string)
    requires Keyed(key, class_) && x != y
    ensures key(x) != key(y)
  {
    assert NameIn(key(x)) == x && NameIn(key(y)) == y;
  }

  lemma RowsPut<T>(rs: Records, key: string -> string, class_: char, m: map<string, T>, fits: (string, Record, T) -> bool, n: string, r: Record, v: T)
    requires Keyed(key, class_) && Rows(rs, key, m, fits) && fits(n, r, v)
    ensures Rows(rs[key(n) := r], key, m[n := v], fits)
  {
    hide Keyed;
    forall x | x != n ensures key(x) != key(n) { KeysDiffer(key, class_, x, n); }
  }

  lemma RowsDel<T>(rs: Records, key: string -> string, class_: char, m: map<string, T>, fits: (string, Record, T) -> bool, n: string)
    requires Keyed(key, class_) && Rows(rs, key, m, fits)
    ensures Rows(rs - {key(n)}, key, m - {n}, fits)
  {
    hide Keyed;
    forall x | x != n ensures key(x) != key(n) { KeysDiffer(key, class_, x, n); }
  }

  lemma RowsLose<T>(rs: Records, key: string -> string, m: map<string, T>, fits: (string, Record, T) -> bool, lost: set<string>)
    requires Rows(rs, key, m, fits)
    ensures Rows(rs - lost, key, Kept(m, key, lost), fits)
  {
  }

  /** A write or a deletion in another class. */
  lemma RowsElsewhere<T>(rs: Records, after: Records, k: string, v: Record, key: string -> string, class_: char, m: map<string, T>, fits: (string, Record, T) -> bool)
    requires Keyed(key, class_) && Rows(rs, key, m, fits) && Class(k) != class_
    requires after == rs[k := v] || after == rs - {k}
    ensures Rows(after, key, m, fits)
  {
    hide Keyed, Class;
    forall x ensures key(x) != k { KeyOfClass(key, class_, x); }
    if after == rs - {k} {
      assert forall x :: x in m ==> after[key(x)] == rs[key(x)];
    } else {
      assert forall x :: x in m ==> after[key(x)] == rs[key(x)];
    }
  }

  lemma RowsNone<T>(key: string -> string, fits: (string, Record, T) -> bool)
    ensures Rows(map[], key, map[], fits)
  {
  }

  lemma MembersPut(s: set<string>, x: string)
    ensures Members(s)[x := ()] == Members(s + {x})
    ensures Members(s) - {x} == Members(s - {x})
  {
  }

  lemma MembersKept(m: map<string, ()>)
    ensures Members(m.Keys) == m
  {
    forall x | x in m ensures m[x] == () {}
  }

  // ---- simulation ----

  /** What a write or a deletion in one class leaves as it was. */
  lemma Elsewhere(c: Setting, rs: Records, after: Records, t: Table, k: string, v: Record)
    requires Proper(c) && StandsFor(c, rs, t) && (after == rs[k := v] || after == rs - {k})
    ensures Class(k) != 'm' ==> (META in after <==> t.initialised)
    ensures Class(k) != 'd' ==> Rows(after, DeviceKeyOf, Members(t.enrolled), DeviceFits(c))
    ensures Class(k) != 'p' ==> Rows(after, PairKeyOf, t.requests, RequestFits(c))
    ensures Class(k) != 'e' ==> Rows(after, EnrolKeyOf, t.slots, SlotFits(c))
    ensures Class(k) != 's' ==> Rows(after, SecretKeyOf, t.secrets, SecretFits(c))
    ensures Class(k) != 'g' ==> Rows(after, GrantKeyOf, t.grants, GrantFits(c))
  {
    Keys();
    hide Rows, Keyed, Class, DeviceFits, RequestFits, SlotFits, SecretFits, GrantFits, Members;
    if Class(k) != 'd' { RowsElsewhere(rs, after, k, v, DeviceKeyOf, 'd', Members(t.enrolled), DeviceFits(c)); }
    if Class(k) != 'p' { RowsElsewhere(rs, after, k, v, PairKeyOf, 'p', t.requests, RequestFits(c)); }
    if Class(k) != 'e' { RowsElsewhere(rs, after, k, v, EnrolKeyOf, 'e', t.slots, SlotFits(c)); }
    if Class(k) != 's' { RowsElsewhere(rs, after, k, v, SecretKeyOf, 's', t.secrets, SecretFits(c)); }
    if Class(k) != 'g' { RowsElsewhere(rs, after, k, v, GrantKeyOf, 'g', t.grants, GrantFits(c)); }
  }

  lemma MasterOf(c: Setting, rs: Records, t: Table, who: string)
    requires Proper(c) && StandsFor(c, rs, t) && who in c.fleet
    ensures V.LoadMaster(rs, c.fleet[who]) == if who in t.enrolled then Answered(TheMaster(c)) else Refused(NotEnrolled)
  {
    hide DeviceKeyOf, TheMaster;
    assert who in Members(t.enrolled) <==> who in t.enrolled;
    assert who in t.enrolled ==> DeviceFits(c)(who, rs[DeviceKeyOf(who)], ());
  }

  lemma EnrollSimulates(c: Setting, rs: Records, t: Table, writer: DeviceKey, id: string, l: string, now: string)
    requires Proper(c) && StandsFor(c, rs, t) && id in c.fleet
    ensures StandsFor(c, V.Enroll(rs, writer, PublicOf(c.fleet[id]), TheMaster(c), l, id, now), t.(enrolled := t.enrolled + {id}))
  {
    hide Rows, Keyed, Class, DeviceKeyOf, RequestFits, SlotFits, SecretFits, GrantFits, Members;
    Keys();
    KeyClasses(id);
    var after := V.Enroll(rs, writer, PublicOf(c.fleet[id]), TheMaster(c), l, id, now);
    var r := after[DeviceKeyOf(id)];
    assert DeviceFits(c)(id, r, ());
    Elsewhere(c, rs, after, t, DeviceKeyOf(id), r);
    RowsPut(rs, DeviceKeyOf, 'd', Members(t.enrolled), DeviceFits(c), id, r, ());
    MembersPut(t.enrolled, id);
  }

  /** One event does to the records what it does to the table, with the same outcome. */
  ghost predicate Simulates(c: Setting, rs: Records, t: Table, e: Event)
    requires Proper(c) && Allowed(c, e)
  {
    StandsFor(c, Step(c, rs, e).0, TableStep(t, e).0) && Step(c, rs, e).1 == TableStep(t, e).1
  }

  lemma RecoverSimulates(c: Setting, rs: Records, t: Table, e: Event)
    requires Proper(c) && Allowed(c, e) && StandsFor(c, rs, t) && OwnerDerives(c, t, e) && (e.Recover? || e.Init?)
    ensures Simulates(c, rs, t, e)
  {
    hide Rows, DeviceKeyOf, V.Enroll, DeviceFits, RequestFits, SlotFits, SecretFits, GrantFits, Members;
    if Derives(t, e) {
      var d := c.fleet[e.who];
      var l := OrElse(e.text, "this device (owner)");
      EnrollSimulates(c, rs, t, d, e.who, l, e.now);
      var enrolled := V.Enroll(rs, d, PublicOf(d), TheMaster(c), l, e.who, e.now);
      Elsewhere(c, enrolled, enrolled[META := MetaRec(d.id, e.now)], t.(enrolled := t.enrolled + {e.who}), META, MetaRec(d.id, e.now));
      assert Class(META) == 'm';
    }
  }

  lemma RequestPairingSimulates(c: Setting, rs: Records, t: Table, e: Event)
    requires Proper(c) && Allowed(c, e) && StandsFor(c, rs, t) && e.RequestPairing?
    ensures Simulates(c, rs, t, e)
  {
    hide Rows, Keyed, Class, PairKeyOf, DeviceFits, SlotFits, SecretFits, GrantFits, Members;
    Keys();
    KeyClasses(e.code);
    var after := Step(c, rs, e).0;
    var r := after[PairKeyOf(e.code)];
    assert RequestFits(c)(e.code, r, e.who);
    Elsewhere(c, rs, after, t, PairKeyOf(e.code), r);
    RowsPut(rs, PairKeyOf, 'p', t.requests, RequestFits(c), e.code, r, e.who);
  }

  lemma RequestFound(c: Setting, rs: Records, t: Table, code: string)
    requires Proper(c) && StandsFor(c, rs, t)
    ensures PairKeyOf(code) in rs <==> code in t.requests
    ensures code in t.requests ==> RequestFits(c)(code, rs[PairKeyOf(code)], t.requests[code])
  {
    hide PairKeyOf, RequestFits, DeviceFits, SlotFits, SecretFits, GrantFits;
  }

  lemma ApprovePairingSimulates(c: Setting, rs: Records, t: Table, e: Event)
    requires Proper(c) && Allowed(c, e) && StandsFor(c, rs, t) && e.ApprovePairing?
    ensures Simulates(c, rs, t, e)
  {
    hide Rows, Keyed, Class, PairKeyOf, V.LoadMaster, V.Enroll, DeviceFits, SlotFits, SecretFits, GrantFits, Members, TheMaster;
    Keys();
    KeyClasses(e.code);
    MasterOf(c, rs, t, e.who);
    RequestFound(c, rs, t, e.code);
    if e.code in t.requests && e.who in t.enrolled {
      var r, new_ := rs[PairKeyOf(e.code)], t.requests[e.code];
      EnrollSimulates(c, rs, t, c.fleet[e.who], new_, r.deviceLabel, e.now);
      var enrolled := V.Enroll(rs, c.fleet[e.who], r.pub, TheMaster(c), r.deviceLabel, new_, e.now);
      Elsewhere(c, enrolled, enrolled - {PairKeyOf(e.code)}, t.(enrolled := t.enrolled + {new_}), PairKeyOf(e.code), r);
      RowsDel(enrolled, PairKeyOf, 'p', t.requests, RequestFits(c), e.code);
    }
  }

  lemma IssueEnrolSimulates(c: Setting, rs: Records, t: Table, e: Event)
    requires Proper(c) && Allowed(c, e) && StandsFor(c, rs, t) && e.IssueEnrolToken?
    ensures Simulates(c, rs, t, e)
  {
    hide Rows, Keyed, Class, EnrolKeyOf, V.LoadMaster, DeviceFits, RequestFits, SecretFits, GrantFits, Members, TheMaster, TokenText;
    Keys();
    KeyClasses(e.slot);
    MasterOf(c, rs, t, e.who);
    if e.who in t.enrolled {
      var after := Step(c, rs, e).0;
      var r, slot := after[EnrolKeyOf(e.slot)], Slot(e.secret, e.nowSecs + e.ttl);
      assert SlotFits(c)(e.slot, r, slot);
      Elsewhere(c, rs, after, t, EnrolKeyOf(e.slot), r);
      RowsPut(rs, EnrolKeyOf, 'e', t.slots, SlotFits(c), e.slot, r, slot);
    }
  }

  lemma SlotFound(c: Setting, rs: Records, t: Table, slot: string)
    requires Proper(c) && StandsFor(c, rs, t)
    ensures EnrolKeyOf(slot) in rs <==> slot in t.slots
    ensures slot in t.slots ==> SlotFits(c)(slot, rs[EnrolKeyOf(slot)], t.slots[slot])
  {
    hide EnrolKeyOf, RequestFits, DeviceFits, SlotFits, SecretFits, GrantFits;
  }

  lemma RedeemEnrolSimulates(c: Setting, rs: Records, t: Table, e: Event)
    requires Proper(c) && Allowed(c, e) && StandsFor(c, rs, t) && e.RedeemEnrolToken?
    ensures Simulates(c, rs, t, e)
  {
    hide Rows, Keyed, Class, EnrolKeyOf, V.Enroll, DeviceFits, RequestFits, SecretFits, GrantFits, Members, TheMaster, ParseToken;
    var parsed := ParseToken(e.token);
    if parsed.Some? {
      var (slot, secret) := parsed.value;
      Keys();
      KeyClasses(slot);
      SlotFound(c, rs, t, slot);
      if slot in t.slots && t.slots[slot].expires >= e.nowSecs && t.slots[slot].secret == secret {
        var d, l := c.fleet[e.who], OrElse(e.text, "vm device");
        EnrollSimulates(c, rs, t, d, e.who, l, e.now);
        var enrolled := V.Enroll(rs, d, PublicOf(d), TheMaster(c), l, e.who, e.now);
        Elsewhere(c, enrolled, enrolled - {EnrolKeyOf(slot)}, t.(enrolled := t.enrolled + {e.who}), EnrolKeyOf(slot), rs[EnrolKeyOf(slot)]);
        RowsDel(enrolled, EnrolKeyOf, 'e', t.slots, SlotFits(c), slot);
      }
    }
  }

  lemma RevokeDeviceSimulates(c: Setting, rs: Records, t: Table, e: Event)
    requires Proper(c) && Allowed(c, e) && StandsFor(c, rs, t) && e.RevokeDevice?
    ensures Simulates(c, rs, t, e)
  {
    hide Rows, Keyed, Class, DeviceKeyOf, DeviceFits, RequestFits, SlotFits, SecretFits, GrantFits, Members;
    Keys();
    KeyClasses(e.id);
    Elsewhere(c, rs, rs - {DeviceKeyOf(e.id)}, t, DeviceKeyOf(e.id), MetaRec("", ""));
    RowsDel(rs, DeviceKeyOf, 'd', Members(t.enrolled), DeviceFits(c), e.id);
    MembersPut(t.enrolled, e.id);
  }

  lemma SecretFound(c: Setting, rs: Records, t: Table, name: string)
    requires Proper(c) && StandsFor(c, rs, t)
    ensures SecretKeyOf(name) in rs <==> name in t.secrets
    ensures name in t.secrets ==> SecretFits(c)(name, rs[SecretKeyOf(name)], t.secrets[name])
  {
    hide SecretKeyOf, RequestFits, DeviceFits, SlotFits, SecretFits, GrantFits;
  }

  lemma PutSecretSimulates(c: Setting, rs: Records, t: Table, e: Event)
    requires Proper(c) && Allowed(c, e) && StandsFor(c, rs, t) && e.PutSecret?
    ensures Simulates(c, rs, t, e)
  {
    hide Rows, Keyed, Class, SecretKeyOf, V.LoadMaster, DeviceFits, RequestFits, SlotFits, GrantFits, Members, TheMaster;
    Keys();
    KeyClasses(e.name);
    MasterOf(c, rs, t, e.who);
    SecretFound(c, rs, t, e.name);
    if e.who in t.enrolled {
      var after, value := Step(c, rs, e).0, TableStep(t, e).0.secrets[e.name];
      var r := after[SecretKeyOf(e.name)];
      assert SecretFits(c)(e.name, r, value);
      Elsewhere(c, rs, after, t, SecretKeyOf(e.name), r);
      RowsPut(rs, SecretKeyOf, 's', t.secrets, SecretFits(c), e.name, r, value);
    }
  }

  lemma GetSecretSimulates(c: Setting, rs: Records, t: Table, e: Event)
    requires Proper(c) && Allowed(c, e) && StandsFor(c, rs, t) && e.GetSecret?
    ensures Simulates(c, rs, t, e)
  {
    hide StandsFor, SecretKeyOf, V.LoadMaster, TheMaster;
    MasterOf(c, rs, t, e.who);
    SecretFound(c, rs, t, e.name);
  }

  lemma DeleteSecretSimulates(c: Setting, rs: Records, t: Table, e: Event)
    requires Proper(c) && Allowed(c, e) && StandsFor(c, rs, t) && e.DeleteSecret?
    ensures Simulates(c, rs, t, e)
  {
    hide Rows, Keyed, Class, SecretKeyOf, DeviceFits, RequestFits, SlotFits, SecretFits, GrantFits, Members;
    Keys();
    KeyClasses(e.name);
    Elsewhere(c, rs, rs - {SecretKeyOf(e.name)}, t, SecretKeyOf(e.name), MetaRec("", ""));
    RowsDel(rs, SecretKeyOf, 's', t.secrets, SecretFits(c), e.name);
  }

  lemma DeviceFound(c: Setting, rs: Records, t: Table, id: string)
    requires Proper(c) && StandsFor(c, rs, t)
    ensures DeviceKeyOf(id) in rs <==> id in t.enrolled
    ensures id in t.enrolled ==> DeviceFits(c)(id, rs[DeviceKeyOf(id)], ())
  {
    hide DeviceKeyOf, RequestFits, DeviceFits, SlotFits, SecretFits, GrantFits;
    assert id in Members(t.enrolled) <==> id in t.enrolled;
  }

  lemma IssueGrantSimulates(c: Setting, rs: Records, t: Table, e: Event)
    requires Proper(c) && Allowed(c, e) && StandsFor(c, rs, t) && e.IssueGrant?
    ensures Simulates(c, rs, t, e)
  {
    hide Rows, Keyed, Class, GrantKeyOf, DeviceKeyOf, DeviceFits, RequestFits, SlotFits, SecretFits, Members, ReadAbilities;
    Keys();
    KeyClasses(e.grantId);
    DeviceFound(c, rs, t, e.who);
    if e.who in t.enrolled {
      var body := GrantBody(e.grantId, e.audience, ReadAbilities(e.names), e.who, e.now, e.expires);
      var r := GrantRec(SignGrant(c.fleet[e.who], body));
      assert GrantFits(c)(e.grantId, r, body);
      Elsewhere(c, rs, rs[GrantKeyOf(e.grantId) := r], t, GrantKeyOf(e.grantId), r);
      RowsPut(rs, GrantKeyOf, 'g', t.grants, GrantFits(c), e.grantId, r, body);
    }
  }

  lemma RevokeGrantSimulates(c: Setting, rs: Records, t: Table, e: Event)
    requires Proper(c) && Allowed(c, e) && StandsFor(c, rs, t) && e.RevokeGrant?
    ensures Simulates(c, rs, t, e)
  {
    hide Rows, Keyed, Class, GrantKeyOf, DeviceFits, RequestFits, SlotFits, SecretFits, GrantFits, Members;
    Keys();
    KeyClasses(e.grantId);
    Elsewhere(c, rs, rs - {GrantKeyOf(e.grantId)}, t, GrantKeyOf(e.grantId), MetaRec("", ""));
    RowsDel(rs, GrantKeyOf, 'g', t.grants, GrantFits(c), e.grantId);
  }

  lemma LoseStands(c: Setting, rs: Records, t: Table, lost: set<string>)
    requires Proper(c) && StandsFor(c, rs, t)
    ensures StandsFor(c, rs - lost, Without(t, lost))
  {
    hide Rows, Kept, Members, DeviceFits, RequestFits, SlotFits, SecretFits, GrantFits;
    hide DeviceKeyOf, PairKeyOf, EnrolKeyOf, SecretKeyOf, GrantKeyOf;
    RowsLose(rs, DeviceKeyOf, Members(t.enrolled), DeviceFits(c), lost);
    MembersKept(Kept(Members(t.enrolled), DeviceKeyOf, lost));
    RowsLose(rs, PairKeyOf, t.requests, RequestFits(c), lost);
    RowsLose(rs, EnrolKeyOf, t.slots, SlotFits(c), lost);
    RowsLose(rs, SecretKeyOf, t.secrets, SecretFits(c), lost);
    RowsLose(rs, GrantKeyOf, t.grants, GrantFits(c), lost);
  }

  lemma LoseSimulates(c: Setting, rs: Records, t: Table, e: Event)
    requires Proper(c) && StandsFor(c, rs, t) && e.Lose?
    ensures Simulates(c, rs, t, e)
  {
    hide StandsFor, Without;
    LoseStands(c, rs, t, e.keys);
  }

  lemma StepSimulates(c: Setting, rs: Records, t: Table, e: Event)
    requires Proper(c) && Allowed(c, e) && StandsFor(c, rs, t) && OwnerDerives(c, t, e)
    ensures Simulates(c, rs, t, e)
  {
    hide Simulates, StandsFor;
    match e
    case Init(_, _, _) => RecoverSimulates(c, rs, t, e);
    case Recover(_, _, _) => RecoverSimulates(c, rs, t, e);
    case RequestPairing(_, _, _, _) => RequestPairingSimulates(c, rs, t, e);
    case ApprovePairing(_, _, _) => ApprovePairingSimulates(c, rs, t, e);
    case IssueEnrolToken(_, _, _, _, _, _) => IssueEnrolSimulates(c, rs, t, e);
    case RedeemEnrolToken(_, _, _, _, _) => RedeemEnrolSimulates(c, rs, t, e);
    case RevokeDevice(_, _) => RevokeDeviceSimulates(c, rs, t, e);
    case PutSecret(_, _, _, _, _) => PutSecretSimulates(c, rs, t, e);
    case GetSecret(_, _) => GetSecretSimulates(c, rs, t, e);
    case DeleteSecret(_, _) => DeleteSecretSimulates(c, rs, t, e);
    case IssueGrant(_, _, _, _, _, _) => IssueGrantSimulates(c, rs, t, e);
    case RevokeGrant(_, _) => RevokeGrantSimulates(c, rs, t, e);
    case Lose(_) => LoseSimulates(c, rs, t, e);
  }

  // ---- runs ----

  function TableRun(events: seq<Event>): (Table, Outcome) {
    if events == [] then (EMPTY, Done) else TableStep(TableRun(events[..|events| - 1]).0, events[|events| - 1])
  }

  /** The devices of the setting act, and whenever a call derives a master its caller is the owner. */
  ghost predicate AllAllowed(c: Setting, events: seq<Event>) {
    Proper(c) && forall i :: 0 <= i < |events| ==> AllowedAt(c, events, i)
  }

  predicate AllowedAt(c: Setting, events: seq<Event>, i: nat)
    requires i < |events|
  {
    Allowed(c, events[i]) && OwnerDerives(c, TableRun(events[..i]).0, events[i])
  }

  lemma PrefixAllowed(c: Setting, events: seq<Event>, k: nat)
    requires AllAllowed(c, events) && k <= |events|
    ensures AllAllowed(c, events[..k])
  {
    forall i | 0 <= i < k ensures AllowedAt(c, events[..k], i) {
      assert AllowedAt(c, events, i) && events[..k][..i] == events[..i];
    }
  }

  /** The records and the last outcome. */
  ghost function Run(c: Setting, events: seq<Event>): (Records, Outcome)
    requires AllAllowed(c, events)
  {
    if events == [] then (map[], Done)
    else
      var n := |events| - 1;
      PrefixAllowed(c, events, n);
      assert AllowedAt(c, events, n);
      Step(c, Run(c, events[..n]).0, events[n])
  }

  lemma EmptyStands(c: Setting)
    requires Proper(c)
    ensures StandsFor(c, map[], EMPTY)
  {
    hide Rows, DeviceFits, RequestFits, SlotFits, SecretFits, GrantFits;
    RowsNone(DeviceKeyOf, DeviceFits(c));
    RowsNone(PairKeyOf, RequestFits(c));
    RowsNone(EnrolKeyOf, SlotFits(c));
    RowsNone(SecretKeyOf, SecretFits(c));
    RowsNone(GrantKeyOf, GrantFits(c));
  }

  /** In every run where only the owner derives the master, with records lost at any time, the vault
      behaves as the table: every outcome is the table's, every enrolled device's record wraps the
      same master, and every secret and enrol slot is sealed as it was put or issued. */
  lemma {:induction false} VaultBehavesAsTable(c: Setting, events: seq<Event>)
    requires AllAllowed(c, events)
    ensures Run(c, events).1 == TableRun(events).1
    ensures StandsFor(c, Run(c, events).0, TableRun(events).0)
  {
    hide StandsFor, Step, TableStep;
    if events == [] {
      EmptyStands(c);
    } else {
      var n := |events| - 1;
      PrefixAllowed(c, events, n);
      assert AllowedAt(c, events, n);
      VaultBehavesAsTable(c, events[..n]);
      StepSimulates(c, Run(c, events[..n]).0, TableRun(events[..n]).0, events[n]);
    }
  }

  lemma MasterOnTable(c: Setting, events: seq<Event>, who: string)
    requires AllAllowed(c, events) && who in c.fleet
    ensures V.LoadMaster(Run(c, events).0, c.fleet[who])
         == if who in TableRun(events).0.enrolled then Answered(TheMaster(c)) else Refused(NotEnrolled)
  {
    hide Run, TableRun, StandsFor, V.LoadMaster;
    VaultBehavesAsTable(c, events);
    MasterOf(c, Run(c, events).0, TableRun(events).0, who);
  }

  // ---- who is enrolled ----

  /** A call with this outcome enrols the device: its recovery, its first initialisation of the vault,
      the approval of its request, or its redeemed token. */
  predicate Enrols(e: Event, outcome: Outcome, id: string) {
    match e
    case Recover(who, _, _) => who == id
    case Init(who, _, _) => who == id && outcome == Flag(true)
    case ApprovePairing(_, _, _) => outcome == Outcome.Text(id)
    case RedeemEnrolToken(who, _, _, _, _) => who == id && outcome == Done
    case _ => false
  }

  /** Another device revokes it, or its record is lost. */
  predicate Drops(e: Event, id: string) {
    match e
    case RevokeDevice(who, d) => d == id && who != id
    case Lose(keys) => DeviceKeyOf(id) in keys
    case _ => false
  }

  /** Enrolled at position `i` and not dropped since. */
  predicate EnrolledSince(events: seq<Event>, i: nat, id: string)
    requires i < |events|
  {
    Enrols(events[i], TableRun(events[..i + 1]).1, id) && forall j :: i < j < |events| ==> !Drops(events[j], id)
  }

  lemma StepOnEnrolled(t: Table, e: Event, id: string)
    ensures var (after, outcome) := TableStep(t, e);
            id in after.enrolled <==> Enrols(e, outcome, id) || (id in t.enrolled && !Drops(e, id))
  {
    hide SecretKeyOf, DeviceKeyOf, PairKeyOf, EnrolKeyOf, GrantKeyOf, TokenText, ParseToken, ReadAbilities;
  }

  lemma EnrolledSinceBefore(events: seq<Event>, i: nat, id: string)
    requires i < |events| - 1
    ensures var n := |events| - 1;
            EnrolledSince(events, i, id) <==> EnrolledSince(events[..n], i, id) && !Drops(events[n], id)
  {
    hide TableRun, Drops, Enrols;
    var n := |events| - 1;
    assert events[..n][..i + 1] == events[..i + 1];
    assert forall j :: i < j < n ==> events[..n][j] == events[j];
  }

  /** A device is enrolled exactly when some call of the run enrolled it and nothing dropped it since. */
  lemma {:induction false} EnrolledExactly(events: seq<Event>, id: string)
    ensures id in TableRun(events).0.enrolled <==> exists i: nat :: i < |events| && EnrolledSince(events, i, id)
  {
    hide TableStep, Drops, Enrols;
    if events != [] {
      var n := |events| - 1;
      EnrolledExactly(events[..n], id);
      StepOnEnrolled(TableRun(events[..n]).0, events[n], id);
      assert events[..n + 1] == events;
      forall i: nat | i < n ensures EnrolledSince(events, i, id) <==> EnrolledSince(events[..n], i, id) && !Drops(events[n], id) {
        EnrolledSinceBefore(events, i, id);
      }
      assert EnrolledSince(events, n, id) <==> Enrols(events[n], TableRun(events).1, id);
      if id in TableRun(events[..n]).0.enrolled {
        var i: nat :| i < n && EnrolledSince(events[..n], i, id);
        assert EnrolledSince(events, i, id) <==> !Drops(events[n], id);
      }
    }
  }

  /** Exactly the devices enrolled in the run and not dropped since unwrap a master, all the same one;
      any other device is refused. */
  lemma OneMaster(c: Setting, events: seq<Event>, who: string)
    requires AllAllowed(c, events) && who in c.fleet
    ensures V.LoadMaster(Run(c, events).0, c.fleet[who])
         == if exists i: nat :: i < |events| && EnrolledSince(events, i, who) then Answered(TheMaster(c)) else Refused(NotEnrolled)
  {
    hide Run, TableRun, V.LoadMaster, EnrolledSince;
    MasterOnTable(c, events, who);
    EnrolledExactly(events, who);
  }

  /** Revocation is de-enrolment: once another device revoked it, a device is refused the master and
      every secret until something enrols it again. */
  lemma RevokedDeviceIsRefused(c: Setting, events: seq<Event>, j: nat, id: string, name: string)
    requires AllAllowed(c, events) && id in c.fleet && j < |events| && events[j].RevokeDevice? && Drops(events[j], id)
    requires forall k :: j < k < |events| ==> !Enrols(events[k], TableRun(events[..k + 1]).1, id)
    ensures V.LoadMaster(Run(c, events).0, c.fleet[id]) == Refused(NotEnrolled)
    ensures V.GetSecret(Run(c, events).0, c.fleet[id], name).Refused?
  {
    hide Run, TableRun, V.LoadMaster;
    OneMaster(c, events, id);
  }

  /** What the call at position `k` returned. */
  ghost function OutcomeAt(c: Setting, events: seq<Event>, k: nat): Outcome
    requires AllAllowed(c, events) && k < |events|
  {
    PrefixAllowed(c, events, k + 1);
    Run(c, events[..k + 1]).1
  }

  lemma OutcomeOnTable(c: Setting, events: seq<Event>, k: nat)
    requires AllAllowed(c, events) && k < |events|
    ensures OutcomeAt(c, events, k) == TableRun(events[..k + 1]).1
  {
    PrefixAllowed(c, events, k + 1);
    VaultBehavesAsTable(c, events[..k + 1]);
  }

  // ---- what follows for the callers ----

  /** The event writes or removes the record of this secret. */
  predicate TouchesSecret(e: Event, name: string) {
    match e
    case PutSecret(_, n, _, _, _) => n == name
    case DeleteSecret(_, n) => n == name
    case Lose(keys) => SecretKeyOf(name) in keys
    case _ => false
  }

  /** From position `k` on, nothing touches the secret, except attempts that are refused. */
  predicate SecretLeftAlone(events: seq<Event>, k: nat, name: string) {
    forall i :: k <= i < |events| ==> !TouchesSecret(events[i], name) || TableRun(events[..i + 1]).1.No?
  }

  lemma StepKeepsSecret(t: Table, e: Event, name: string)
    requires !TouchesSecret(e, name) || TableStep(t, e).1.No?
    ensures name in TableStep(t, e).0.secrets <==> name in t.secrets
    ensures name in t.secrets ==> TableStep(t, e).0.secrets[name] == t.secrets[name]
  {
    hide SecretKeyOf, DeviceKeyOf, PairKeyOf, EnrolKeyOf, GrantKeyOf, TokenText, ReadAbilities;
  }

  lemma {:induction false} KeepsSecret(events: seq<Event>, k: nat, name: string)
    requires k <= |events| && SecretLeftAlone(events, k, name)
    ensures var was, is_ := TableRun(events[..k]).0.secrets, TableRun(events).0.secrets;
            (name in is_ <==> name in was) && (name in was ==> is_[name] == was[name])
  {
    hide TableStep, TouchesSecret;
    if k == |events| {
      assert events[..k] == events;
    } else {
      var n := |events| - 1;
      assert events[..n][..k] == events[..k];
      assert events[..n + 1] == events;
      forall i | k <= i < n ensures !TouchesSecret(events[..n][i], name) || TableRun(events[..n][..i + 1]).1.No? {
        assert events[..n][..i + 1] == events[..i + 1];
      }
      KeepsSecret(events[..n], k, name);
      StepKeepsSecret(TableRun(events[..n]).0, events[n], name);
    }
  }

  lemma PutStores(events: seq<Event>, k: nat)
    requires k < |events| && events[k].PutSecret? && !TableRun(events[..k + 1]).1.No?
    ensures var t := TableRun(events[..k + 1]);
            events[k].name in t.0.secrets && t.0.secrets[events[k].name].value == events[k].value
            && t.0.secrets[events[k].name].kind == events[k].kind
            && t.1 == Version(t.0.secrets[events[k].name].version)
  {
    assert events[..k + 1][..k] == events[..k];
  }

  lemma PutIsNext(events: seq<Event>, k: nat)
    requires k < |events| && events[k].PutSecret? && !TableRun(events[..k + 1]).1.No?
    ensures var was, name := TableRun(events[..k]).0.secrets, events[k].name;
            TableRun(events[..k + 1]).1 == Version((if name in was then was[name].version else 0) + 1)
  {
    assert events[..k + 1][..k] == events[..k];
  }

  /** Any device enrolled at the end reads the value of the last accepted put; any other reads
      nothing. */
  lemma ReadsLastPut(c: Setting, events: seq<Event>, k: nat, who: string)
    requires AllAllowed(c, events) && k < |events| && events[k].PutSecret? && who in c.fleet
    requires !OutcomeAt(c, events, k).No?
    requires SecretLeftAlone(events, k + 1, events[k].name)
    ensures V.GetSecret(Run(c, events).0, c.fleet[who], events[k].name)
         == if who in TableRun(events).0.enrolled then Answered(Revealed(events[k].value, events[k].kind)) else Refused(NotEnrolled)
  {
    hide Run, OutcomeAt, TableRun, StandsFor, TouchesSecret, SecretLeftAlone, SecretKeyOf, V.LoadMaster;
    OutcomeOnTable(c, events, k);
    VaultBehavesAsTable(c, events);
    PutStores(events, k);
    KeepsSecret(events, k + 1, events[k].name);
    SecretFound(c, Run(c, events).0, TableRun(events).0, events[k].name);
    MasterOf(c, Run(c, events).0, TableRun(events).0, who);
  }

  /** Two accepted puts under one name, with nothing accepted in between, carry consecutive versions. */
  lemma VersionsRise(c: Setting, events: seq<Event>, k: nat, l: nat)
    requires AllAllowed(c, events) && k < l < |events| && events[k].PutSecret? && events[l].PutSecret?
    requires events[k].name == events[l].name && SecretLeftAlone(events[..l], k + 1, events[k].name)
    requires OutcomeAt(c, events, k).Version?
    requires OutcomeAt(c, events, l).Version?
    ensures OutcomeAt(c, events, l).n == OutcomeAt(c, events, k).n + 1
  {
    hide Run, OutcomeAt, TableRun, StandsFor, TouchesSecret, SecretLeftAlone;
    OutcomeOnTable(c, events, k);
    OutcomeOnTable(c, events, l);
    PutStores(events, k);
    PutStores(events, l);
    PutIsNext(events, l);
    KeepsSecret(events[..l], k + 1, events[k].name);
    assert events[..l][..k + 1] == events[..k + 1];
  }

  lemma AppendTwo(c: Setting, events: seq<Event>, a: Event, b: Event)
    requires AllAllowed(c, events) && Allowed(c, a) && Allowed(c, b)
    requires !a.Init? && (a.Recover? ==> a.who == c.owner) && !b.Init? && (b.Recover? ==> b.who == c.owner)
    ensures AllAllowed(c, events + [a, b])
    ensures TableRun(events + [a, b]) == TableStep(TableStep(TableRun(events).0, a).0, b)
  {
    hide TableStep, Allowed;
    var s := events + [a, b];
    assert s[..|s| - 1] == events + [a] && (events + [a])[..|events|] == events;
    assert TableRun(events + [a]) == TableStep(TableRun(events).0, a);
    forall i | 0 <= i < |s| ensures AllowedAt(c, s, i) {
      if i < |events| { assert AllowedAt(c, events, i) && s[..i] == events[..i]; }
    }
  }

  /** Disaster recovery: whatever records are lost, all of the device records and `meta` among them,
      the owner's recovery makes every secret whose record survived readable again, with the value it
      had. */
  lemma RecoveryRestores(c: Setting, events: seq<Event>, lost: set<string>, text: string, now: string, name: string)
    requires AllAllowed(c, events)
    ensures var after := events + [Lose(lost), Recover(c.owner, text, now)];
            var secrets := TableRun(events).0.secrets;
            AllAllowed(c, after)
            && V.GetSecret(Run(c, after).0, c.fleet[c.owner], name)
               == if name in secrets && SecretKeyOf(name) !in lost then Answered(Revealed(secrets[name].value, secrets[name].kind)) else Refused(NotFound)
  {
    hide Run, OutcomeAt, TableRun, StandsFor, SecretKeyOf, DeviceKeyOf, PairKeyOf, EnrolKeyOf, GrantKeyOf, V.LoadMaster;
    var after := events + [Lose(lost), Recover(c.owner, text, now)];
    AppendTwo(c, events, Lose(lost), Recover(c.owner, text, now));
    VaultBehavesAsTable(c, after);
    SecretFound(c, Run(c, after).0, TableRun(after).0, name);
    MasterOf(c, Run(c, after).0, TableRun(after).0, c.owner);
  }

  lemma StepKeepsSlotGone(t: Table, e: Event, slot: string)
    requires slot !in t.slots && !(e.IssueEnrolToken? && e.slot == slot)
    ensures slot !in TableStep(t, e).0.slots
  {
    hide SecretKeyOf, DeviceKeyOf, PairKeyOf, EnrolKeyOf, GrantKeyOf, TokenText, ParseToken, ReadAbilities;
  }

  /** The slot that a redeeming call names. */
  function SlotOf(e: Event): Option<string> {
    if e.RedeemEnrolToken? && ParseToken(e.token).Some? then Some(ParseToken(e.token).value.0) else None
  }

  lemma RedeemBurns(events: seq<Event>, k: nat)
    requires k < |events| && events[k].RedeemEnrolToken? && TableRun(events[..k + 1]).1 == Done
    ensures SlotOf(events[k]).Some? && SlotOf(events[k]).value !in TableRun(events[..k + 1]).0.slots
  {
    hide ParseToken;
    assert events[..k + 1][..k] == events[..k];
  }

  lemma RedeemMissing(c: Setting, rs: Records, e: Event)
    requires Allowed(c, e) && SlotOf(e).Some? && EnrolKeyOf(SlotOf(e).value) !in rs
    ensures Step(c, rs, e) == (rs, No(NotFound))
  {
    hide EnrolKeyOf, ParseToken;
  }

  lemma {:induction false} SlotStaysGone(events: seq<Event>, k: nat, slot: string)
    requires k <= |events| && slot !in TableRun(events[..k]).0.slots
    requires forall i :: k <= i < |events| && events[i].IssueEnrolToken? ==> events[i].slot != slot
    ensures slot !in TableRun(events).0.slots
  {
    hide TableStep;
    if k == |events| {
      assert events[..k] == events;
    } else {
      var n := |events| - 1;
      assert events[..n][..k] == events[..k];
      SlotStaysGone(events[..n], k, slot);
      StepKeepsSlotGone(TableRun(events[..n]).0, events[n], slot);
    }
  }

  /** An enrol token works once: after it was redeemed, until a token is issued into the same slot,
      any token for that slot is refused and changes nothing, whatever else happened. */
  lemma TokenWorksOnce(c: Setting, events: seq<Event>, k: nat, again: Event)
    requires AllAllowed(c, events) && k < |events| && events[k].RedeemEnrolToken?
    requires OutcomeAt(c, events, k) == Done && Allowed(c, again)
    requires forall i :: k < i < |events| && events[i].IssueEnrolToken? ==> Some(events[i].slot) != SlotOf(events[k])
    requires again.RedeemEnrolToken? && SlotOf(again) == SlotOf(events[k])
    ensures Step(c, Run(c, events).0, again) == (Run(c, events).0, No(NotFound))
  {
    hide StandsFor, EnrolKeyOf, Run, OutcomeAt, TableRun, Step, SlotOf;
    OutcomeOnTable(c, events, k);
    VaultBehavesAsTable(c, events);
    RedeemBurns(events, k);
    var slot := SlotOf(events[k]).value;
    SlotStaysGone(events, k + 1, slot);
    SlotFound(c, Run(c, events).0, TableRun(events).0, slot);
    RedeemMissing(c, Run(c, events).0, again);
  }

  /** From position `k` on, the slot is not issued again, not lost and not redeemed. */
  predicate SlotLeftAlone(events: seq<Event>, k: nat, slot: string) {
    forall i :: k <= i < |events| ==>
      match events[i]
      case IssueEnrolToken(_, s, _, _, _, _) => s != slot
      case RedeemEnrolToken(_, _, _, _, _) => SlotOf(events[i]) != Some(slot)
      case Lose(keys) => EnrolKeyOf(slot) !in keys
      case _ => true
  }

  lemma StepKeepsSlot(t: Table, e: Event, slot: string)
    requires SlotLeftAlone([e], 0, slot) && slot in t.slots
    ensures slot in TableStep(t, e).0.slots && TableStep(t, e).0.slots[slot] == t.slots[slot]
  {
    hide SecretKeyOf, DeviceKeyOf, PairKeyOf, EnrolKeyOf, GrantKeyOf, TokenText, ParseToken, ReadAbilities;
    assert [e][0] == e;
  }

  lemma {:induction false} KeepsSlot(events: seq<Event>, k: nat, slot: string)
    requires k <= |events| && SlotLeftAlone(events, k, slot) && slot in TableRun(events[..k]).0.slots
    ensures slot in TableRun(events).0.slots && TableRun(events).0.slots[slot] == TableRun(events[..k]).0.slots[slot]
  {
    hide TableStep, SlotOf, EnrolKeyOf;
    if k == |events| {
      assert events[..k] == events;
    } else {
      var n := |events| - 1;
      assert events[..n][..k] == events[..k];
      assert SlotLeftAlone([events[n]], 0, slot) by { assert [events[n]][0] == events[n]; }
      KeepsSlot(events[..n], k, slot);
      StepKeepsSlot(TableRun(events[..n]).0, events[n], slot);
    }
  }

  lemma IssueFills(events: seq<Event>, k: nat)
    requires k < |events| && events[k].IssueEnrolToken? && !TableRun(events[..k + 1]).1.No?
    ensures var t, e := TableRun(events[..k + 1]), events[k];
            && t.1 == Outcome.Text(TokenText(e.slot, e.secret))
            && e.slot in t.0.slots && t.0.slots[e.slot] == Slot(e.secret, e.nowSecs + e.ttl)
  {
    hide TokenText;
    assert events[..k + 1][..k] == events[..k];
  }

  lemma RedeemOnTable(t: Table, e: Event, slot: string)
    requires e.RedeemEnrolToken? && slot in t.slots && ParseToken(e.token) == Some((slot, t.slots[slot].secret))
    ensures TableStep(t, e).1 == if t.slots[slot].expires < e.nowSecs then No(Expired) else Done
    ensures e.nowSecs <= t.slots[slot].expires ==> e.who in TableStep(t, e).0.enrolled
  {
    hide ParseToken;
  }

  /** An issued token enrols whoever redeems it in time, exactly: until its slot is redeemed, lost or
      issued again, redeeming the text that was returned succeeds up to its expiry and is refused
      after it; and the device then unwraps the one master. */
  lemma TokenEnrols(c: Setting, events: seq<Event>, k: nat, redeem: Event)
    requires AllAllowed(c, events) && k < |events| && events[k].IssueEnrolToken? && '.' !in events[k].slot
    requires OutcomeAt(c, events, k).Text? && SlotLeftAlone(events, k + 1, events[k].slot)
    requires redeem.RedeemEnrolToken? && Allowed(c, redeem) && redeem.token == OutcomeAt(c, events, k).text
    ensures var r := Step(c, Run(c, events).0, redeem);
            if events[k].nowSecs + events[k].ttl < redeem.nowSecs then r.1 == No(Expired)
            else r.1 == Done && V.LoadMaster(r.0, c.fleet[redeem.who]) == Answered(TheMaster(c))
  {
    hide Run, OutcomeAt, TableRun, Step, TableStep, StandsFor, SlotLeftAlone, TokenText, ParseToken, V.LoadMaster;
    var e := events[k];
    var rs, t := Run(c, events).0, TableRun(events).0;
    OutcomeOnTable(c, events, k);
    VaultBehavesAsTable(c, events);
    IssueFills(events, k);
    KeepsSlot(events, k + 1, e.slot);
    TokenReadsBack(e.slot, e.secret);
    StepSimulates(c, rs, t, redeem);
    RedeemOnTable(t, redeem, e.slot);
    MasterOf(c, Step(c, rs, redeem).0, TableStep(t, redeem).0, redeem.who);
  }
}
