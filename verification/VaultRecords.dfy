/**
 The secrets vault: records in one shared key/value store, written by several devices. Cryptography
 is symbolic: what is wrapped to a key comes out only with the matching private key, what is sealed
 opens only under the same key, and a signature names its signer and the body it covers.
 */
module VaultRecords {
  import opened Outcomes
  import opened Hex

  /** A byte string: plain bytes, or the master that an owner's private scalar yields in a namespace. */
  datatype Bytes = Raw(data: seq<Byte>) | OwnerMaster(scalar: nat, ns: string)

  datatype PublicKey = PublicKey(scalar: nat)

  /** A device's private scalars for wrapping and for signing. */
  datatype DeviceKey = DeviceKey(id: string, ecdh: nat, ecdsa: nat)

  datatype DevicePublic = DevicePublic(id: string, ecdhPub: PublicKey, ecdsaPub: PublicKey)

  function PublicOf(d: DeviceKey): DevicePublic {
    DevicePublic(d.id, PublicKey(d.ecdh), PublicKey(d.ecdsa))
  }

  datatype WrapBlob = WrapBlob(recipient: PublicKey, payload: Bytes)

  function UnwrapMaster(scalar: nat, w: WrapBlob): Option<Bytes> {
    if w.recipient == PublicKey(scalar) then Some(w.payload) else None
  }

  datatype Sealed = Sealed(key: Bytes, plain: Bytes)

  function OpenSealed(key: Bytes, s: Sealed): Option<Bytes> {
    if s.key == key then Some(s.plain) else None
  }

  datatype GrantBody = GrantBody(
    id: string, audience: string, abilities: seq<string>, issuer: string, issued: string, expires: Option<string>)

  datatype Signature = Signature(signer: PublicKey, over: GrantBody)

  datatype GrantToken = GrantToken(body: GrantBody, issuerPub: PublicKey, sig: Signature)

  datatype Record =
    | MetaRec(owner: string, createdAt: string)
    | DeviceRec(id: string, deviceLabel: string, ecdhPub: PublicKey, ecdsaPub: PublicKey, wrapped: WrapBlob, addedAt: string, writer: string)
    | PairRec(code: string, deviceLabel: string, pub: DevicePublic, ts: string)
    | EnrolRec(id: string, deviceLabel: string, sealed: Sealed, expires: int)
    | SecretRec(name: string, kind: string, version: nat, createdAt: string, rotatedAt: Option<string>, sealed: Sealed, writer: string)
    | GrantRec(token: GrantToken)

  type Records = map<string, Record>

  // ---- keys ----

  const META: string := "meta"

  function DeviceKeyOf(id: string): string { "d." + id }

  function PairKeyOf(code: string): string { "p." + code }

  function EnrolKeyOf(id: string): string { "enrol." + id }

  function SecretKeyOf(name: string): string { "s." + name }

  function GrantKeyOf(id: string): string { "g." + id }

  /** The record class of a key, and the name in it. */
  function Class(key: string): char {
    if key == "" then ' ' else key[0]
  }

  function NameIn(key: string): string {
    if "enrol." <= key then key[6..] else if |key| >= 2 then key[2..] else ""
  }

  lemma DeviceKeys()
    ensures forall id :: Class(DeviceKeyOf(id)) == 'd' && NameIn(DeviceKeyOf(id)) == id
  {
  }

  lemma PairKeys()
    ensures forall code :: Class(PairKeyOf(code)) == 'p' && NameIn(PairKeyOf(code)) == code
  {
  }

  lemma EnrolKeys()
    ensures forall id :: Class(EnrolKeyOf(id)) == 'e' && NameIn(EnrolKeyOf(id)) == id
  {
  }

  lemma SecretKeys()
    ensures forall name :: Class(SecretKeyOf(name)) == 's' && NameIn(SecretKeyOf(name)) == name
  {
  }

  lemma GrantKeys()
    ensures forall id :: Class(GrantKeyOf(id)) == 'g' && NameIn(GrantKeyOf(id)) == id
  {
  }

  /** Keys of different classes differ, whatever the names in them, and within a class the key
      determines the name. */
  lemma KeysApart(d: string, p: string, e: string, s: string, g: string)
    ensures var keys := [META, DeviceKeyOf(d), PairKeyOf(p), EnrolKeyOf(e), SecretKeyOf(s), GrantKeyOf(g)];
            forall i, j :: 0 <= i < j < 6 ==> keys[i] != keys[j]
    ensures forall x :: (DeviceKeyOf(x) == DeviceKeyOf(d) ==> x == d) && (PairKeyOf(x) == PairKeyOf(p) ==> x == p)
    ensures forall x :: (EnrolKeyOf(x) == EnrolKeyOf(e) ==> x == e) && (SecretKeyOf(x) == SecretKeyOf(s) ==> x == s)
    ensures forall x :: GrantKeyOf(x) == GrantKeyOf(g) ==> x == g
  {
    assert Class(META) == 'm';
    hide *;
    DeviceKeys();
    PairKeys();
    EnrolKeys();
    SecretKeys();
    GrantKeys();
    var keys := [META, DeviceKeyOf(d), PairKeyOf(p), EnrolKeyOf(e), SecretKeyOf(s), GrantKeyOf(g)];
    var classes := ['m', 'd', 'p', 'e', 's', 'g'];
    assert forall i :: 0 <= i < 6 ==> Class(keys[i]) == classes[i];
    forall x ensures (DeviceKeyOf(x) == DeviceKeyOf(d) ==> x == d) && (PairKeyOf(x) == PairKeyOf(p) ==> x == p) {
      assert NameIn(DeviceKeyOf(x)) == x && NameIn(PairKeyOf(x)) == x;
    }
    forall x ensures (EnrolKeyOf(x) == EnrolKeyOf(e) ==> x == e) && (SecretKeyOf(x) == SecretKeyOf(s) ==> x == s) {
      assert NameIn(EnrolKeyOf(x)) == x && NameIn(SecretKeyOf(x)) == x;
    }
    forall x | GrantKeyOf(x) == GrantKeyOf(g) ensures x == g { assert NameIn(GrantKeyOf(x)) == x; }
  }

  // ---- enrol tokens as text ----

  /** `<id>.<hex of the secret>`. */
  function TokenText(id: string, secret: seq<Byte>): string {
    id + ("." + Encode(secret))
  }

  /** `split_once('.')`. */
  function SplitOnce(s: string): Option<(string, string)> {
    if s == "" then None
    else if s[0] == '.' then Some(("", s[1..]))
    else
      match SplitOnce(s[1..])
      case None => None
      case Some((a, b)) => Some(([s[0]] + a, b))
  }

  lemma {:induction false} SplitAtDot(a: string, b: string)
    requires '.' !in a
    ensures SplitOnce(a + ("." + b)) == Some((a, b))
  {
    var s := a + ("." + b);
    if a == "" {
      assert s == "." + b && s[1..] == b;
    } else {
      SplitAtDot(a[1..], b);
      assert s[1..] == a[1..] + ("." + b);
      assert a == [a[0]] + a[1..];
    }
  }

  /** `u8::from_str_radix` on two characters: two hex digits, or a plus sign and one. */
  function ReadByte(c: char, d: char): Option<Byte> {
    if HexValue(d).None? || HexValue(d).value >= 16 then None
    else if c == '+' then Some(HexValue(d).value)
    else if HexValue(c).None? || HexValue(c).value >= 16 then None
    else Some(16 * HexValue(c).value + HexValue(d).value)
  }

  /** `b64_decode`, which reads hex. */
  function ReadSecret(s: string): Option<seq<Byte>> {
    if s == "" then Some([])
    else if |s| == 1 then None
    else
      match (ReadByte(s[0], s[1]), ReadSecret(s[2..]))
      case (Some(b), Some(rest)) => Some([b] + rest)
      case _ => None
  }

  lemma {:induction false} SecretReadsBack(secret: seq<Byte>)
    ensures ReadSecret(Encode(secret)) == Some(secret)
  {
    if secret != [] {
      SecretReadsBack(secret[1..]);
      DigitValue(secret[0] / 16);
      DigitValue(secret[0] % 16);
      assert Encode(secret)[2..] == Encode(secret[1..]);
      assert secret == [secret[0]] + secret[1..];
    }
  }

  /** The slot and the secret that a token text names. */
  function ParseToken(token: string): Option<(string, seq<Byte>)> {
    match SplitOnce(token)
    case None => None
    case Some((id, text)) =>
      match ReadSecret(text)
      case None => None
      case Some(secret) => Some((id, secret))
  }

  /** A token that was issued reads back as the slot and secret it was made of. */
  lemma TokenReadsBack(id: string, secret: seq<Byte>)
    requires '.' !in id
    ensures ParseToken(TokenText(id, secret)) == Some((id, secret))
  {
    SplitAtDot(id, Encode(secret));
    SecretReadsBack(secret);
  }

  // ---- the operations on the records ----

  datatype Refusal = MalformedToken | NotEnrolled | NotFound | BadRecord | Expired | WrongSecret | OwnDevice

  datatype Reply<+T> = Answered(value: T) | Refused(why: Refusal)

  function OrElse(text: string, other: string): string {
    if text == "" then other else text
  }

  function LoadMaster(rs: Records, d: DeviceKey): Reply<Bytes> {
    if DeviceKeyOf(d.id) !in rs then Refused(NotEnrolled)
    else
      match rs[DeviceKeyOf(d.id)]
      case DeviceRec(_, _, _, _, wrapped, _, _) =>
        (match UnwrapMaster(d.ecdh, wrapped)
         case Some(master) => Answered(master)
         case None => Refused(WrongSecret))
      case _ => Refused(BadRecord)
  }

  /** Wrap the master to a device's public key and write its record. */
  function Enroll(rs: Records, writer: DeviceKey, pub: DevicePublic, master: Bytes, deviceLabel: string, id: string, now: string): Records {
    rs[DeviceKeyOf(id) := DeviceRec(id, deviceLabel, pub.ecdhPub, pub.ecdsaPub, WrapBlob(pub.ecdhPub, master), now, writer.id)]
  }

  function Recover(rs: Records, d: DeviceKey, ns: string, deviceLabel: string, now: string): Records {
    Enroll(rs, d, PublicOf(d), OwnerMaster(d.ecdh, ns), OrElse(deviceLabel, "this device (owner)"), d.id, now)[META := MetaRec(d.id, now)]
  }

  function Init(rs: Records, d: DeviceKey, ns: string, deviceLabel: string, now: string): (Records, bool) {
    if META in rs then (rs, false) else (Recover(rs, d, ns, deviceLabel, now), true)
  }

  function RequestPairing(rs: Records, d: DeviceKey, code: string, deviceLabel: string, now: string): Records {
    rs[PairKeyOf(code) := PairRec(code, OrElse(deviceLabel, "new device"), PublicOf(d), now)]
  }

  function ApprovePairing(rs: Records, d: DeviceKey, code: string, now: string): (Records, Reply<string>) {
    if PairKeyOf(code) !in rs then (rs, Refused(NotFound))
    else
      match rs[PairKeyOf(code)]
      case PairRec(_, l, pub, _) =>
        (match LoadMaster(rs, d)
         case Refused(why) => (rs, Refused(why))
         case Answered(master) => (Enroll(rs, d, pub, master, l, pub.id, now) - {PairKeyOf(code)}, Answered(pub.id)))
      case _ => (rs, Refused(BadRecord))
  }

  /** `slot` is the fingerprint of the fresh secret. */
  function IssueEnrolToken(rs: Records, d: DeviceKey, slot: string, secret: seq<Byte>, deviceLabel: string, ttl: nat, nowSecs: int): (Records, Reply<string>) {
    match LoadMaster(rs, d)
    case Refused(why) => (rs, Refused(why))
    case Answered(master) =>
      (rs[EnrolKeyOf(slot) := EnrolRec(slot, OrElse(deviceLabel, "enrolled device"), Sealed(Raw(secret), master), nowSecs + ttl)],
       Answered(TokenText(slot, secret)))
  }

  function RedeemSlot(rs: Records, d: DeviceKey, slot: string, secret: seq<Byte>, deviceLabel: string, now: string, nowSecs: int): (Records, Reply<()>) {
    if EnrolKeyOf(slot) !in rs then (rs, Refused(NotFound))
    else
      match rs[EnrolKeyOf(slot)]
      case EnrolRec(_, _, sealed, expires) =>
        if expires < nowSecs then (rs, Refused(Expired))
        else
          (match OpenSealed(Raw(secret), sealed)
           case None => (rs, Refused(WrongSecret))
           case Some(master) =>
             (Enroll(rs, d, PublicOf(d), master, OrElse(deviceLabel, "vm device"), d.id, now) - {EnrolKeyOf(slot)}, Answered(())))
      case _ => (rs, Refused(BadRecord))
  }

  function RedeemEnrolToken(rs: Records, d: DeviceKey, token: string, deviceLabel: string, now: string, nowSecs: int): (Records, Reply<()>) {
    match ParseToken(token)
    case None => (rs, Refused(MalformedToken))
    case Some((slot, secret)) => RedeemSlot(rs, d, slot, secret, deviceLabel, now, nowSecs)
  }

  function RevokeDevice(rs: Records, d: DeviceKey, id: string): (Records, Reply<()>) {
    if id == d.id then (rs, Refused(OwnDevice)) else (rs - {DeviceKeyOf(id)}, Answered(()))
  }

  /** The new version is one more than the stored one, the creation time is kept, and a value that
      replaces another carries its rotation time. */
  function PutSecret(rs: Records, d: DeviceKey, name: string, value: Bytes, kind: string, now: string): (Records, Reply<nat>) {
    match LoadMaster(rs, d)
    case Refused(why) => (rs, Refused(why))
    case Answered(master) =>
      var k := SecretKeyOf(name);
      var prev := k in rs && rs[k].SecretRec?;
      var version := (if prev then rs[k].version else 0) + 1;
      var created := if prev then rs[k].createdAt else now;
      (rs[k := SecretRec(name, kind, version, created, if k in rs then Some(now) else None, Sealed(master, value), d.id)], Answered(version))
  }

  /** What `get_secret` gives its caller. */
  datatype Revealed = Revealed(bytes: Bytes, kind: string)

  function GetSecret(rs: Records, d: DeviceKey, name: string): Reply<Revealed> {
    if SecretKeyOf(name) !in rs then Refused(NotFound)
    else
      match LoadMaster(rs, d)
      case Refused(why) => Refused(why)
      case Answered(master) =>
        match rs[SecretKeyOf(name)]
        case SecretRec(_, kind, _, _, _, sealed, _) =>
          (match OpenSealed(master, sealed)
           case Some(value) => Answered(Revealed(value, kind))
           case None => Refused(WrongSecret))
        case _ => Refused(BadRecord)
  }

  function DeleteSecret(rs: Records, name: string): Records {
    rs - {SecretKeyOf(name)}
  }

  function ReadAbility(name: string): string {
    "read:" + name
  }

  function ReadAbilities(names: seq<string>): seq<string> {
    seq(|names|, i requires 0 <= i < |names| => ReadAbility(names[i]))
  }

  function SignGrant(d: DeviceKey, body: GrantBody): GrantToken {
    GrantToken(body, PublicKey(d.ecdsa), Signature(PublicKey(d.ecdsa), body))
  }

  function GrantBodyFor(d: DeviceKey, id: string, audience: string, names: seq<string>, expires: Option<string>, now: string): GrantBody {
    GrantBody(id, audience, ReadAbilities(names), d.id, now, expires)
  }

  function IssueGrant(rs: Records, d: DeviceKey, id: string, audience: string, names: seq<string>, expires: Option<string>, now: string): (Records, Reply<GrantToken>) {
    if DeviceKeyOf(d.id) !in rs then (rs, Refused(NotEnrolled))
    else
      var token := SignGrant(d, GrantBodyFor(d, id, audience, names, expires, now));
      (rs[GrantKeyOf(id) := GrantRec(token)], Answered(token))
  }

  function RevokeGrant(rs: Records, id: string): Records {
    rs - {GrantKeyOf(id)}
  }

  datatype Verdict = Accepted | BadSignature | IssuerNotEnrolled | KeyMismatch | GrantRevoked | GrantExpired | AudienceMismatch | NotPermitted

  /** `readTime` is how an expiry text is read; one it cannot read is ignored. */
  function VerifyGrant(rs: Records, readTime: string -> Option<int>, t: GrantToken, audience: string, action: string, name: string, nowMs: int): Verdict {
    var b := t.body;
    if t.sig != Signature(t.issuerPub, b) then BadSignature
    else if DeviceKeyOf(b.issuer) !in rs then IssuerNotEnrolled
    else if !(rs[DeviceKeyOf(b.issuer)].DeviceRec? && rs[DeviceKeyOf(b.issuer)].ecdsaPub == t.issuerPub) then KeyMismatch
    else if GrantKeyOf(b.id) !in rs then GrantRevoked
    else if b.expires.Some? && readTime(b.expires.value).Some? && readTime(b.expires.value).value < nowMs then GrantExpired
    else if b.audience != audience then AudienceMismatch
    else if !(action + (":" + name) in b.abilities || action + ":*" in b.abilities) then NotPermitted
    else Accepted
  }
}

/** The vault as an object: one device's key and the store it shares with the others. */
module Vaults {
  import opened Outcomes
  import opened Hex
  import opened VaultRecords
  import V = VaultRecords

  class MemStore {
    var inner: Records

    constructor ()
      ensures inner == map[]
    {
      inner := map[];
    }

    method Get(key: string) returns (r: Option<Record>)
      ensures r == if key in inner then Some(inner[key]) else None
    {
      return if key in inner then Some(inner[key]) else None;
    }

    method Put(key: string, value: Record)
      modifies this
      ensures inner == old(inner)[key := value]
    {
      inner := inner[key := value];
    }

    method Del(key: string)
      modifies this
      ensures inner == old(inner) - {key}
    {
      inner := inner - {key};
    }
  }

  class Vault {
    const store: MemStore
    const device: DeviceKey
    const ns: string

    constructor (store: MemStore, device: DeviceKey, ns: string)
      ensures this.store == store && this.device == device && this.ns == ns
    {
      this.store, this.device, this.ns := store, device, ns;
    }

    method LoadMaster() returns (r: Reply<Bytes>)
      ensures r == V.LoadMaster(store.inner, device)
    {
      hide DeviceKeyOf;
      var rec := store.Get(DeviceKeyOf(device.id));
      match rec {
        case None => return Refused(NotEnrolled);
        case Some(DeviceRec(_, _, _, _, wrapped, _, _)) =>
          match UnwrapMaster(device.ecdh, wrapped) {
            case Some(master) => return Answered(master);
            case None => return Refused(WrongSecret);
          }
        case Some(_) => return Refused(BadRecord);
      }
    }

    method Enroll(pub: DevicePublic, master: Bytes, deviceLabel: string, id: string, now: string)
      modifies store
      ensures store.inner == V.Enroll(old(store.inner), device, pub, master, deviceLabel, id, now)
    {
      var wrapped := WrapBlob(pub.ecdhPub, master);
      store.Put(DeviceKeyOf(id), DeviceRec(id, deviceLabel, pub.ecdhPub, pub.ecdsaPub, wrapped, now, device.id));
    }

    method Recover(deviceLabel: string, now: string)
      modifies store
      ensures store.inner == V.Recover(old(store.inner), device, ns, deviceLabel, now)
    {
      var master := OwnerMaster(device.ecdh, ns);
      Enroll(PublicOf(device), master, OrElse(deviceLabel, "this device (owner)"), device.id, now);
      store.Put(META, MetaRec(device.id, now));
    }

    method Init(deviceLabel: string, now: string) returns (created: bool)
      modifies store
      ensures (store.inner, created) == V.Init(old(store.inner), device, ns, deviceLabel, now)
    {
      var meta := store.Get(META);
      if meta.Some? { return false; }
      Recover(deviceLabel, now);
      return true;
    }

    method RequestPairing(code: string, deviceLabel: string, now: string)
      modifies store
      ensures store.inner == V.RequestPairing(old(store.inner), device, code, deviceLabel, now)
    {
      store.Put(PairKeyOf(code), PairRec(code, OrElse(deviceLabel, "new device"), PublicOf(device), now));
    }

    method ApprovePairing(code: string, now: string) returns (r: Reply<string>)
      modifies store
      ensures (store.inner, r) == V.ApprovePairing(old(store.inner), device, code, now)
    {
      hide PairKeyOf, V.Enroll, V.LoadMaster;
      var req := store.Get(PairKeyOf(code));
      match req {
        case None => return Refused(NotFound);
        case Some(PairRec(_, l, pub, _)) =>
          var loaded := LoadMaster();
          match loaded {
            case Refused(why) => return Refused(why);
            case Answered(master) =>
              Enroll(pub, master, l, pub.id, now);
              store.Del(PairKeyOf(code));
              return Answered(pub.id);
          }
        case Some(_) => return Refused(BadRecord);
      }
    }

    method IssueEnrolToken(slot: string, secret: seq<Byte>, deviceLabel: string, ttl: nat, nowSecs: int) returns (r: Reply<string>)
      modifies store
      ensures (store.inner, r) == V.IssueEnrolToken(old(store.inner), device, slot, secret, deviceLabel, ttl, nowSecs)
    {
      hide EnrolKeyOf, TokenText, V.LoadMaster;
      var loaded := LoadMaster();
      match loaded {
        case Refused(why) => return Refused(why);
        case Answered(master) =>
          var sealed := Sealed(Raw(secret), master);
          store.Put(EnrolKeyOf(slot), EnrolRec(slot, OrElse(deviceLabel, "enrolled device"), sealed, nowSecs + ttl));
          return Answered(TokenText(slot, secret));
      }
    }

    method RedeemEnrolToken(token: string, deviceLabel: string, now: string, nowSecs: int) returns (r: Reply<()>)
      modifies store
      ensures (store.inner, r) == V.RedeemEnrolToken(old(store.inner), device, token, deviceLabel, now, nowSecs)
    {
      hide EnrolKeyOf, V.Enroll, SplitOnce, ReadSecret;
      var split := SplitOnce(token);
      if split.None? { return Refused(MalformedToken); }
      var read := ReadSecret(split.value.1);
      if read.None? { return Refused(MalformedToken); }
      var (slot, secret) := (split.value.0, read.value);
      var rec := store.Get(EnrolKeyOf(slot));
      match rec {
        case None => return Refused(NotFound);
        case Some(EnrolRec(_, _, sealed, expires)) =>
          if expires < nowSecs { return Refused(Expired); }
          match OpenSealed(Raw(secret), sealed) {
            case None => return Refused(WrongSecret);
            case Some(master) =>
              Enroll(PublicOf(device), master, OrElse(deviceLabel, "vm device"), device.id, now);
              store.Del(EnrolKeyOf(slot));
              return Answered(());
          }
        case Some(_) => return Refused(BadRecord);
      }
    }

    method RevokeDevice(id: string) returns (r: Reply<()>)
      modifies store
      ensures (store.inner, r) == V.RevokeDevice(old(store.inner), device, id)
    {
      if id == device.id { return Refused(OwnDevice); }
      store.Del(DeviceKeyOf(id));
      return Answered(());
    }

    method PutSecret(name: string, value: Bytes, kind: string, now: string) returns (r: Reply<nat>)
      modifies store
      ensures (store.inner, r) == V.PutSecret(old(store.inner), device, name, value, kind, now)
    {
      hide SecretKeyOf, V.LoadMaster;
      var loaded := LoadMaster();
      match loaded {
        case Refused(why) => return Refused(why);
        case Answered(master) =>
          var sealed := Sealed(master, value);
          var prev := store.Get(SecretKeyOf(name));
          var version, created := 1, now;
          if prev.Some? && prev.value.SecretRec? {
            version, created := prev.value.version + 1, prev.value.createdAt;
          }
          var rotated := if prev.Some? then Some(now) else None;
          store.Put(SecretKeyOf(name), SecretRec(name, kind, version, created, rotated, sealed, device.id));
          return Answered(version);
      }
    }

    method GetSecret(name: string) returns (r: Reply<Revealed>)
      ensures r == V.GetSecret(store.inner, device, name)
    {
      hide SecretKeyOf, V.LoadMaster;
      var rec := store.Get(SecretKeyOf(name));
      if rec.None? { return Refused(NotFound); }
      var loaded := LoadMaster();
      match loaded {
        case Refused(why) => return Refused(why);
        case Answered(master) =>
          match rec.value {
            case SecretRec(_, kind, _, _, _, sealed, _) =>
              match OpenSealed(master, sealed) {
                case Some(value) => return Answered(Revealed(value, kind));
                case None => return Refused(WrongSecret);
              }
            case _ => return Refused(BadRecord);
          }
      }
    }

    method DeleteSecret(name: string)
      modifies store
      ensures store.inner == V.DeleteSecret(old(store.inner), name)
    {
      store.Del(SecretKeyOf(name));
    }

    method IssueGrant(id: string, audience: string, names: seq<string>, expires: Option<string>, now: string) returns (r: Reply<GrantToken>)
      modifies store
      ensures (store.inner, r) == V.IssueGrant(old(store.inner), device, id, audience, names, expires, now)
    {
      hide DeviceKeyOf, GrantKeyOf, ReadAbilities;
      var enrolled := store.Get(DeviceKeyOf(device.id));
      if enrolled.None? { return Refused(NotEnrolled); }
      var token := SignGrant(device, GrantBodyFor(device, id, audience, names, expires, now));
      store.Put(GrantKeyOf(id), GrantRec(token));
      return Answered(token);
    }

    method RevokeGrant(id: string)
      modifies store
      ensures store.inner == V.RevokeGrant(old(store.inner), id)
    {
      store.Del(GrantKeyOf(id));
    }

    method VerifyGrant(readTime: string -> Option<int>, t: GrantToken, audience: string, action: string, name: string, nowMs: int)
      returns (v: Verdict)
      ensures v == V.VerifyGrant(store.inner, readTime, t, audience, action, name, nowMs)
    {
      hide DeviceKeyOf, GrantKeyOf;
      if t.sig != Signature(t.issuerPub, t.body) { return BadSignature; }
      var dev := store.Get(DeviceKeyOf(t.body.issuer));
      match dev {
        case None => return IssuerNotEnrolled;
        case Some(d) => if !d.DeviceRec? || d.ecdsaPub != t.issuerPub { return KeyMismatch; }
      }
      var grant := store.Get(GrantKeyOf(t.body.id));
      if grant.None? { return GrantRevoked; }
      if t.body.expires.Some? {
        var exp := readTime(t.body.expires.value);
        if exp.Some? && exp.value < nowMs { return GrantExpired; }
      }
      if t.body.audience != audience { return AudienceMismatch; }
      var want, wantStar := action + (":" + name), action + ":*";
      if want !in t.body.abilities && wantStar !in t.body.abilities { return NotPermitted; }
      return Accepted;
    }
  }
}
