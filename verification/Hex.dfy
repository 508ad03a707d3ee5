/** Hexadecimal text, as the `hex` crate writes and reads it, and the trimming Rust's `str` does. */
module Hex {
  import opened Outcomes

  type Byte = x: int | 0 <= x < 256

  function HexDigit(n: nat): char
    requires n < 16
  {
    if n < 10 then '0' + n as char else 'a' + (n - 10) as char
  }

  function HexValue(c: char): Option<nat> {
    if '0' <= c <= '9' then Some((c - '0') as nat)
    else if 'a' <= c <= 'f' then Some((c - 'a') as nat + 10)
    else if 'A' <= c <= 'F' then Some((c - 'A') as nat + 10)
    else None
  }

  /** `hex::encode`. */
  function Encode(bytes: seq<Byte>): (s: string)
    ensures |s| == 2 * |bytes|
  {
    if bytes == [] then ""
    else [HexDigit(bytes[0] / 16), HexDigit(bytes[0] % 16)] + Encode(bytes[1..])
  }

  /** `hex::decode`: an even number of hex digits of either case, or an error. */
  function Decode(s: string): (r: Option<seq<Byte>>)
    ensures r.Some? ==> |s| == 2 * |r.value|
  {
    if s == "" then Some([])
    else if |s| == 1 then None
    else
      match (HexValue(s[0]), HexValue(s[1]), Decode(s[2..]))
      case (Some(hi), Some(lo), Some(rest)) => ByteOf(hi, lo, rest)
      case _ => None
  }

  function ByteOf(hi: nat, lo: nat, rest: seq<Byte>): Option<seq<Byte>> {
    if hi < 16 && lo < 16 then Some([16 * hi + lo] + rest) else None
  }

  /** `to_lowercase` on the ASCII letters. */
  function LowerChar(c: char): char {
    if 'A' <= c <= 'Z' then 'a' + (c - 'A') else c
  }

  function Lower(s: string): (r: string)
    ensures |r| == |s|
  {
    if s == "" then "" else [LowerChar(s[0])] + Lower(s[1..])
  }

  lemma DecodeCons(c: char, d: char, s: string)
    requires HexValue(c).Some? && HexValue(d).Some? && Decode(s).Some?
    ensures HexValue(c).value < 16 && HexValue(d).value < 16
    ensures Decode([c, d] + s) == Some([16 * HexValue(c).value + HexValue(d).value] + Decode(s).value)
  {
    assert ([c, d] + s)[2..] == s;
  }

  lemma {:induction false} DecodeEncode(bytes: seq<Byte>)
    ensures Decode(Encode(bytes)) == Some(bytes)
  {
    if bytes != [] {
      DecodeEncode(bytes[1..]);
      DigitValue(bytes[0] / 16);
      DigitValue(bytes[0] % 16);
      DecodeCons(HexDigit(bytes[0] / 16), HexDigit(bytes[0] % 16), Encode(bytes[1..]));
      assert bytes == [bytes[0]] + bytes[1..];
    }
  }

  lemma DigitValue(n: nat)
    requires n < 16
    ensures HexValue(HexDigit(n)) == Some(n)
  {
  }

  lemma DigitOfValue(c: char)
    requires HexValue(c).Some?
    ensures HexValue(c).value < 16 && HexDigit(HexValue(c).value) == LowerChar(c)
    ensures HexValue(LowerChar(c)) == HexValue(c)
  {
  }

  lemma LowerCons(c: char, d: char, s: string)
    ensures Lower([c, d] + s) == [LowerChar(c), LowerChar(d)] + Lower(s)
  {
    assert ([c, d] + s)[1..] == [d] + s && ([d] + s)[1..] == s;
  }

  lemma EncodeCons(hi: nat, lo: nat, bytes: seq<Byte>)
    requires hi < 16 && lo < 16
    ensures Encode([16 * hi + lo] + bytes) == [HexDigit(hi), HexDigit(lo)] + Encode(bytes)
  {
    assert ([16 * hi + lo] + bytes)[1..] == bytes;
    assert (16 * hi + lo) / 16 == hi && (16 * hi + lo) % 16 == lo;
  }

  lemma DecodeParts(s: string)
    requires Decode(s).Some? && s != ""
    ensures |s| >= 2 && HexValue(s[0]).Some? && HexValue(s[1]).Some? && Decode(s[2..]).Some?
  {
  }

  lemma {:induction false} DecodeLower(s: string)
    requires Decode(s).Some?
    ensures Decode(Lower(s)) == Decode(s)
  {
    if s != "" {
      hide *;
      DecodeParts(s);
      var c, d, t := s[0], s[1], s[2..];
      assert s == [c, d] + t;
      DecodeLower(t);
      DigitOfValue(c);
      DigitOfValue(d);
      LowerCons(c, d, t);
      DecodeCons(c, d, t);
      DecodeCons(LowerChar(c), LowerChar(d), Lower(t));
    }
  }

  lemma {:induction false} EncodeLower(s: string)
    requires Decode(s).Some?
    ensures Encode(Decode(s).value) == Lower(s)
  {
    if s != "" {
      hide *;
      DecodeParts(s);
      var c, d, t := s[0], s[1], s[2..];
      assert s == [c, d] + t;
      EncodeLower(t);
      DigitOfValue(c);
      DigitOfValue(d);
      LowerCons(c, d, t);
      DecodeCons(c, d, t);
      EncodeCons(HexValue(c).value, HexValue(d).value, Decode(t).value);
    }
  }

  /** Reading hex and writing it again only changes the case of the letters. */
  lemma EncodeDecode(s: string)
    requires Decode(s).Some?
    ensures Encode(Decode(s).value) == Lower(s)
    ensures Decode(Lower(s)) == Decode(s)
  {
    EncodeLower(s);
    DecodeLower(s);
  }

  lemma LowerHexValue(c: char)
    ensures HexValue(LowerChar(c)) == HexValue(c)
  {
  }

  lemma {:induction false} LowerDecodes(s: string)
    requires Decode(Lower(s)).Some?
    ensures Decode(s).Some?
  {
    if |s| >= 2 {
      var t := s[2..];
      assert s == [s[0], s[1]] + t;
      LowerCons(s[0], s[1], t);
      assert Lower(s)[2..] == Lower(t);
      LowerDecodes(t);
      LowerHexValue(s[0]);
      LowerHexValue(s[1]);
      DecodeCons(s[0], s[1], t);
    }
  }

  lemma {:induction false} LowerIdempotent(s: string)
    ensures Lower(Lower(s)) == Lower(s)
  {
    if s != "" { LowerIdempotent(s[1..]); }
  }

  // ---- trimming ----

  /** The characters with the Unicode property White_Space, which `str::trim` removes. */
  predicate IsSpace(c: char) {
    || '\U{9}' <= c <= '\U{D}' || c == ' ' || c == '\U{85}' || c == '\U{A0}' || c == '\U{1680}'
    || '\U{2000}' <= c <= '\U{200A}' || c == '\U{2028}' || c == '\U{2029}' || c == '\U{202F}'
    || c == '\U{205F}' || c == '\U{3000}'
  }

  function TrimStart(s: string): string {
    if s != "" && IsSpace(s[0]) then TrimStart(s[1..]) else s
  }

  function TrimEnd(s: string): string {
    if s != "" && IsSpace(s[|s| - 1]) then TrimEnd(s[..|s| - 1]) else s
  }

  function Trim(s: string): string {
    TrimEnd(TrimStart(s))
  }

  predicate Trimmed(s: string) {
    s == "" || (!IsSpace(s[0]) && !IsSpace(s[|s| - 1]))
  }

  lemma {:induction false} TrimStartClean(s: string)
    ensures TrimStart(s) == "" || !IsSpace(TrimStart(s)[0])
  {
    if s != "" && IsSpace(s[0]) { TrimStartClean(s[1..]); }
  }

  lemma {:induction false} TrimEndClean(s: string)
    ensures TrimEnd(s) == "" || !IsSpace(TrimEnd(s)[|TrimEnd(s)| - 1])
    ensures TrimEnd(s) <= s
  {
    if s != "" && IsSpace(s[|s| - 1]) { TrimEndClean(s[..|s| - 1]); }
  }

  lemma TrimClean(s: string)
    ensures Trimmed(Trim(s))
  {
    TrimStartClean(s);
    TrimEndClean(TrimStart(s));
  }

  lemma TrimNothing(s: string)
    requires Trimmed(s)
    ensures Trim(s) == s
  {
  }

  lemma {:induction false} DecodedHasNoSpace(s: string)
    requires Decode(s).Some?
    ensures forall i :: 0 <= i < |s| ==> HexValue(s[i]).Some? && !IsSpace(s[i])
  {
    if s != "" {
      DecodedHasNoSpace(s[2..]);
      forall i | 0 <= i < |s| ensures HexValue(s[i]).Some? && !IsSpace(s[i]) {
        if i >= 2 { assert s[i] == s[2..][i - 2]; }
      }
    }
  }
}

/** A principal is a node id; its text form is 64 hex digits. */
module Principals {
  import opened Outcomes
  import opened Hex

  type NodeId = s: seq<Byte> | |s| == 32 witness seq(32, _ => 0)

  datatype Principal = Principal(id: NodeId)

  function HexOf(p: Principal): string {
    Encode(p.id)
  }

  function Parse(s: string): Result<Principal, IamError> {
    match Decode(Trim(s))
    case Some(bytes) => if |bytes| == 32 then Ok(Principal(bytes)) else Err(BadPrincipal)
    case None => Err(BadPrincipal)
  }

  /** The hex form of a principal parses to that principal. */
  lemma ParseHex(p: Principal)
    ensures Parse(HexOf(p)) == Ok(p)
  {
    var s := HexOf(p);
    DecodeEncode(p.id);
    DecodedHasNoSpace(s);
    TrimNothing(s);
  }

  lemma HexInjective(p: Principal, q: Principal)
    requires HexOf(p) == HexOf(q)
    ensures p == q
  {
    ParseHex(p);
    ParseHex(q);
  }

  /** `parse` accepts a text exactly when its trimmed, lower-cased form is some principal's hex: two
      spellings of one id, in either case and with surrounding space, are one principal. */
  lemma ParseExact(s: string, p: Principal)
    ensures Parse(s) == Ok(p) <==> Lower(Trim(s)) == HexOf(p)
  {
    var t := Trim(s);
    if Lower(t) == HexOf(p) {
      DecodeEncode(p.id);
      LowerDecodes(t);
    }
    if Decode(t).Some? { EncodeDecode(t); }
  }
}
