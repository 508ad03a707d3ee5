/** JSON text as `serde_json::to_string` writes it, and why no two values share one text. */
module JsonText {
  import opened Decimals
  import opened Hex

  datatype Field = Field(name: string, value: Json)

  datatype Json = Num(n: nat) | Str(s: string) | Arr(items: seq<Json>) | Obj(fields: seq<Field>)

  /** One character inside a JSON string. */
  function Escape(c: char): string {
    if c == '"' then "\\\""
    else if c == '\\' then "\\\\"
    else if c == '\U{8}' then "\\b"
    else if c == '\U{C}' then "\\f"
    else if c == '\n' then "\\n"
    else if c == '\r' then "\\r"
    else if c == '\t' then "\\t"
    else if c < ' ' then "\\u00" + [HexDigit((c as int) / 16), HexDigit((c as int) % 16)]
    else [c]
  }

  function Body(s: string): string {
    if s == "" then "\"" else Escape(s[0]) + Body(s[1..])
  }

  function Print(j: Json): string
    decreases j, 0
  {
    match j
    case Num(n) => Padded(n, 1)
    case Str(s) => "\"" + Body(s)
    case Arr(items) => "[" + PrintItems(items, true)
    case Obj(fields) => "{" + PrintFields(fields, true)
  }

  function PrintItems(items: seq<Json>, first: bool): string
    decreases items, 1
  {
    if items == [] then "]"
    else (if first then "" else ",") + (Print(items[0]) + PrintItems(items[1..], false))
  }

  function PrintFields(fields: seq<Field>, first: bool): string
    decreases fields, 1
  {
    if fields == [] then "}"
    else
      (if first then "" else ",")
      + ("\"" + (Body(fields[0].name) + (":" + (Print(fields[0].value) + PrintFields(fields[1..], false)))))
  }

  // ---- unique reading ----

  /** What can follow a value inside an array or an object. */
  predicate Stops(r: string) {
    r != "" && (r[0] == ',' || r[0] == ']' || r[0] == '}')
  }

  lemma Drop(p: string, q: string, x: string, y: string)
    requires |p| == |q| && p + x == q + y
    ensures p == q && x == y
  {
    assert (p + x)[..|p|] == p && (q + y)[..|p|] == q;
    assert (p + x)[|p|..] == x && (q + y)[|p|..] == y;
  }

  /** The same start can be taken off two texts, whatever follows them. */
  lemma Strip(p: string, x: string, y: string, r: string, u: string)
    requires (p + x) + r == (p + y) + u
    ensures x + r == y + u
  {
    assert (p + x) + r == p + (x + r) && (p + y) + u == p + (y + u);
    Drop(p, p, x + r, y + u);
  }

  lemma EscapeShape(c: char)
    ensures |Escape(c)| == 1 || |Escape(c)| == 2 || |Escape(c)| == 6
    ensures |Escape(c)| == 1 <==> Escape(c)[0] != '\\'
    ensures |Escape(c)| == 6 <==> Escape(c)[0] == '\\' && Escape(c)[1] == 'u'
    ensures Escape(c)[0] != '"'
  {
  }

  lemma EscapeInjective(c: char, d: char)
    requires Escape(c) == Escape(d)
    ensures c == d
  {
    if |Escape(c)| == 6 {
      var m, n := c as int, d as int;
      assert c < ' ' && d < ' ';
      assert Escape(c)[4] == HexDigit(m / 16) && Escape(c)[5] == HexDigit(m % 16);
      assert Escape(d)[4] == HexDigit(n / 16) && Escape(d)[5] == HexDigit(n % 16);
      DigitValue(m / 16);
      DigitValue(m % 16);
      DigitValue(n / 16);
      DigitValue(n % 16);
    }
  }

  lemma EscapeUnique(c: char, d: char, x: string, y: string)
    requires Escape(c) + x == Escape(d) + y && x != "" && y != ""
    ensures c == d && x == y
  {
    hide Escape;
    EscapeShape(c);
    EscapeShape(d);
    assert Escape(c)[0] == (Escape(c) + x)[0] == (Escape(d) + y)[0] == Escape(d)[0];
    assert |Escape(c)| > 1 ==> Escape(c)[1] == (Escape(c) + x)[1] == (Escape(d) + y)[1] == Escape(d)[1];
    Drop(Escape(c), Escape(d), x, y);
    EscapeInjective(c, d);
  }

  lemma BodyStart(s: string, r: string)
    ensures s == "" <==> (Body(s) + r)[0] == '"'
  {
    if s != "" { EscapeShape(s[0]); }
  }

  lemma {:induction false} BodyUnique(s: string, t: string, r: string, u: string)
    requires Body(s) + r == Body(t) + u
    ensures s == t && r == u
  {
    hide Escape;
    BodyStart(s, r);
    BodyStart(t, u);
    if s == "" {
      Drop("\"", "\"", r, u);
    } else {
      var x, y := Body(s[1..]) + r, Body(t[1..]) + u;
      assert Body(s) + r == Escape(s[0]) + x;
      assert Body(t) + u == Escape(t[0]) + y;
      BodyNonEmpty(s[1..]);
      BodyNonEmpty(t[1..]);
      EscapeUnique(s[0], t[0], x, y);
      BodyUnique(s[1..], t[1..], r, u);
      assert s == [s[0]] + s[1..] && t == [t[0]] + t[1..];
    }
  }

  lemma BodyNonEmpty(s: string)
    ensures Body(s) != ""
  {
    if s != "" { EscapeShape(s[0]); }
  }

  predicate AllDigits(s: string) {
    forall i :: 0 <= i < |s| ==> '0' <= s[i] <= '9'
  }

  lemma {:induction false} PaddedDigits(n: nat, width: nat)
    ensures AllDigits(Padded(n, width))
    ensures width > 0 ==> Padded(n, width) != ""
    decreases n, width
  {
    if n != 0 || width != 0 { PaddedDigits(n / 10, if width == 0 then 0 else width - 1); }
  }

  /** A run of digits ends where the other text stops. */
  lemma NotLonger(a: string, b: string, r: string, u: string)
    requires AllDigits(b) && Stops(r) && a + r == b + u
    ensures |b| <= |a|
  {
    var s := a + r;
    assert s[|a|] == r[0];
    assert forall i :: 0 <= i < |b| ==> s[i] == b[i];
  }

  lemma NumUnique(m: nat, n: nat, r: string, u: string)
    requires Stops(r) && Stops(u) && Padded(m, 1) + r == Padded(n, 1) + u
    ensures m == n && r == u
  {
    var a, b := Padded(m, 1), Padded(n, 1);
    PaddedDigits(m, 1);
    PaddedDigits(n, 1);
    NotLonger(a, b, r, u);
    NotLonger(b, a, u, r);
    Drop(a, b, r, u);
    ReadPadded(m, 1);
    ReadPadded(n, 1);
  }

  /** The first character tells which kind of value a text is. */
  lemma FirstChar(j: Json)
    ensures Print(j) != "" && Print(j)[0] != ']' && Print(j)[0] != ','
    ensures j.Num? <==> '0' <= Print(j)[0] <= '9'
    ensures j.Str? <==> Print(j)[0] == '"'
    ensures j.Arr? <==> Print(j)[0] == '['
    ensures j.Obj? <==> Print(j)[0] == '{'
  {
    if j.Num? { PaddedDigits(j.n, 1); }
  }

  lemma {:induction false} PrintUnique(j: Json, k: Json, r: string, u: string)
    requires Stops(r) && Stops(u) && Print(j) + r == Print(k) + u
    ensures j == k && r == u
    decreases j, 0
  {
    FirstChar(j);
    FirstChar(k);
    assert Print(j)[0] == (Print(j) + r)[0] == (Print(k) + u)[0] == Print(k)[0];
    hide Padded, Body, PrintItems, PrintFields;
    match j
    case Num(n) =>
      NumUnique(n, k.n, r, u);
    case Str(s) =>
      Strip("\"", Body(s), Body(k.s), r, u);
      BodyUnique(s, k.s, r, u);
    case Arr(items) =>
      Strip("[", PrintItems(items, true), PrintItems(k.items, true), r, u);
      ItemsUnique(items, k.items, true, r, u);
    case Obj(fields) =>
      Strip("{", PrintFields(fields, true), PrintFields(k.fields, true), r, u);
      FieldsUnique(fields, k.fields, true, r, u);
  }

  lemma ItemsStart(items: seq<Json>, first: bool, r: string)
    ensures PrintItems(items, first) != ""
    ensures items == [] <==> (PrintItems(items, first) + r)[0] == ']'
    ensures !first ==> Stops(PrintItems(items, first) + r)
  {
    if items != [] { FirstChar(items[0]); }
  }

  lemma {:induction false} ItemsUnique(a: seq<Json>, b: seq<Json>, first: bool, r: string, u: string)
    requires PrintItems(a, first) + r == PrintItems(b, first) + u
    ensures a == b && r == u
    decreases a, 1
  {
    ItemsStart(a, first, r);
    ItemsStart(b, first, u);
    if a == [] {
      Drop("]", "]", r, u);
    } else {
      var sep := if first then "" else ",";
      var x, y := PrintItems(a[1..], false) + r, PrintItems(b[1..], false) + u;
      assert PrintItems(a, first) + r == sep + (Print(a[0]) + x);
      assert PrintItems(b, first) + u == sep + (Print(b[0]) + y);
      Drop(sep, sep, Print(a[0]) + x, Print(b[0]) + y);
      ItemsStart(a[1..], false, r);
      ItemsStart(b[1..], false, u);
      PrintUnique(a[0], b[0], x, y);
      ItemsUnique(a[1..], b[1..], false, r, u);
      assert a == [a[0]] + a[1..] && b == [b[0]] + b[1..];
    }
  }

  lemma FieldsStart(fields: seq<Field>, first: bool, r: string)
    ensures PrintFields(fields, first) != ""
    ensures fields == [] <==> (PrintFields(fields, first) + r)[0] == '}'
    ensures !first ==> Stops(PrintFields(fields, first) + r)
  {
  }

  lemma {:induction false} FieldsUnique(a: seq<Field>, b: seq<Field>, first: bool, r: string, u: string)
    requires PrintFields(a, first) + r == PrintFields(b, first) + u
    ensures a == b && r == u
    decreases a, 1
  {
    FieldsStart(a, first, r);
    FieldsStart(b, first, u);
    if a == [] {
      Drop("}", "}", r, u);
    } else {
      var sep := if first then "\"" else ",\"";
      var x, y := PrintFields(a[1..], false) + r, PrintFields(b[1..], false) + u;
      FieldText(a, first, r);
      FieldText(b, first, u);
      var p, q := ":" + (Print(a[0].value) + x), ":" + (Print(b[0].value) + y);
      Drop(sep, sep, Body(a[0].name) + p, Body(b[0].name) + q);
      BodyUnique(a[0].name, b[0].name, p, q);
      Drop(":", ":", Print(a[0].value) + x, Print(b[0].value) + y);
      FieldsStart(a[1..], false, r);
      FieldsStart(b[1..], false, u);
      PrintUnique(a[0].value, b[0].value, x, y);
      FieldsUnique(a[1..], b[1..], false, r, u);
      assert a == [a[0]] + a[1..] && b == [b[0]] + b[1..];
    }
  }

  lemma FieldText(a: seq<Field>, first: bool, r: string)
    requires a != []
    ensures PrintFields(a, first) + r
         == (if first then "\"" else ",\"") + (Body(a[0].name) + (":" + (Print(a[0].value) + (PrintFields(a[1..], false) + r))))
  {
    hide Body, Print;
    var n, v, t := Body(a[0].name), Print(a[0].value), PrintFields(a[1..], false);
    assert PrintFields(a, first) == (if first then "" else ",") + ("\"" + (n + (":" + (v + t))));
    hide *;
    Nested(n, v, t, r);
    var body := n + (":" + (v + t));
    if first {
      assert ("" + ("\"" + body)) + r == "\"" + (body + r);
    } else {
      assert ("," + ("\"" + body)) + r == ",\"" + (body + r);
    }
  }

  lemma Nested(n: string, v: string, t: string, r: string)
    ensures (n + (":" + (v + t))) + r == n + (":" + (v + (t + r)))
  {
    assert (v + t) + r == v + (t + r);
    assert (":" + (v + t)) + r == ":" + ((v + t) + r);
    assert (n + (":" + (v + t))) + r == n + ((":" + (v + t)) + r);
  }

  /** Different JSON values have different texts. */
  lemma PrintInjective(j: Json, k: Json)
    requires Print(j) == Print(k)
    ensures j == k
  {
    PrintUnique(j, k, ",", ",");
  }
}

/** The key under which both compilers group statements: the JSON text of (resource, conditions). */
module ScopeKeys {
  import opened Outcomes
  import opened Policies
  import opened JsonText

  datatype Scope = Scope(resource: ResourceMatch, conditions: Conditions)

  function Strings(ts: seq<string>): seq<Json> {
    seq(|ts|, i requires 0 <= i < |ts| => Str(ts[i]))
  }

  function Nums(ns: seq<nat>): seq<Json> {
    seq(|ns|, i requires 0 <= i < |ns| => Num(ns[i]))
  }

  function ResourceJson(m: ResourceMatch): Json {
    match m
    case Any => Str("any")
    case Node(h) => Obj([Field("node", Str(h))])
    case Tag(t) => Obj([Field("tag", Str(t))])
    case AllOf(ts) => Obj([Field("all_of", Arr(Strings(ts)))])
  }

  /** A condition that is not set is left out. */
  function Present(name: string, v: Option<Json>): seq<Field> {
    match v
    case Some(j) => [Field(name, j)]
    case None => []
  }

  function OptNum(v: Option<nat>): Option<Json> {
    match v
    case Some(n) => Some(Num(n))
    case None => None
  }

  function OptPorts(v: Option<seq<nat>>): Option<Json> {
    match v
    case Some(ps) => Some(Arr(Nums(ps)))
    case None => None
  }

  function OptStr(v: Option<string>): Option<Json> {
    match v
    case Some(s) => Some(Str(s))
    case None => None
  }

  /** The fields in the order of the declaration, with the value of each when it is set. */
  const NAMES: seq<string> :=
    ["not_before", "not_after", "max_cpu", "max_mem_mb", "max_credits", "allowed_ports", "path_prefix"]

  function Value(c: Conditions, k: nat): Option<Json>
    requires k < 7
  {
    if k == 0 then OptNum(c.notBefore)
    else if k == 1 then OptNum(c.notAfter)
    else if k == 2 then OptNum(c.maxCpu)
    else if k == 3 then OptNum(c.maxMemMb)
    else if k == 4 then OptNum(c.maxCredits)
    else if k == 5 then OptPorts(c.allowedPorts)
    else OptStr(c.pathPrefix)
  }

  function FieldsFrom(c: Conditions, k: nat): seq<Field>
    decreases 7 - k
  {
    if k >= 7 then [] else Present(NAMES[k], Value(c, k)) + FieldsFrom(c, k + 1)
  }

  function ConditionsJson(c: Conditions): Json {
    Obj(FieldsFrom(c, 0))
  }

  function ScopeKey(s: Scope): string {
    Print(Arr([ResourceJson(s.resource), ConditionsJson(s.conditions)]))
  }

  lemma StringsInjective(a: seq<string>, b: seq<string>)
    requires Strings(a) == Strings(b)
    ensures a == b
  {
    assert |a| == |Strings(a)| == |Strings(b)| == |b|;
    forall i | 0 <= i < |a| ensures a[i] == b[i] { assert Strings(a)[i] == Strings(b)[i]; }
  }

  lemma NumsInjective(a: seq<nat>, b: seq<nat>)
    requires Nums(a) == Nums(b)
    ensures a == b
  {
    assert |a| == |Nums(a)| == |Nums(b)| == |b|;
    forall i | 0 <= i < |a| ensures a[i] == b[i] { assert Nums(a)[i] == Nums(b)[i]; }
  }

  lemma ResourceJsonInjective(a: ResourceMatch, b: ResourceMatch)
    requires ResourceJson(a) == ResourceJson(b)
    ensures a == b
  {
    match a
    case AllOf(ts) =>
      assert ResourceJson(b).fields[0] == Field("all_of", Arr(Strings(ts)));
      StringsInjective(ts, b.tags);
    case Node(h) =>
      assert ResourceJson(b).fields[0] == Field("node", Str(h));
    case Tag(t) =>
      assert ResourceJson(b).fields[0] == Field("tag", Str(t));
    case Any =>
  }

  /** If two field lists agree and what follows cannot start with `name`, the optional field agrees. */
  lemma PresentUnique(name: string, v: Option<Json>, w: Option<Json>, x: seq<Field>, y: seq<Field>)
    requires Present(name, v) + x == Present(name, w) + y
    requires x == [] || x[0].name != name
    requires y == [] || y[0].name != name
    ensures v == w && x == y
  {
    assert v.Some? ==> (Present(name, v) + x)[0] == Field(name, v.value);
    assert w.Some? ==> (Present(name, w) + y)[0] == Field(name, w.value);
    assert (Present(name, v) + x)[|Present(name, v)|..] == x;
    assert (Present(name, w) + y)[|Present(name, w)|..] == y;
  }

  lemma LaterName(c: Conditions, k: nat)
    requires 1 <= k <= 7
    ensures var f := FieldsFrom(c, k); f == [] || exists i :: k <= i < 7 && f[0].name == NAMES[i]
    decreases 7 - k
  {
    if k < 7 {
      LaterName(c, k + 1);
      if Value(c, k).Some? { assert FieldsFrom(c, k)[0].name == NAMES[k]; }
    }
  }

  lemma NamesDistinct(i: nat, j: nat)
    requires i < j < 7
    ensures NAMES[i] != NAMES[j]
  {
    assert |NAMES[0]| == 10 && |NAMES[1]| == 9 && |NAMES[2]| == 7 && |NAMES[3]| == 10 && |NAMES[4]| == 11;
    assert |NAMES[5]| == 13 && |NAMES[6]| == 11;
    assert NAMES[0][0] == 'n' && NAMES[3][0] == 'm' && NAMES[4][0] == 'm' && NAMES[6][0] == 'p';
  }

  lemma NextIsOther(c: Conditions, k: nat)
    requires k < 7
    ensures var f := FieldsFrom(c, k + 1); f == [] || f[0].name != NAMES[k]
  {
    LaterName(c, k + 1);
    var f := FieldsFrom(c, k + 1);
    if f != [] {
      var i :| k + 1 <= i < 7 && f[0].name == NAMES[i];
      NamesDistinct(k, i);
    }
  }

  lemma {:induction false} FieldsInjective(a: Conditions, b: Conditions, k: nat)
    requires FieldsFrom(a, k) == FieldsFrom(b, k)
    ensures forall i: nat :: k <= i < 7 ==> Value(a, i) == Value(b, i)
    decreases 7 - k
  {
    hide Value;
    if k < 7 {
      NextIsOther(a, k);
      NextIsOther(b, k);
      PresentUnique(NAMES[k], Value(a, k), Value(b, k), FieldsFrom(a, k + 1), FieldsFrom(b, k + 1));
      FieldsInjective(a, b, k + 1);
    }
  }

  lemma ConditionsJsonInjective(a: Conditions, b: Conditions)
    requires ConditionsJson(a) == ConditionsJson(b)
    ensures a == b
  {
    FieldsInjective(a, b, 0);
    assert Value(a, 0) == Value(b, 0) && Value(a, 1) == Value(b, 1) && Value(a, 2) == Value(b, 2);
    assert Value(a, 3) == Value(b, 3) && Value(a, 4) == Value(b, 4) && Value(a, 5) == Value(b, 5);
    assert Value(a, 6) == Value(b, 6);
    if a.allowedPorts.Some? { NumsInjective(a.allowedPorts.value, b.allowedPorts.value); }
  }

  /** Two scopes share a key only when they are the same scope. */
  lemma ScopeKeyInjective(s: Scope, t: Scope)
    requires ScopeKey(s) == ScopeKey(t)
    ensures s == t
  {
    var j, k := [ResourceJson(s.resource), ConditionsJson(s.conditions)], [ResourceJson(t.resource), ConditionsJson(t.conditions)];
    PrintInjective(Arr(j), Arr(k));
    assert j[0] == k[0] && j[1] == k[1];
    ResourceJsonInjective(s.resource, t.resource);
    ConditionsJsonInjective(s.conditions, t.conditions);
  }
}
