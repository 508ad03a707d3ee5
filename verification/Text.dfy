/** Option and Result, in the shape Rust's own types have. */
module Outcomes {
  datatype Option<+T> = None | Some(value: T)

  datatype Result<+T, +E> = Ok(value: T) | Err(error: E)

  /** The error kinds of crates/ce-iam/src/error.rs, without their messages. */
  datatype IamError =
    | BadPolicy | BadResource | BadAction | DenyUnsupported
    | MalformedChain | BadPrincipal | WouldAmplify | Denied | NodeFailure
}

/**
 Strings the way the repository uses them: compared code point by code point (the order of a
 `BTreeMap<String, _>` and of `Vec<String>::sort`), trimmed, split at commas and joined again.
 */
module Text {

  // ---- order ----

  predicate Leq(a: string, b: string) {
    a == [] || (b != [] && (a[0] < b[0] || (a[0] == b[0] && Leq(a[1..], b[1..]))))
  }

  predicate Less(a: string, b: string) {
    Leq(a, b) && a != b
  }

  lemma {:induction false} LeqReflexive(a: string)
    ensures Leq(a, a)
  {
    if a != [] { LeqReflexive(a[1..]); }
  }

  lemma {:induction false} LeqAntisymmetric(a: string, b: string)
    requires Leq(a, b) && Leq(b, a)
    ensures a == b
  {
    if a != [] {
      LeqAntisymmetric(a[1..], b[1..]);
      assert a == [a[0]] + a[1..] && b == [b[0]] + b[1..];
    }
  }

  lemma {:induction false} LeqTransitive(a: string, b: string, c: string)
    requires Leq(a, b) && Leq(b, c)
    ensures Leq(a, c)
  {
    if a != [] && a[0] == b[0] && b[0] == c[0] { LeqTransitive(a[1..], b[1..], c[1..]); }
  }

  lemma {:induction false} LeqTotal(a: string, b: string)
    ensures Leq(a, b) || Leq(b, a)
  {
    if a != [] && b != [] && a[0] == b[0] { LeqTotal(a[1..], b[1..]); }
  }

  /** Comparing strings that start with equally long parts compares those parts first. */
  lemma {:induction false} LessConcat(a: string, b: string, x: string, y: string)
    requires |a| == |b|
    ensures Less(a + x, b + y) <==> Less(a, b) || (a == b && Less(x, y))
  {
    if a == [] {
      assert a + x == x && b + y == y;
    } else {
      LessConcat(a[1..], b[1..], x, y);
      assert (a + x)[1..] == a[1..] + x && (b + y)[1..] == b[1..] + y;
      assert a == [a[0]] + a[1..] && b == [b[0]] + b[1..];
      assert a + x == [a[0]] + (a[1..] + x) && b + y == [b[0]] + (b[1..] + y);
      if a[0] == b[0] { assert a == b <==> a[1..] == b[1..]; }
    }
  }

  // ---- sorted sequences ----

  ghost predicate StrictlySorted(s: seq<string>) {
    forall i, j :: 0 <= i < j < |s| ==> Less(s[i], s[j])
  }

  function Elements<T>(s: seq<T>): set<T> {
    set x | x in s
  }

  ghost predicate IsMin(m: string, s: set<string>) {
    m in s && forall y :: y in s ==> Leq(m, y)
  }

  lemma {:induction false} MinExists(s: set<string>)
    requires s != {}
    ensures exists m :: IsMin(m, s)
    decreases s
  {
    var m :| m in s;
    LeqReflexive(m);
    if s == {m} {
      assert IsMin(m, s);
    } else {
      MinExists(s - {m});
      var n :| IsMin(n, s - {m});
      LeqTotal(m, n);
      if Leq(n, m) {
        assert IsMin(n, s);
      } else {
        forall y | y in s ensures Leq(m, y) { if y != m { LeqTransitive(m, n, y); } }
        assert IsMin(m, s);
      }
    }
  }

  function Min(s: set<string>): (m: string)
    requires s != {}
    ensures IsMin(m, s)
  {
    MinExists(s);
    assert forall a, b | a in s && b in s && Leq(a, b) && Leq(b, a) :: a == b by {
      forall a, b | a in s && b in s && Leq(a, b) && Leq(b, a) ensures a == b { LeqAntisymmetric(a, b); }
    }
    var m :| m in s && forall y :: y in s ==> Leq(m, y);
    m
  }

  lemma PutFirst(m: string, rest: seq<string>)
    requires StrictlySorted(rest) && forall x :: x in rest ==> Less(m, x)
    ensures StrictlySorted([m] + rest)
    ensures Elements([m] + rest) == {m} + Elements(rest)
  {
    var r := [m] + rest;
    forall i, j | 0 <= i < j < |r| ensures Less(r[i], r[j]) {
      assert r[j] == rest[j - 1] && rest[j - 1] in rest;
    }
  }

  /** The elements of a set in ascending order: the key order of a `BTreeMap`, and also what
      `sort(); dedup();` leaves of a vector with these elements. */
  function Ordered(s: set<string>): (r: seq<string>)
    ensures StrictlySorted(r)
    ensures Elements(r) == s
    ensures |r| == |s|
  {
    if s == {} then []
    else
      var m := Min(s);
      var rest := Ordered(s - {m});
      PutFirst(m, rest);
      [m] + rest
  }

  lemma NoElements<T>(s: seq<T>)
    ensures s == [] <==> Elements(s) == {}
  {
    if s != [] { assert s[0] in Elements(s); }
  }

  /** A strictly sorted sequence is determined by its elements. */
  lemma {:induction false} SortedUnique(a: seq<string>, b: seq<string>)
    requires StrictlySorted(a) && StrictlySorted(b)
    requires Elements(a) == Elements(b)
    ensures a == b
  {
    NoElements(a);
    NoElements(b);
    if a != [] {
      assert a[0] in Elements(b) && b[0] in Elements(a);
      var i :| 0 <= i < |b| && b[i] == a[0];
      var j :| 0 <= j < |a| && a[j] == b[0];
      if a[0] != b[0] { LeqAntisymmetric(a[0], b[0]); }
      forall x | x in Elements(a[1..]) ensures x in Elements(b[1..]) {
        var k :| 1 <= k < |a| && a[k] == x;
        assert Less(a[0], a[k]) && x in Elements(a) && x in b;
      }
      forall x | x in Elements(b[1..]) ensures x in Elements(a[1..]) {
        var k :| 1 <= k < |b| && b[k] == x;
        assert Less(b[0], b[k]) && x in Elements(b) && x in a;
      }
      SortedUnique(a[1..], b[1..]);
      assert a == [a[0]] + a[1..] && b == [b[0]] + b[1..];
    }
  }

  lemma OrderedOne(a: string)
    ensures Ordered({a}) == [a]
  {
    hide Leq;
    SortedUnique(Ordered({a}), [a]);
  }

  // ---- sorting a vector, duplicates kept (`Vec::sort`) ----

  function Insert(x: string, s: seq<string>): (r: seq<string>)
    ensures multiset(r) == multiset(s) + multiset{x}
  {
    if s == [] then [x]
    else if Leq(x, s[0]) then [x] + s
    else
      assert s == [s[0]] + s[1..];
      [s[0]] + Insert(x, s[1..])
  }

  function Sort(s: seq<string>): (r: seq<string>)
    ensures multiset(r) == multiset(s)
  {
    if s == [] then []
    else
      assert s == [s[0]] + s[1..];
      Insert(s[0], Sort(s[1..]))
  }

  ghost predicate Ascending(s: seq<string>) {
    forall i, j :: 0 <= i < j < |s| ==> Leq(s[i], s[j])
  }

  lemma {:induction false} InsertAscending(x: string, s: seq<string>)
    requires Ascending(s)
    ensures Ascending(Insert(x, s))
  {
    if s != [] {
      LeqTotal(x, s[0]);
      if Leq(x, s[0]) {
        forall j | 0 <= j < |s| ensures Leq(x, s[j]) { if j > 0 { LeqTransitive(x, s[0], s[j]); } }
      } else {
        InsertAscending(x, s[1..]);
        var r := Insert(x, s[1..]);
        forall y | y in r ensures Leq(s[0], y) {
          assert y in multiset(r);
          assert y == x || y in multiset(s[1..]);
          if y != x { assert y in s[1..]; }
        }
      }
    }
  }

  lemma {:induction false} SortAscending(s: seq<string>)
    ensures Ascending(Sort(s))
  {
    if s != [] {
      SortAscending(s[1..]);
      InsertAscending(s[0], Sort(s[1..]));
    }
  }

  ghost predicate Distinct<T>(s: seq<T>) {
    forall i, j :: 0 <= i < j < |s| ==> s[i] != s[j]
  }

  lemma {:induction false} CountedOnceDistinct<T>(s: seq<T>)
    requires forall x :: x in s ==> multiset(s)[x] == 1
    ensures Distinct(s)
  {
    if s != [] {
      assert s == [s[0]] + s[1..];
      forall x | x in s[1..] ensures multiset(s[1..])[x] == 1 && x != s[0] {
        assert x in multiset(s[1..]) && x in s;
        assert multiset(s)[x] == multiset{s[0]}[x] + multiset(s[1..])[x];
      }
      CountedOnceDistinct(s[1..]);
      forall i, j | 0 <= i < j < |s| ensures s[i] != s[j] {
        assert s[j] == s[1..][j-1] && s[1..][j-1] in s[1..];
        if i > 0 { assert s[i] == s[1..][i-1]; }
      }
    }
  }

  lemma SameElements<T>(a: seq<T>, b: seq<T>)
    requires multiset(a) == multiset(b)
    ensures Elements(a) == Elements(b)
  {
    forall x ensures x in Elements(a) <==> x in Elements(b) {
      assert x in multiset(a) <==> x in multiset(b);
    }
  }

  /** On a vector without duplicates `sort` gives the ordered elements. */
  lemma SortDistinct(s: seq<string>)
    requires forall x :: x in s ==> multiset(s)[x] == 1
    ensures Sort(s) == Ordered(Elements(s))
  {
    var r := Sort(s);
    SortAscending(s);
    SameElements(r, s);
    forall x | x in r ensures multiset(r)[x] == 1 { assert x in multiset(r); }
    CountedOnceDistinct(r);
    SortedUnique(r, Ordered(Elements(s)));
  }
}

/** Numbers in decimal, zero-filled or not. */
module Decimals {
  import opened Outcomes

  function Digit(n: nat): char
    requires n < 10
  {
    '0' + n as char
  }

  /** A number with at least `width` digits, zero-filled: `{n:0width$}`. */
  function Padded(n: nat, width: nat): string {
    if n == 0 && width == 0 then ""
    else Padded(n / 10, if width == 0 then 0 else width - 1) + [Digit(n % 10)]
  }

  function Power10(k: nat): nat {
    if k == 0 then 1 else 10 * Power10(k - 1)
  }

  function ReadNat(s: string): Option<nat> {
    if s == "" then Some(0)
    else
      match ReadNat(s[..|s| - 1])
      case None => None
      case Some(n) =>
        if '0' <= s[|s| - 1] <= '9' then Some(10 * n + (s[|s| - 1] - '0') as nat) else None
  }

  lemma {:induction false} PaddedLength(n: nat, width: nat)
    ensures |Padded(n, width)| >= width
    ensures |Padded(n, width)| == width <==> n < Power10(width)
    decreases width
  {
    if width > 0 { PaddedLength(n / 10, width - 1); }
  }

  lemma ReadAppended(s: string, d: nat)
    requires d < 10
    ensures ReadNat(s + [Digit(d)]) == match ReadNat(s) case None => None case Some(n) => Some(10 * n + d)
  {
    var t := s + [Digit(d)];
    assert t[..|t| - 1] == s && t[|t| - 1] == Digit(d);
  }

  lemma {:induction false} ReadPadded(n: nat, width: nat)
    ensures ReadNat(Padded(n, width)) == Some(n)
    decreases n, width
  {
    if n != 0 || width != 0 {
      var w := if width == 0 then 0 else width - 1;
      ReadPadded(n / 10, w);
      ReadAppended(Padded(n / 10, w), n % 10);
    }
  }
}
