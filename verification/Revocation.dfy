/** The cached revocation snapshot and the decision what to do when a fresh one cannot be fetched. */
module Revocation {
  import opened Outcomes
  import opened Principals
  import opened Narrowing
  import opened Chains
  import opened Histories

  /** A row as the node serves it: issuer hex and nonce. */
  datatype Row = Row(issuerHex: string, nonce: nat)

  type Pair = (NodeId, nat)

  /** The pairs of the rows whose issuer is the hex of a node id; other rows are skipped. */
  function FromHexPairs(rows: seq<Row>): set<Pair> {
    set r | r in rows && Parse(r.issuerHex).Ok? :: (Parse(r.issuerHex).value.id, r.nonce)
  }

  method BuildSet(rows: seq<Row>) returns (revoked: set<Pair>)
    ensures revoked == FromHexPairs(rows)
  {
    hide Parse;
    revoked := {};
    for i := 0 to |rows|
      invariant revoked == FromHexPairs(rows[..i])
    {
      assert rows[..i + 1] == rows[..i] + [rows[i]];
      match Parse(rows[i].issuerHex) {
        case Ok(p) => revoked := revoked + {(p.id, rows[i].nonce)};
        case Err(_) =>
      }
    }
    assert rows[..|rows|] == rows;
  }

  /** Rows that spell node ids in hex materialize as exactly the pairs they spell. */
  lemma RowsOfPairs(pairs: seq<Pair>)
    ensures FromHexPairs(seq(|pairs|, i requires 0 <= i < |pairs| => Row(HexOf(Principal(pairs[i].0)), pairs[i].1)))
         == set p | p in pairs
  {
    hide Parse, HexOf;
    var rows := seq(|pairs|, i requires 0 <= i < |pairs| => Row(HexOf(Principal(pairs[i].0)), pairs[i].1));
    forall i | 0 <= i < |pairs| ensures Parse(rows[i].issuerHex) == Ok(Principal(pairs[i].0)) { ParseHex(Principal(pairs[i].0)); }
    forall p: Pair | p in pairs ensures p in FromHexPairs(rows) {
      var i :| 0 <= i < |pairs| && pairs[i] == p;
      assert rows[i] in rows;
    }
    forall p | p in FromHexPairs(rows) ensures p in pairs {
      var r :| r in rows && Parse(r.issuerHex).Ok? && (Parse(r.issuerHex).value.id, r.nonce) == p;
      var i :| 0 <= i < |rows| && rows[i] == r;
    }
  }

  // ---- the cached snapshot ----

  /** What the cache file holds: nothing, a snapshot, or something unreadable. */
  datatype CacheFile = Missing | Snapshot(pairs: seq<Row>, fetchedAt: nat, ttl: nat) | Unreadable

  predicate FreshAt(fetchedAt: nat, ttl: nat, now: nat) {
    fetchedAt != 0 && (ttl == 0 || (if now >= fetchedAt then now - fetchedAt else 0) <= ttl)
  }

  /** How the outside answers one call: whether the file can be read, the rows fetched if the node
      answers, and whether the cache can be written. */
  datatype World = World(readFails: bool, fetched: Option<seq<Row>>, writeFails: bool)

  class DiskFile {
    var content: CacheFile

    constructor ()
      ensures content == Missing
    {
      content := Missing;
    }
  }

  class CachedRevocationSet {
    var pairs: seq<Row>
    var fetchedAt: nat
    var ttl: nat

    constructor (pairs: seq<Row>, fetchedAt: nat, ttl: nat)
      ensures this.pairs == pairs && this.fetchedAt == fetchedAt && this.ttl == ttl
    {
      this.pairs, this.fetchedAt, this.ttl := pairs, fetchedAt, ttl;
    }

    predicate IsFresh(now: nat)
      reads this
    {
      FreshAt(fetchedAt, ttl, now)
    }

    /** On a fetch the snapshot changes even when it cannot be saved; without one nothing changes. */
    method Refresh(file: DiskFile, now: nat, w: World) returns (r: Result<(), IamError>)
      modifies this, file
      ensures ttl == old(ttl)
      ensures w.fetched.None? ==> pairs == old(pairs) && fetchedAt == old(fetchedAt)
      ensures w.fetched.Some? ==> pairs == w.fetched.value && fetchedAt == now
      ensures file.content == if w.fetched.Some? && !w.writeFails then Snapshot(w.fetched.value, now, ttl) else old(file.content)
      ensures r.Ok? <==> w.fetched.Some? && !w.writeFails
    {
      match w.fetched {
        case None => return Err(NodeFailure);
        case Some(rows) =>
          pairs, fetchedAt := rows, now;
          if w.writeFails { return Err(NodeFailure); }
          file.content := Snapshot(pairs, fetchedAt, ttl);
          return Ok(());
      }
    }
  }

  // ---- resolve_revocation ----

  datatype Stance = NoCheck | FailOpen | FailClosed

  /** The revocation set a verifier works with, or the refusal to verify at all. */
  function Resolve(content: CacheFile, stance: Stance, ttl: nat, now: nat, w: World): Result<set<Pair>, IamError> {
    if stance == NoCheck then Ok({})
    else if w.readFails || content == Unreadable then Err(NodeFailure)
    else
      var pairs := if w.fetched.Some? then w.fetched.value else if content.Snapshot? then content.pairs else [];
      var fetchedAt := if w.fetched.Some? then now else if content.Snapshot? then content.fetchedAt else 0;
      if (w.fetched.Some? && !w.writeFails) || stance == FailOpen || FreshAt(fetchedAt, ttl, now) then Ok(FromHexPairs(pairs))
      else Err(NodeFailure)
  }

  function CacheAfter(content: CacheFile, stance: Stance, ttl: nat, now: nat, w: World): CacheFile {
    if stance == NoCheck || w.readFails || content == Unreadable || w.fetched.None? || w.writeFails then content
    else Snapshot(w.fetched.value, now, ttl)
  }

  method ResolveRevocation(file: DiskFile, stance: Stance, ttl: nat, now: nat, w: World) returns (r: Result<set<Pair>, IamError>)
    modifies file
    ensures r == Resolve(old(file.content), stance, ttl, now, w)
    ensures file.content == CacheAfter(old(file.content), stance, ttl, now, w)
  {
    if stance == NoCheck { return Ok({}); }
    if w.readFails || file.content == Unreadable { return Err(NodeFailure); }
    var cached: CachedRevocationSet;
    if file.content.Snapshot? {
      cached := new CachedRevocationSet(file.content.pairs, file.content.fetchedAt, ttl);
    } else {
      cached := new CachedRevocationSet([], 0, ttl);
    }
    var refreshed := cached.Refresh(file, now, w);
    var revoked := BuildSet(cached.pairs);
    if refreshed.Ok? { return Ok(revoked); }
    if stance == FailOpen || cached.IsFresh(now) { return Ok(revoked); }
    return Err(NodeFailure);
  }

  // ---- runs ----

  datatype Call = Call(stance: Stance, now: nat, world: World)

  /** The cache file after a list of calls, oldest first. */
  function CacheOf(ttl: nat, calls: seq<Call>): CacheFile {
    if calls == [] then Missing
    else
      var c := calls[|calls| - 1];
      CacheAfter(CacheOf(ttl, calls[..|calls| - 1]), c.stance, ttl, c.now, c.world)
  }

  /** Revocations are never taken back. */
  ghost predicate Growing(onChain: nat -> set<Pair>) {
    forall s: nat, t: nat :: s <= t ==> onChain(s) <= onChain(t)
  }

  /** The clock never goes back, and what the node serves at a time is what is on chain then. */
  ghost predicate Faithful(onChain: nat -> set<Pair>, calls: seq<Call>) {
    && (forall i, j :: 0 <= i < j < |calls| ==> calls[i].now <= calls[j].now)
    && (forall i :: 0 <= i < |calls| && calls[i].world.fetched.Some? ==>
          FromHexPairs(calls[i].world.fetched.value) == onChain(calls[i].now))
  }

  /** The cached snapshot is what was on chain when it was fetched, no later than the last call. */
  lemma {:induction false} CacheIsHonest(onChain: nat -> set<Pair>, ttl: nat, calls: seq<Call>)
    requires Faithful(onChain, calls)
    ensures var c := CacheOf(ttl, calls);
            c != Unreadable
            && (c.Snapshot? ==> calls != [] && c.fetchedAt <= calls[|calls| - 1].now && FromHexPairs(c.pairs) == onChain(c.fetchedAt))
  {
    hide FromHexPairs;
    if calls != [] {
      var n := |calls| - 1;
      assert Faithful(onChain, calls[..n]);
      CacheIsHonest(onChain, ttl, calls[..n]);
      if n > 0 { assert calls[..n][n - 1] == calls[n - 1] && calls[n - 1].now <= calls[n].now; }
    }
  }

  /** What a fail-closed call works with was fetched no more than the ttl ago. */
  lemma FailClosedIsRecent(onChain: nat -> set<Pair>, ttl: nat, calls: seq<Call>, last: Call) returns (at: nat)
    requires ttl > 0 && Faithful(onChain, calls + [last]) && last.stance == FailClosed
    requires Resolve(CacheOf(ttl, calls), FailClosed, ttl, last.now, last.world).Ok?
    ensures at <= last.now <= at + ttl
    ensures Resolve(CacheOf(ttl, calls), FailClosed, ttl, last.now, last.world).value == onChain(at)
  {
    hide FromHexPairs;
    var all := calls + [last];
    assert all[|calls|] == last;
    assert forall i :: 0 <= i < |calls| ==> all[i] == calls[i];
    CacheIsHonest(onChain, ttl, calls);
    var c := CacheOf(ttl, calls);
    if last.world.fetched.Some? {
      at := last.now;
    } else {
      at := c.fetchedAt;
      assert calls[|calls| - 1].now <= last.now by { assert all[|calls| - 1].now <= all[|calls|].now; }
    }
  }

  /** A link revoked at time `r` makes every fail-closed verify later than `r + ttl` refuse the
      chain, whatever fetches and cache writes failed before and whichever stance earlier calls took. */
  lemma FailClosedRefusesRevoked(
    onChain: nat -> set<Pair>, ttl: nat, calls: seq<Call>, last: Call, r: nat, roots: set<NodeId>, q: Request, chain: Chain, i: nat)
    requires ttl > 0 && Growing(onChain) && Faithful(onChain, calls + [last]) && last.stance == FailClosed
    requires i < |chain| && (chain[i].cap.issuer, chain[i].cap.nonce) in onChain(r)
    requires last.now > r + ttl && q.now == last.now
    ensures match Resolve(CacheOf(ttl, calls), FailClosed, ttl, last.now, last.world)
            case Err(_) => true
            case Ok(revoked) => q.revoked == revoked ==> !Authorized(roots, q, chain)
  {
    hide Resolve, CacheOf, Faithful, Matches, Continues;
    if Resolve(CacheOf(ttl, calls), FailClosed, ttl, last.now, last.world).Ok? {
      var at := FailClosedIsRecent(onChain, ttl, calls, last);
      assert onChain(r) <= onChain(at);
      assert q.revoked == onChain(at) ==> !LinkOk(q, chain[i]);
    }
  }

  /** Fail-open gives no such bound: while fetches fail, the snapshot of any age is used. */
  lemma FailOpenHasNoBound(pairs: seq<Row>, fetchedAt: nat, ttl: nat, delay: nat, w: World)
    requires !w.readFails && w.fetched.None?
    ensures Resolve(Snapshot(pairs, fetchedAt, ttl), FailOpen, ttl, fetchedAt + delay, w) == Ok(FromHexPairs(pairs))
    ensures CacheAfter(Snapshot(pairs, fetchedAt, ttl), FailOpen, ttl, fetchedAt + delay, w) == Snapshot(pairs, fetchedAt, ttl)
    ensures fetchedAt > 0 && ttl > 0 ==>
      (Resolve(Snapshot(pairs, fetchedAt, ttl), FailClosed, ttl, fetchedAt + delay, w).Ok? <==> delay <= ttl)
  {
    hide FromHexPairs;
  }

  // ---- exactly which set a call works with ----

  /** A fetched set of rows and when it was fetched. */
  datatype Fetch = Fetch(rows: seq<Row>, at: nat)

  /** What a call does to the cache file: save what it fetched, or nothing. */
  function SaveChange(c: Call): Change<Fetch> {
    if c.stance != NoCheck && !c.world.readFails && c.world.fetched.Some? && !c.world.writeFails then
      Put(Fetch(c.world.fetched.value, c.now))
    else Keep
  }

  function SaveChanges(calls: seq<Call>): seq<Change<Fetch>> {
    seq(|calls|, i requires 0 <= i < |calls| => SaveChange(calls[i]))
  }

  function Cached(content: CacheFile): Option<Fetch> {
    if content.Snapshot? then Some(Fetch(content.pairs, content.fetchedAt)) else None
  }

  lemma {:induction false} CacheReadable(ttl: nat, calls: seq<Call>)
    ensures CacheOf(ttl, calls) != Unreadable
  {
    if calls != [] { CacheReadable(ttl, calls[..|calls| - 1]); }
  }

  /** The cache holds exactly the last set that a call of the run fetched and saved. */
  lemma CacheHistory(ttl: nat, calls: seq<Call>, f: Fetch)
    ensures Cached(CacheOf(ttl, calls)) == Some(f) <==> exists i: nat :: LastPut(SaveChanges(calls), i, f)
  {
    hide CacheAfter, SaveChange, LastPut;
    var states := seq(|calls| + 1, k requires 0 <= k <= |calls| => Cached(CacheOf(ttl, calls[..k])));
    forall k | 0 <= k < |calls| ensures states[k + 1] == After(states[k], SaveChanges(calls)[k]) {
      assert calls[..k + 1][..k] == calls[..k];
      CacheReadable(ttl, calls[..k]);
      CacheStep(CacheOf(ttl, calls[..k]), ttl, calls[k]);
    }
    assert calls[..|calls|] == calls && CacheOf(ttl, calls[..0]) == Missing;
    LastChange(states, SaveChanges(calls), f);
  }

  lemma CacheStep(content: CacheFile, ttl: nat, c: Call)
    requires content != Unreadable
    ensures Cached(CacheAfter(content, c.stance, ttl, c.now, c.world)) == After(Cached(content), SaveChange(c))
  {
  }

  lemma {:induction false} SavedIsOnChain(onChain: nat -> set<Pair>, calls: seq<Call>, i: nat, f: Fetch)
    requires Faithful(onChain, calls) && LastPut(SaveChanges(calls), i, f)
    ensures FromHexPairs(f.rows) == onChain(f.at)
  {
    hide FromHexPairs;
    assert calls[i].world.fetched.Some?;
  }

  /** A checking call whose fetch succeeds works with what is on chain at that time, under either
      stance; only a fail-closed call at time 0 that cannot save what it fetched refuses. */
  lemma FetchedSetIsUsed(onChain: nat -> set<Pair>, ttl: nat, calls: seq<Call>, last: Call)
    requires Faithful(onChain, calls + [last]) && last.stance != NoCheck && !last.world.readFails && last.world.fetched.Some?
    ensures Resolve(CacheOf(ttl, calls), last.stance, ttl, last.now, last.world)
         == if last.stance == FailClosed && last.world.writeFails && last.now == 0 then Err(NodeFailure) else Ok(onChain(last.now))
  {
    hide FromHexPairs, CacheOf;
    CacheReadable(ttl, calls);
    assert (calls + [last])[|calls|] == last;
  }

  /** So a link that is revoked by then is refused. */
  lemma FetchRefusesRevoked(onChain: nat -> set<Pair>, ttl: nat, calls: seq<Call>, last: Call, r: nat, roots: set<NodeId>, q: Request, chain: Chain, i: nat)
    requires Growing(onChain) && Faithful(onChain, calls + [last])
    requires last.stance != NoCheck && !last.world.readFails && last.world.fetched.Some? && r <= last.now
    requires i < |chain| && (chain[i].cap.issuer, chain[i].cap.nonce) in onChain(r)
    ensures match Resolve(CacheOf(ttl, calls), last.stance, ttl, last.now, last.world)
            case Err(_) => true
            case Ok(revoked) => q.revoked == revoked ==> !Authorized(roots, q, chain)
  {
    hide Resolve, CacheOf, Faithful, Matches, Continues;
    FetchedSetIsUsed(onChain, ttl, calls, last);
    assert onChain(r) <= onChain(last.now);
    assert q.revoked == onChain(last.now) ==> !LinkOk(q, chain[i]);
  }

  /** A checking call whose fetch fails works with the last set fetched and saved in the run: fail-open
      always, with the empty set when there is none; fail-closed exactly when there is one that is not
      older than the ttl. */
  lemma LastSavedSetIsUsed(onChain: nat -> set<Pair>, ttl: nat, calls: seq<Call>, last: Call)
    requires Faithful(onChain, calls + [last]) && last.stance != NoCheck && !last.world.readFails && last.world.fetched.None?
    ensures var r := Resolve(CacheOf(ttl, calls), last.stance, ttl, last.now, last.world);
      && (forall i: nat, f :: LastPut(SaveChanges(calls), i, f) ==>
            r == if last.stance == FailOpen || (f.at > 0 && (ttl == 0 || last.now - f.at <= ttl)) then Ok(onChain(f.at)) else Err(NodeFailure))
      && (!(exists i: nat, f :: LastPut(SaveChanges(calls), i, f)) ==>
            r == if last.stance == FailOpen then Ok({}) else Err(NodeFailure))
  {
    hide FromHexPairs, CacheOf, LastPut, SaveChanges, Faithful;
    PrefixFaithful(onChain, calls, last);
    CacheReadable(ttl, calls);
    var content := CacheOf(ttl, calls);
    NoRows();
    forall i: nat, f | LastPut(SaveChanges(calls), i, f)
      ensures content.Snapshot? && content.pairs == f.rows && content.fetchedAt == f.at && FromHexPairs(f.rows) == onChain(f.at) && f.at <= last.now
    {
      CacheHistory(ttl, calls, f);
      SavedIsOnChain(onChain, calls, i, f);
      SavedBefore(onChain, calls, last, i, f);
    }
    if content.Snapshot? { CacheHistory(ttl, calls, Fetch(content.pairs, content.fetchedAt)); }
  }

  lemma NoRows()
    ensures FromHexPairs([]) == {}
  {
  }

  lemma PrefixFaithful(onChain: nat -> set<Pair>, calls: seq<Call>, last: Call)
    requires Faithful(onChain, calls + [last])
    ensures Faithful(onChain, calls)
  {
    hide FromHexPairs;
    var all := calls + [last];
    assert forall i :: 0 <= i < |calls| ==> all[i] == calls[i];
  }

  lemma SavedBefore(onChain: nat -> set<Pair>, calls: seq<Call>, last: Call, i: nat, f: Fetch)
    requires Faithful(onChain, calls + [last]) && LastPut(SaveChanges(calls), i, f)
    ensures f.at <= last.now
  {
    hide FromHexPairs;
    var all := calls + [last];
    assert all[i] == calls[i] && all[|calls|] == last;
  }

  /** Without a check nothing is revoked; a cache file that cannot be read refuses every check. */
  lemma NoCheckAndUnreadable(content: CacheFile, stance: Stance, ttl: nat, now: nat, w: World)
    ensures stance == NoCheck ==> Resolve(content, stance, ttl, now, w) == Ok({})
    ensures stance != NoCheck && (w.readFails || content == Unreadable) ==> Resolve(content, stance, ttl, now, w) == Err(NodeFailure)
  {
  }
}
