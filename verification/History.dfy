/**
 What a run leaves of one thing it can set and clear: the value last set, if nothing has set or
 cleared it since.
 */
module Histories {
  import opened Outcomes

  /** What one call does to the thing. */
  datatype Change<+V> = Put(value: V) | Drop | Keep

  function After<V>(was: Option<V>, change: Change<V>): Option<V> {
    match change
    case Put(v) => Some(v)
    case Drop => None
    case Keep => was
  }

  /** The states before the first call and after each one. */
  ghost predicate Follows<V>(states: seq<Option<V>>, changes: seq<Change<V>>) {
    && |states| == |changes| + 1
    && forall k :: 0 <= k < |changes| ==> states[k + 1] == After(states[k], changes[k])
  }

  /** From position `k` on, nothing is changed. */
  predicate KeptFrom<V(==)>(changes: seq<Change<V>>, k: nat) {
    forall j :: k <= j < |changes| ==> changes[j] == Keep
  }

  /** Set at position `i` and not changed since. */
  predicate LastPut<V(==)>(changes: seq<Change<V>>, i: nat, value: V) {
    i < |changes| && changes[i] == Put(value) && KeptFrom(changes, i + 1)
  }

  lemma {:induction false} LastChange<V>(states: seq<Option<V>>, changes: seq<Change<V>>, value: V)
    requires Follows(states, changes)
    ensures states[|changes|] == Some(value) <==>
              (exists i: nat :: LastPut(changes, i, value)) || (states[0] == Some(value) && KeptFrom(changes, 0))
  {
    if changes != [] {
      var n := |changes| - 1;
      LastChange(states[..n + 1], changes[..n], value);
      assert changes == changes[..n] + [changes[n]];
      if changes[n] == Keep {
        forall i: nat ensures LastPut(changes, i, value) <==> LastPut(changes[..n], i, value) {
          assert i < n ==> changes[..n][i] == changes[i];
        }
        assert KeptFrom(changes, 0) <==> KeptFrom(changes[..n], 0);
      } else {
        assert !KeptFrom(changes, 0);
        assert LastPut(changes, n, value) <==> changes[n] == Put(value);
        assert forall i: nat :: LastPut(changes, i, value) ==> i == n;
      }
    }
  }
}
