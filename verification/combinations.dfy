/** `getCombinations` (src/utils/handEvaluator.js): every choice of `k` elements of an
    array, in the order the backtracking search emits them. */
module Combinations {

  /** `idx` is a strictly increasing list of positions in `lo..n-1`. */
  predicate IndexSet(idx: seq<nat>, lo: nat, n: nat) {
    && (forall t :: 0 <= t < |idx| ==> lo <= idx[t] < n)
    && (forall s, t :: 0 <= s < t < |idx| ==> idx[s] < idx[t])
  }

  /** Puts `x` in front of every list of `cs`. */
  function Prepend(x: nat, cs: seq<seq<nat>>): (r: seq<seq<nat>>)
    ensures |r| == |cs|
    ensures forall j :: 0 <= j < |r| ==> r[j] == [x] + cs[j]
  {
    seq(|cs|, j requires 0 <= j < |cs| => [x] + cs[j])
  }

  /** The index lists `backtrack` emits once `need` more elements are to be chosen
      and the loop starts at `i`: first every list that takes `i`, then every list
      that starts further on. */
  function Combos(i: nat, n: nat, need: nat): (cs: seq<seq<nat>>)
    ensures forall j :: 0 <= j < |cs| ==> |cs[j]| == need && IndexSet(cs[j], i, n)
    decreases n - i
  {
    if need == 0 then [[]]
    else if i >= n then []
    else
      var taking := Combos(i + 1, n, need - 1);
      var skipping := Combos(i + 1, n, need);
      Prepend(i, taking) + skipping
  }

  /** The binomial coefficient. */
  function Binom(n: nat, k: nat): nat {
    if k == 0 then 1 else if n == 0 then 0 else Binom(n - 1, k - 1) + Binom(n - 1, k)
  }

  /** There are `Binom(n - i, need)` lists. */
  lemma {:induction false} CombosCount(i: nat, n: nat, need: nat)
    requires i <= n
    ensures |Combos(i, n, need)| == Binom(n - i, need)
    decreases n - i
  {
    if need > 0 && i < n {
      CombosCount(i + 1, n, need - 1);
      CombosCount(i + 1, n, need);
    }
  }

  /** Every increasing choice of `need` positions from `i..n-1` is emitted. */
  lemma {:induction false} CombosComplete(i: nat, n: nat, need: nat, c: seq<nat>)
    requires |c| == need && IndexSet(c, i, n)
    ensures c in Combos(i, n, need)
    decreases n - i
  {
    if need == 0 {
      assert c == [];
    } else {
      assert i <= c[0] < n;
      if c[0] == i {
        var rest := c[1..];
        assert IndexSet(rest, i + 1, n) by {
          forall t | 0 <= t < |rest| ensures i + 1 <= rest[t] < n {
            assert rest[t] == c[t + 1] && c[0] < c[t + 1];
          }
          forall s, t | 0 <= s < t < |rest| ensures rest[s] < rest[t] {
            assert rest[s] == c[s + 1] && rest[t] == c[t + 1];
          }
        }
        CombosComplete(i + 1, n, need - 1, rest);
        var taking := Combos(i + 1, n, need - 1);
        var j :| 0 <= j < |taking| && taking[j] == rest;
        assert [i] + rest == c;
        assert Prepend(i, taking)[j] == c;
      } else {
        assert IndexSet(c, i + 1, n) by {
          forall t | 0 <= t < |c| ensures i + 1 <= c[t] {
            if t > 0 {
              assert c[0] < c[t];
            }
          }
        }
        CombosComplete(i + 1, n, need, c);
      }
    }
  }

  /** The elements of `arr` at the positions `idx`. */
  function Pick<T>(arr: seq<T>, idx: seq<nat>): (r: seq<T>)
    requires forall t :: 0 <= t < |idx| ==> idx[t] < |arr|
    ensures |r| == |idx|
    ensures forall t :: 0 <= t < |r| ==> r[t] == arr[idx[t]]
  {
    seq(|idx|, t requires 0 <= t < |idx| => arr[idx[t]])
  }

  /** `getCombinations(arr, k)`: one entry per way of choosing `k` of the elements,
      each keeping the elements' order, in the order the search emits them. */
  function GetCombinations<T>(arr: seq<T>, k: nat): (r: seq<seq<T>>)
    ensures |r| == |Combos(0, |arr|, k)| == Binom(|arr|, k)
    ensures forall j :: 0 <= j < |r| ==> |r[j]| == k && r[j] == Pick(arr, Combos(0, |arr|, k)[j])
    ensures forall c :: |c| == k && IndexSet(c, 0, |arr|) ==> Pick(arr, c) in r
  {
    var cs := Combos(0, |arr|, k);
    CombosCount(0, |arr|, k);
    var r := seq(|cs|, j requires 0 <= j < |cs| => Pick(arr, cs[j]));
    PicksComplete(arr, k, r);
    r
  }

  /** Every increasing choice of `k` positions is picked somewhere in a list that picks
      each list of `Combos` in turn. */
  lemma PicksComplete<T>(arr: seq<T>, k: nat, r: seq<seq<T>>)
    requires |r| == |Combos(0, |arr|, k)|
    requires forall j :: 0 <= j < |r| ==> r[j] == Pick(arr, Combos(0, |arr|, k)[j])
    ensures forall c :: |c| == k && IndexSet(c, 0, |arr|) ==> Pick(arr, c) in r
  {
    var cs := Combos(0, |arr|, k);
    forall c | |c| == k && IndexSet(c, 0, |arr|) ensures Pick(arr, c) in r {
      CombosComplete(0, |arr|, k, c);
      var j :| 0 <= j < |cs| && cs[j] == c;
      assert r[j] == Pick(arr, c);
    }
  }

  /** The first `m` positions, in order. */
  function Range(m: nat): (r: seq<nat>)
    ensures |r| == m
    ensures forall t :: 0 <= t < m ==> r[t] == t
  {
    seq(m, t requires 0 <= t < m => t)
  }

  /** Picking every position in order gives the array back. */
  lemma PickRange<T>(arr: seq<T>)
    ensures Pick(arr, Range(|arr|)) == arr
  {
  }

  /** An increasing choice of as many positions as there are is every position. */
  lemma {:induction false} IndexSetFull(idx: seq<nat>, n: nat)
    requires IndexSet(idx, 0, n) && |idx| == n
    ensures idx == Range(n)
  {
    forall t | 0 <= t < n ensures idx[t] >= t {
      IndexSetLower(idx, n, t);
    }
    forall t | 0 <= t < n ensures idx[t] <= t {
      IndexSetUpper(idx, n, t);
    }
  }

  lemma {:induction false} IndexSetLower(idx: seq<nat>, n: nat, t: nat)
    requires IndexSet(idx, 0, n) && t < |idx|
    ensures idx[t] >= t
  {
    if t > 0 {
      IndexSetLower(idx, n, t - 1);
      assert idx[t - 1] < idx[t];
    }
  }

  lemma {:induction false} IndexSetUpper(idx: seq<nat>, n: nat, t: nat)
    requires IndexSet(idx, 0, n) && t < |idx|
    ensures idx[t] <= n - |idx| + t
    decreases |idx| - t
  {
    if t < |idx| - 1 {
      IndexSetUpper(idx, n, t + 1);
      assert idx[t] < idx[t + 1];
    }
  }
}
