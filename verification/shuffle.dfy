/** The Fisher-Yates shuffle of app.js (`shuffle`).

    The source draws `j = floor(random() * (i + 1))` at each step; here the
    draws are passed in as `picks`, where `picks[i]` is the index drawn in the
    step that handles position `i`.  Any such draw satisfies `picks[i] <= i`. */
module Shuffle {

  /** The draws are legal: one per position, each within `0..i`. */
  predicate ValidPicks(picks: seq<nat>, n: nat)
  {
    |picks| == n && forall i :: 0 <= i < n ==> picks[i] <= i
  }

  /** Exchange the elements at positions `i` and `j`
      (the destructuring assignment `[a[i], a[j]] = [a[j], a[i]]`). */
  function Swap<T>(a: seq<T>, i: nat, j: nat): (r: seq<T>)
    requires i < |a| && j < |a|
    ensures |r| == |a|
  {
    seq(|a|, k requires 0 <= k < |a| => if k == j then a[i] else if k == i then a[j] else a[k])
  }

  /** A swap only rearranges: the multiset of elements is unchanged. */
  lemma SwapPermutes<T>(a: seq<T>, i: nat, j: nat)
    requires i < |a| && j < |a|
    ensures multiset(Swap(a, i, j)) == multiset(a)
  {
    assert Swap(a, i, j) == a[i := a[j]][j := a[i]];
  }

  /** Reference definition: the array once the steps for positions
      `|arr| - 1` down to `i + 1` have been applied, i.e. just before the
      step for position `i`.  `Pending(arr, picks, 0)` is the shuffled
      result. */
  function Pending<T>(arr: seq<T>, picks: seq<nat>, i: nat): (r: seq<T>)
    requires i < |arr| && ValidPicks(picks, |arr|)
    ensures |r| == |arr|
    decreases |arr| - i
  {
    if i == |arr| - 1 then arr
    else Swap(Pending(arr, picks, i + 1), i + 1, picks[i + 1])
  }

  /** Every intermediate array is a rearrangement of the input. */
  lemma {:induction false} PendingPermutes<T>(arr: seq<T>, picks: seq<nat>, i: nat)
    requires i < |arr| && ValidPicks(picks, |arr|)
    ensures multiset(Pending(arr, picks, i)) == multiset(arr)
    decreases |arr| - i
  {
    if i < |arr| - 1 {
      PendingPermutes(arr, picks, i + 1);
      SwapPermutes(Pending(arr, picks, i + 1), i + 1, picks[i + 1]);
    }
  }

  /** The shuffle as written: copy the argument (sequences are values, so the
      caller's sequence is never changed), then swap from the back.  The
      result is a rearrangement of the argument. */
  method Shuffle<T>(arr: seq<T>, picks: seq<nat>) returns (a: seq<T>)
    requires ValidPicks(picks, |arr|)
    ensures |a| == |arr|
    ensures multiset(a) == multiset(arr)
    ensures |arr| > 0 ==> a == Pending(arr, picks, 0)
  {
    if |arr| == 0 { return arr; }
    a := arr;
    var i := |a| - 1;
    while i > 0
      invariant 0 <= i < |arr|
      invariant a == Pending(arr, picks, i)
      decreases i
    {
      var j := picks[i];
      a := Swap(a, i, j);
      i := i - 1;
    }
    assert i == 0;
    PendingPermutes(arr, picks, 0);
  }

  /** When every draw lands on its own position, nothing moves. */
  lemma {:induction false} PendingIdentity<T>(arr: seq<T>, picks: seq<nat>, i: nat)
    requires i < |arr| && ValidPicks(picks, |arr|)
    requires forall k :: 0 <= k < |arr| ==> picks[k] == k
    ensures Pending(arr, picks, i) == arr
    decreases |arr| - i
  {
    if i < |arr| - 1 {
      PendingIdentity(arr, picks, i + 1);
      assert picks[i + 1] == i + 1;
      assert Swap(arr, i + 1, i + 1) == arr;
    }
  }
}
