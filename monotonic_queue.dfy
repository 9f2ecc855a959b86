/** The reference sliding-window extremum of algorithms_test/basic/monotonic_queue.py:
    for every window of `windowSize` consecutive items, the item whose key is
    greatest (or smallest), picked as Python's `max` / `min` pick it. */
module MonotonicQueue {
  import opened Wrappers

  /** `u` beats `v`: a strictly greater key when the best is the greatest,
      a strictly smaller key otherwise. */
  predicate Beats<T, K>(key: T -> K, less: (K, K) -> bool, greatest: bool, u: T, v: T)
  {
    if greatest then less(key(v), key(u)) else less(key(u), key(v))
  }

  /** `less` is a strict total order on keys. */
  ghost predicate IsStrictTotalOrder<K(!new)>(less: (K, K) -> bool)
  {
    (forall k :: !less(k, k)) &&
    (forall p, q, r :: less(p, q) && less(q, r) ==> less(p, r)) &&
    (forall p, q :: less(p, q) || less(q, p) || p == q)
  }

  /** The index `max(w, key=key)` / `min(w, key=key)` returns: a left-to-right
      scan that keeps the current best and replaces it only with an item that
      strictly beats it. */
  function BestIndex<T, K>(w: seq<T>, key: T -> K, less: (K, K) -> bool, greatest: bool): (b: nat)
    requires |w| >= 1
    ensures b < |w|
  {
    if |w| == 1 then 0
    else
      var b := BestIndex(w[..|w| - 1], key, less, greatest);
      if Beats(key, less, greatest, w[|w| - 1], w[b]) then |w| - 1 else b
  }

  /** The item `max` / `min` returns for a non-empty window. */
  function BestOf<T, K>(w: seq<T>, key: T -> K, less: (K, K) -> bool, greatest: bool): (best: T)
    requires |w| >= 1
    ensures best in w
  {
    w[BestIndex(w, key, less, greatest)]
  }

  /** Index b holds the leftmost best item: nothing beats it, and it beats
      everything to its left. */
  ghost predicate IsLeftmostBest<T, K>(w: seq<T>, key: T -> K, less: (K, K) -> bool, greatest: bool, b: nat)
  {
    b < |w| &&
    (forall j :: 0 <= j < |w| ==> !Beats(key, less, greatest, w[j], w[b])) &&
    (forall j :: 0 <= j < b ==> Beats(key, less, greatest, w[b], w[j]))
  }

  /** Under a strict total order, Beats is transitive and any two items are
      ordered by it or have equal keys. */
  lemma BeatsOrder<T, K(!new)>(key: T -> K, less: (K, K) -> bool, greatest: bool, u: T, v: T, t: T)
    requires IsStrictTotalOrder(less)
    ensures Beats(key, less, greatest, u, v) && Beats(key, less, greatest, v, t) ==> Beats(key, less, greatest, u, t)
    ensures Beats(key, less, greatest, u, v) || Beats(key, less, greatest, v, u) || key(u) == key(v)
    ensures !Beats(key, less, greatest, u, u)
  {
    assert less(key(u), key(v)) || less(key(v), key(u)) || key(u) == key(v);
    if greatest {
      if less(key(v), key(u)) && less(key(t), key(v)) {
        assert less(key(t), key(u));
      }
    } else {
      if less(key(u), key(v)) && less(key(v), key(t)) {
        assert less(key(u), key(t));
      }
    }
    assert !less(key(u), key(u));
  }

  /** The scan finds the leftmost best item of the window. */
  lemma {:induction false} BestIndexIsLeftmostBest<T, K(!new)>(w: seq<T>, key: T -> K, less: (K, K) -> bool, greatest: bool)
    requires |w| >= 1 && IsStrictTotalOrder(less)
    ensures IsLeftmostBest(w, key, less, greatest, BestIndex(w, key, less, greatest))
  {
    var n := |w|;
    if n > 1 {
      var p := w[..n - 1];
      var b' := BestIndex(p, key, less, greatest);
      BestIndexIsLeftmostBest(p, key, less, greatest);
      assert forall j :: 0 <= j < n - 1 ==> w[j] == p[j];
      var last := w[n - 1];
      if Beats(key, less, greatest, last, w[b']) {
        forall j | 0 <= j < n ensures !Beats(key, less, greatest, w[j], last) {
          BeatsOrder(key, less, greatest, w[j], last, w[b']);
        }
        forall j | 0 <= j < n - 1 ensures Beats(key, less, greatest, last, w[j]) {
          BeatsOrder(key, less, greatest, w[b'], w[j], w[j]);
          BeatsOrder(key, less, greatest, last, w[b'], w[j]);
        }
      }
    }
  }

  /** The leftmost best index is unique, so BestIndex is the only index that
      satisfies IsLeftmostBest. */
  lemma LeftmostBestUnique<T, K(!new)>(w: seq<T>, key: T -> K, less: (K, K) -> bool, greatest: bool, i: nat)
    requires |w| >= 1 && IsStrictTotalOrder(less)
    requires IsLeftmostBest(w, key, less, greatest, i)
    ensures i == BestIndex(w, key, less, greatest)
  {
    var b := BestIndex(w, key, less, greatest);
    BestIndexIsLeftmostBest(w, key, less, greatest);
    assert !Beats(key, less, greatest, w[b], w[i]) && !Beats(key, less, greatest, w[i], w[b]);
  }

  /** The number of windows: `len(data) - window_size + 1`, or none when the
      window is longer than the data. */
  function WindowCount(dataLength: nat, windowSize: nat): nat
  {
    if dataLength >= windowSize then dataLength - windowSize + 1 else 0
  }

  /** `sliding_window_best_plain_and_trusted`: the best item of every window,
      left to right. A window size below 1 makes `max` / `min` see an empty
      slice and raise ValueError: None. */
  method SlidingWindowBest<T, K>(data: seq<T>, windowSize: int, key: T -> K, less: (K, K) -> bool,
                                 bestMeansGreatest: bool) returns (results: Option<seq<T>>)
    ensures results.None? <==> windowSize < 1
    ensures results.Some? ==> |results.value| == WindowCount(|data|, windowSize)
    ensures results.Some? ==> forall i :: 0 <= i < |results.value| ==>
      i + windowSize <= |data| && results.value[i] == BestOf(data[i..i + windowSize], key, less, bestMeansGreatest)
  {
    if windowSize < 1 {
      return None;
    }
    var rs: seq<T> := [];
    for i := 0 to WindowCount(|data|, windowSize)
      invariant |rs| == i
      invariant forall j :: 0 <= j < i ==>
        j + windowSize <= |data| && rs[j] == BestOf(data[j..j + windowSize], key, less, bestMeansGreatest)
    {
      rs := rs + [BestOf(data[i..i + windowSize], key, less, bestMeansGreatest)];
    }
    return Some(rs);
  }
}
