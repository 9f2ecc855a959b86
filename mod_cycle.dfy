/** The orbit of 1 under multiplication by `base` modulo `mod`, as built by
    `_get_modular_multiplicative_cycle` in diophantine1/revalidators.py. */
module ModCycle {
  import opened Wrappers
  import opened NumberTheory

  /** The helper raises ValueError unless this holds. */
  predicate CycleDefined(base: int, mod: int)
  {
    base >= 1 && mod >= 2 && Gcd(base, mod) == 1
  }

  /** L is the multiplicative order of base modulo mod: the least positive
      exponent whose power leaves remainder 1. */
  ghost predicate IsOrder(base: int, mod: int, L: nat)
    requires mod >= 2
  {
    L >= 1 && Pow(base, L) % mod == 1 && forall k: nat :: 0 < k < L ==> Pow(base, k) % mod != 1
  }

  /** The least k in [from, mod] with base^k % mod == 1, or 0 if there is none. */
  function OrderFrom(base: int, mod: int, from: nat): nat
    requires mod >= 2
    decreases mod + 1 - from
  {
    if from > mod then 0
    else if Pow(base, from) % mod == 1 then from
    else OrderFrom(base, mod, from + 1)
  }

  /** The multiplicative order found by searching the exponents 1 .. mod. */
  function MultiplicativeOrder(base: int, mod: int): nat
    requires mod >= 2
  {
    OrderFrom(base, mod, 1)
  }

  /** What the helper returns: `cycle[i]` is base^i % mod for every i below
      the multiplicative order, and `seen` maps each cycle value back to its
      index (so the entries are pairwise distinct). */
  ghost predicate IsCycle(base: int, mod: int, cycle: seq<int>, seen: map<int, nat>)
    requires mod >= 2
  {
    IsOrder(base, mod, |cycle|) &&
    (forall i :: 0 <= i < |cycle| ==> cycle[i] == Pow(base, i) % mod) &&
    (forall i :: 0 <= i < |cycle| ==> cycle[i] in seen && seen[cycle[i]] == i) &&
    (forall v :: v in seen ==> seen[v] < |cycle| && cycle[seen[v]] == v)
  }

  /** The loop's view of the cycle: it starts at 1 and each entry is the
      previous one times `base % mod`, reduced modulo mod. */
  ghost predicate Recurrence(base: int, mod: int, cycle: seq<int>)
    requires mod >= 2
  {
    |cycle| >= 1 && cycle[0] == 1 &&
    forall i :: 0 < i < |cycle| ==> cycle[i] == (cycle[i - 1] * (base % mod)) % mod
  }

  /** `_get_modular_multiplicative_cycle(base, mod)`; None where it raises. */
  method GetModularMultiplicativeCycle(base: int, mod: int) returns (r: Option<(seq<int>, map<int, nat>)>)
    ensures r.None? <==> !CycleDefined(base, mod)
    ensures r.Some? ==> Recurrence(base, mod, r.value.0) && IsCycle(base, mod, r.value.0, r.value.1)
    ensures r.Some? ==> |r.value.0| <= mod - 1 && |r.value.0| == MultiplicativeOrder(base, mod)
  {
    if base < 1 || mod < 2 || Gcd(base, mod) != 1 {
      return None;
    }
    var b := base % mod;
    var cycle := [1];
    var seen: map<int, nat> := map[1 := 0];
    var value := 1;
    while true
      invariant Recurrence(base, mod, cycle) && |seen| == |cycle|
      invariant value == cycle[|cycle| - 1]
      invariant forall i :: 0 <= i < |cycle| ==> cycle[i] in seen && seen[cycle[i]] == i
      invariant forall v :: v in seen ==> seen[v] < |cycle| && cycle[seen[v]] == v && 1 <= v < mod
      decreases mod - |cycle|
    {
      KeysBounded(seen, mod);
      value := (value * b) % mod;
      if value in seen {
        OrbitCloses(base, mod, cycle, seen);
        break;
      }
      NextIsNonzero(base, mod, cycle[|cycle| - 1]);
      seen := seen[value := |cycle|];
      cycle := cycle + [value];
    }
    KeysBounded(seen, mod);
    OrderIsFound(base, mod, |cycle|);
    return Some((cycle, seen));
  }

  // ------------------------------------------------------- helper lemmas

  /** The integers lo .. hi - 1, as a set. */
  function IntRange(lo: int, hi: int): (r: set<int>)
    ensures forall v :: v in r <==> lo <= v < hi
    ensures |r| == if lo <= hi then hi - lo else 0
    decreases hi - lo
  {
    if hi <= lo then {} else IntRange(lo, hi - 1) + {hi - 1}
  }

  /** A map whose keys lie in 1 .. mod - 1 has at most mod - 1 keys. */
  lemma KeysBounded(seen: map<int, nat>, mod: int)
    requires mod >= 2 && forall v :: v in seen ==> 1 <= v < mod
    ensures |seen| <= mod - 1
  {
    var keys, range := seen.Keys, IntRange(1, mod);
    assert keys <= range;
    assert range == keys + (range - keys);
    assert |range| == |keys| + |range - keys|;
  }

  /** One loop step: value * (base % mod) % mod is the next power's remainder. */
  lemma StepIsNextPower(base: int, mod: int, i: nat, value: int)
    requires mod >= 2 && value == Pow(base, i) % mod
    ensures (value * (base % mod)) % mod == Pow(base, i + 1) % mod
  {
    MulMod(Pow(base, i), base, mod);
    assert Pow(base, i + 1) == Pow(base, i) * base;
  }

  /** The entries the recurrence produces are the remainders of the powers. */
  lemma {:induction false} RecurrenceIsPowers(base: int, mod: int, cycle: seq<int>, k: nat)
    requires mod >= 2 && Recurrence(base, mod, cycle) && k < |cycle|
    ensures cycle[k] == Pow(base, k) % mod
  {
    if k == 0 {
      assert Pow(base, 0) % mod == 1;
    } else {
      RecurrenceIsPowers(base, mod, cycle, k - 1);
      StepIsNextPower(base, mod, k - 1, cycle[k - 1]);
    }
  }

  /** Multiplying a nonzero remainder by a unit never gives remainder 0. */
  lemma NextIsNonzero(base: int, mod: int, value: int)
    requires CycleDefined(base, mod) && 1 <= value < mod
    ensures (value * (base % mod)) % mod != 0
  {
    MulModRight(value, base, mod);
    if (value * base) % mod == 0 {
      assert base * value == value * base && base * 0 == 0;
      CancelUnit(base, value, 0, mod);
      ModUnique(value, mod, 0, value);
      assert false;
    }
  }

  /** When the next entry repeats an earlier one, it repeats the first, 1,
      and the cycle is complete. */
  lemma OrbitCloses(base: int, mod: int, cycle: seq<int>, seen: map<int, nat>)
    requires CycleDefined(base, mod) && Recurrence(base, mod, cycle)
    requires forall i :: 0 <= i < |cycle| ==> cycle[i] in seen && seen[cycle[i]] == i
    requires forall v :: v in seen ==> seen[v] < |cycle| && cycle[seen[v]] == v && 1 <= v < mod
    requires (cycle[|cycle| - 1] * (base % mod)) % mod in seen
    ensures IsCycle(base, mod, cycle, seen)
  {
    var L := |cycle|;
    var next := (cycle[L - 1] * (base % mod)) % mod;
    var j := seen[next];
    if j > 0 {
      SameSuccessor(base, mod, cycle[L - 1], cycle[j - 1]);
      assert false;
    }
    forall k | 0 <= k < L ensures cycle[k] == Pow(base, k) % mod {
      RecurrenceIsPowers(base, mod, cycle, k);
    }
    StepIsNextPower(base, mod, L - 1, cycle[L - 1]);
    forall k: nat | 0 < k < L ensures Pow(base, k) % mod != 1 {
      assert seen[cycle[k]] == k && seen[cycle[0]] == 0;
    }
  }

  /** Two remainders in 1 .. mod - 1 with the same successor are equal. */
  lemma SameSuccessor(base: int, mod: int, u: int, v: int)
    requires CycleDefined(base, mod) && 1 <= u < mod && 1 <= v < mod
    requires (u * (base % mod)) % mod == (v * (base % mod)) % mod
    ensures u == v
  {
    MulModRight(u, base, mod);
    MulModRight(v, base, mod);
    assert (base * u) % mod == (base * v) % mod by {
      assert u * base == base * u && v * base == base * v;
    }
    CancelUnit(base, u, v, mod);
    ModUnique(u, mod, 0, u);
    ModUnique(v, mod, 0, v);
  }

  /** The order found by the loop is the one the search over 1 .. mod finds. */
  lemma OrderIsFound(base: int, mod: int, L: nat)
    requires mod >= 2 && IsOrder(base, mod, L) && L <= mod
    ensures MultiplicativeOrder(base, mod) == L
  {
    OrderFromReaches(base, mod, L, 1);
  }

  lemma {:induction false} OrderFromReaches(base: int, mod: int, L: nat, from: nat)
    requires mod >= 2 && IsOrder(base, mod, L) && L <= mod && 1 <= from <= L
    ensures OrderFrom(base, mod, from) == L
    decreases L - from
  {
    if from < L {
      OrderFromReaches(base, mod, L, from + 1);
    }
  }

  // ------------------------------------------------ what the cycle means

  /** Once base^L leaves remainder 1, powers repeat with period L. */
  lemma {:induction false} PowPeriodic(base: int, mod: int, L: nat, n: nat)
    requires mod >= 2 && L >= 1 && Pow(base, L) % mod == 1
    ensures Pow(base, n) % mod == Pow(base, n % L) % mod
    decreases n
  {
    if n >= L {
      PowPeriodic(base, mod, L, n - L);
      PowAdd(base, L, n - L);
      MulModLeft(Pow(base, L), Pow(base, n - L), mod);
      ModAddMultiple(1, n - L, L);
    } else {
      ModUnique(n, L, 0, n);
    }
  }

  /** Every power of base, reduced modulo mod, is the cycle entry at the
      exponent's position modulo the cycle length. */
  lemma PowerInCycle(base: int, mod: int, cycle: seq<int>, seen: map<int, nat>, n: nat)
    requires mod >= 2 && IsCycle(base, mod, cycle, seen)
    ensures Pow(base, n) % mod == cycle[n % |cycle|]
  {
    PowPeriodic(base, mod, |cycle|, n);
  }

  /** A value is a cycle entry exactly when some positive power of base
      leaves it as remainder. */
  lemma InCycleIffPower(base: int, mod: int, cycle: seq<int>, seen: map<int, nat>, v: int)
    requires mod >= 2 && IsCycle(base, mod, cycle, seen)
    ensures v in seen <==> exists n: nat :: n >= 1 && Pow(base, n) % mod == v
  {
    var L := |cycle|;
    if v in seen {
      var k := seen[v];
      var n: nat := if k == 0 then L else k;
      if k == 0 {
        assert Pow(base, n) % mod == 1 == cycle[0];
      }
      assert n >= 1 && Pow(base, n) % mod == v;
    }
    if exists n: nat :: n >= 1 && Pow(base, n) % mod == v {
      var n: nat :| n >= 1 && Pow(base, n) % mod == v;
      PowerInCycle(base, mod, cycle, seen, n);
    }
  }

  /** The exponents whose power leaves the remainder `cycle[p]` are exactly
      those congruent to p modulo the cycle length. */
  lemma PowerPosition(base: int, mod: int, cycle: seq<int>, seen: map<int, nat>, n: nat, p: nat)
    requires mod >= 2 && IsCycle(base, mod, cycle, seen) && p < |cycle|
    ensures Pow(base, n) % mod == cycle[p] <==> n % |cycle| == p
  {
    PowerInCycle(base, mod, cycle, seen, n);
    var q := n % |cycle|;
    assert seen[cycle[q]] == q && seen[cycle[p]] == p;
  }
  /** The multiplicative order is unique. */
  lemma OrderUnique(base: int, mod: int, L1: nat, L2: nat)
    requires mod >= 2 && IsOrder(base, mod, L1) && IsOrder(base, mod, L2)
    ensures L1 == L2
  {
    if L1 < L2 {
      assert false;
    } else if L2 < L1 {
      assert false;
    }
  }

  /** Equal remainders of base^i and base^j (i <= j) mean base^(j - i)
      leaves remainder 1: cancel one factor base at a time. */
  lemma {:induction false} EqualPowersShift(base: int, mod: int, i: nat, j: nat)
    requires CycleDefined(base, mod) && i <= j && Pow(base, i) % mod == Pow(base, j) % mod
    ensures Pow(base, j - i) % mod == 1
    decreases i
  {
    if i > 0 {
      CancelUnit(base, Pow(base, i - 1), Pow(base, j - 1), mod);
      EqualPowersShift(base, mod, i - 1, j - 1);
    }
  }

  /** Below the order, distinct exponents give distinct remainders. */
  lemma PowersBelowOrderDistinct(base: int, mod: int, L: nat, i: nat, j: nat)
    requires CycleDefined(base, mod) && IsOrder(base, mod, L) && i < L && j < L
    requires Pow(base, i) % mod == Pow(base, j) % mod
    ensures i == j
  {
    if i < j {
      EqualPowersShift(base, mod, i, j);
      assert false;
    } else if j < i {
      EqualPowersShift(base, mod, j, i);
      assert false;
    }
  }
}
