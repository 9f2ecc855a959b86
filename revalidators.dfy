/** The nine revalidators of diophantine1/revalidators.py. Each decides
    whether a proposition claimed about a^x + b = c^y, or about base^k % mod,
    follows from the verified facts given with it. The regular-expression
    matching is replaced by the parsed records of ParsedClaims; everything
    after the match is modelled. Every path on which the source returns False
    or raises inside its `try` (caught and turned into False) gives `false`;
    no revalidator has a precondition. */
module Diophantine1Revalidators {
  import opened Wrappers
  import opened NumberTheory
  import opened ModCycle
  import opened Diophantine1Exhaust
  import opened ValueList
  import opened ParsedClaims

  // ------------------------------------------------------ pow_mod_eq_zero

  /** Every exponent from `least` on gives remainder 0: the claim
      `base ^ ident % mod = 0` for every integer ident >= least. */
  ghost predicate ZeroFrom(base: int, mod: int, least: nat)
    requires mod >= 1
  {
    forall n: nat :: n >= least ==> Pow(base, n) % mod == 0
  }

  /** The remainder is 0 from `least` on exactly when it is 0 at `least`. */
  lemma ZeroFromLeast(base: int, mod: int, least: nat)
    requires mod >= 1
    ensures ZeroFrom(base, mod, least) <==> Pow(base, least) % mod == 0
  {
    if Pow(base, least) % mod == 0 {
      forall n: nat | n >= least ensures Pow(base, n) % mod == 0 {
        var p, q := Pow(base, least), Pow(base, n - least);
        PowAdd(base, least, n - least);
        assert Pow(base, n) == p * q;
        MulModZero(p, q, mod);
      }
    }
  }

  /** `pow_mod_eq_zero`: accepts `base ^ ident % mod = 0` from the facts
      `ident % 1 = 0, ident >= min_value` exactly when the claim holds for
      every integer exponent from min_value on. */
  function PowModEqZero(prop: Option<PowModZero>, factCount: nat, facts: Option<IntegerAtLeast>): (verdict: bool)
    ensures verdict <==>
      prop.Some? && prop.value.base >= 2 && prop.value.mod >= 2 &&
      factCount == 2 && facts.Some? &&
      facts.value.ident2 == prop.value.ident && facts.value.ident3 == prop.value.ident &&
      facts.value.minValue >= 1 &&
      ZeroFrom(prop.value.base, prop.value.mod, facts.value.minValue)
  {
    if prop.None? then false
    else
      var p := prop.value;
      if p.base < 2 || p.mod < 2 then false
      else if factCount != 2 then false
      else if facts.None? then false
      else
        var f := facts.value;
        if f.ident2 != p.ident || f.ident3 != p.ident || f.minValue < 1 then false
        else
          ZeroFromLeast(p.base, p.mod, f.minValue);
          Pow(p.base, f.minValue) % p.mod == 0
  }

  // ---------------------------------------------------- observe_mod_cycle

  /** No positive power of base leaves remainder `res`. */
  ghost predicate NeverResidue(base: int, mod: int, res: int)
    requires mod >= 1
  {
    forall n: nat :: n >= 1 ==> Pow(base, n) % mod != res
  }

  /** `observe_mod_cycle`: from `pow % 1 = 0, pow >= 1, base ^ pow % mod = res`
      it accepts "False" exactly when no positive power leaves `res`, and
      `pow % repetend = position` exactly when repetend is the multiplicative
      order of base and base^position leaves `res`. */
  method ObserveModCycle(prop: Claim<ExponentResidue>, factCount: nat, facts: Option<ObserveFacts>)
    returns (verdict: bool)
    ensures verdict <==>
      factCount == 3 && facts.Some? &&
      facts.value.pow2 == facts.value.pow && facts.value.pow3 == facts.value.pow &&
      CycleDefined(facts.value.base, facts.value.mod) && facts.value.res < facts.value.mod &&
      match prop
      case FalseLiteral => NeverResidue(facts.value.base, facts.value.mod, facts.value.res)
      case Matches(g) =>
        g.pow4 == facts.value.pow && 1 <= g.repetend && g.position < g.repetend &&
        IsOrder(facts.value.base, facts.value.mod, g.repetend) &&
        Pow(facts.value.base, g.position) % facts.value.mod == facts.value.res
      case Unmatched => false
  {
    if factCount != 3 || facts.None? { return false; }
    var f := facts.value;
    if f.pow2 != f.pow || f.pow3 != f.pow { return false; }
    if f.base < 1 || f.mod < 2 || Gcd(f.base, f.mod) != 1 { return false; }
    // res comes from a digit group, so only the upper end can fail
    if f.res >= f.mod { return false; }
    var r := GetModularMultiplicativeCycle(f.base, f.mod);
    var cycle, seen := r.value.0, r.value.1;
    match prop {
      case Unmatched =>
        return false;
      case FalseLiteral =>
        verdict := f.res !in seen;
        AbsentIffNever(f.base, f.mod, cycle, seen, f.res);
      case Matches(g) =>
        if g.pow4 != f.pow || g.repetend < 1 || g.position >= g.repetend { return false; }
        verdict := g.repetend == |cycle| && f.res in seen && g.position == seen[f.res];
        PositionIffClaim(f.base, f.mod, cycle, seen, f.res, g.repetend, g.position);
    }
  }

  /** A remainder is missing from the cycle exactly when no positive power
      leaves it. */
  lemma AbsentIffNever(base: int, mod: int, cycle: seq<int>, seen: map<int, nat>, v: int)
    requires mod >= 2 && IsCycle(base, mod, cycle, seen)
    ensures v !in seen <==> NeverResidue(base, mod, v)
  {
    if v in seen {
      InCycleIffPower(base, mod, cycle, seen, v);
      var n: nat :| n >= 1 && Pow(base, n) % mod == v;
      assert !NeverResidue(base, mod, v);
    } else {
      forall n: nat | n >= 1 ensures Pow(base, n) % mod != v {
        PowerInCycle(base, mod, cycle, seen, n);
      }
    }
  }

  /** The cycle's answer to `pow % repetend = position`: repetend is the cycle
      length and res sits at index position, exactly when repetend is the
      order and base^position leaves res. */
  lemma PositionIffClaim(base: int, mod: int, cycle: seq<int>, seen: map<int, nat>, res: int,
                         repetend: nat, position: nat)
    requires mod >= 2 && IsCycle(base, mod, cycle, seen) && position < repetend
    ensures (repetend == |cycle| && res in seen && position == seen[res]) <==>
      (IsOrder(base, mod, repetend) && Pow(base, position) % mod == res)
  {
    if IsOrder(base, mod, repetend) {
      OrderUnique(base, mod, repetend, |cycle|);
      if Pow(base, position) % mod == res {
        assert cycle[position] == res;
      }
    }
  }

  /** What an accepted `pow % repetend = position` promises: every positive
      exponent whose power leaves `res` is congruent to position. */
  lemma ObserveClaimHolds(base: int, mod: int, res: int, repetend: nat, position: nat, n: nat)
    requires CycleDefined(base, mod) && IsOrder(base, mod, repetend) && position < repetend
    requires Pow(base, position) % mod == res
    requires n >= 1 && Pow(base, n) % mod == res
    ensures n % repetend == position
  {
    PowPeriodic(base, mod, repetend, n);
    PowersBelowOrderDistinct(base, mod, repetend, n % repetend, position);
  }

  // ---------------------------------------------------- utilize_mod_cycle

  /** Some exponent congruent to `position` modulo g gives remainder v. */
  ghost predicate ResidueOnClass(base: int, mod: int, g: nat, position: nat, v: int)
    requires mod >= 1 && g >= 1
  {
    exists n: nat :: n % g == position % g && Pow(base, n) % mod == v
  }

  /** Python's `set(xs) == set(ys)`. */
  function SameElements<T(==,!new)>(xs: seq<T>, ys: seq<T>): (same: bool)
    ensures same <==> forall v :: v in xs <==> v in ys
  {
    var left, right := set v | v in xs, set v | v in ys;
    assert forall v :: v in left <==> v in xs;
    left == right
  }

  /** `utilize_mod_cycle`: from `pow % 1 = 0, pow >= 1, pow % period = position`
      it accepts `List.Mem (base ^ pow % mod) [values]` exactly when the
      values are the remainders of base^n over the exponents n congruent to
      position modulo g = gcd(period, order of base). */
  method UtilizeModCycle(prop: Option<PowModMember>, factCount: nat, facts: Option<UtilizeFacts>)
    returns (verdict: bool)
    ensures verdict <==>
      factCount == 3 && facts.Some? &&
      facts.value.pow2 == facts.value.pow && facts.value.pow3 == facts.value.pow &&
      1 <= facts.value.period && facts.value.position < facts.value.period &&
      prop.Some? && ParseValueList(prop.value.valuesText).Some? &&
      prop.value.exponent == facts.value.pow && CycleDefined(prop.value.base, prop.value.mod) &&
      (forall v :: v in ParseValueList(prop.value.valuesText).value ==> v < prop.value.mod) &&
      var g := Gcd(facts.value.period, MultiplicativeOrder(prop.value.base, prop.value.mod));
      forall v: int :: v in ParseValueList(prop.value.valuesText).value <==>
        ResidueOnClass(prop.value.base, prop.value.mod, g, facts.value.position, v)
  {
    if factCount != 3 || facts.None? { return false; }
    var f := facts.value;
    if f.pow2 != f.pow || f.pow3 != f.pow { return false; }
    if f.period < 1 || f.position >= f.period { return false; }
    if prop.None? { return false; }
    var p := prop.value;
    var parsed := ParseValueList(p.valuesText);
    if parsed.None? { return false; }
    var values := parsed.value;
    if p.exponent != f.pow { return false; }
    if p.base < 1 || p.mod < 2 || Gcd(p.base, p.mod) != 1 { return false; }
    if exists v :: v in values && v >= p.mod { return false; }
    var r := GetModularMultiplicativeCycle(p.base, p.mod);
    var cycle := r.value.0;
    var repetend := |cycle|;
    var validPeriod := Gcd(f.period, repetend);
    GcdDivides(f.period, repetend);
    var trueValues := StridedEntries(cycle, validPeriod, f.position);
    verdict := SameElements(trueValues, values);
    StridedValuesAreClass(p.base, p.mod, cycle, r.value.1, validPeriod, f.position, trueValues);
    SameAsClass(p.base, p.mod, validPeriod, f.position, trueValues, values);
    assert repetend == MultiplicativeOrder(p.base, p.mod);
  }

  /** `[cycle[position % g + i * g] for i in range(len(cycle) // g)]`: every
      g-th entry of the cycle, starting from position's class modulo g. */
  method StridedEntries(cycle: seq<int>, g: nat, position: nat) returns (entries: seq<int>)
    requires g >= 1 && |cycle| % g == 0
    ensures |entries| == |cycle| / g
    ensures forall j :: 0 <= j < |entries| ==>
      position % g + j * g < |cycle| && entries[j] == cycle[position % g + j * g]
  {
    entries := [];
    for i := 0 to |cycle| / g
      invariant |entries| == i
      invariant forall j :: 0 <= j < i ==>
        position % g + j * g < |cycle| && entries[j] == cycle[position % g + j * g]
    {
      StridedIndexInCycle(position % g, g, i, |cycle|);
      entries := entries + [cycle[position % g + i * g]];
    }
  }

  /** Comparing the listed values with the strided cycle entries as sets
      decides whether the list is exactly the class's remainders. */
  lemma SameAsClass(base: int, mod: int, g: nat, position: nat, trueValues: seq<int>, values: seq<nat>)
    requires mod >= 1 && g >= 1
    requires forall v: int :: v in trueValues <==> ResidueOnClass(base, mod, g, position, v)
    ensures SameElements(trueValues, values) <==>
      forall v: int :: v in values <==> ResidueOnClass(base, mod, g, position, v)
  {
    if SameElements(trueValues, values) {
      forall v: int ensures v in values <==> ResidueOnClass(base, mod, g, position, v) {
        assert v in trueValues <==> v in values;
      }
    }
    if forall v: int :: v in values <==> ResidueOnClass(base, mod, g, position, v) {
      forall v: int ensures v in trueValues <==> v in values {
        assert v in trueValues <==> ResidueOnClass(base, mod, g, position, v);
      }
    }
  }

  /** What an accepted `List.Mem` claim promises: every positive exponent
      congruent to position modulo period gives a listed remainder. */
  lemma UtilizeClaimHolds(base: int, mod: int, period: nat, position: nat, L: nat, values: seq<nat>, n: nat)
    requires mod >= 2 && L >= 1 && 1 <= period && position < period
    requires forall v: int :: v in values <==> ResidueOnClass(base, mod, Gcd(period, L), position, v)
    requires n % period == position
    ensures Pow(base, n) % mod in values
  {
    var g := Gcd(period, L);
    GcdDivides(period, L);
    ModOfModMultiple(n, period, g);
    assert n % g == position % g;
    assert ResidueOnClass(base, mod, g, position, Pow(base, n) % mod);
  }

  /** r + i * g stays inside a cycle whose length L is a multiple of g. */
  lemma StridedIndexInCycle(r: nat, g: nat, i: nat, L: nat)
    requires g >= 1 && r < g && L % g == 0 && i < L / g
    ensures r + i * g < L
  {
    assert L == (L / g) * g;
    assert i * g <= (L / g - 1) * g by {
      assert L / g - 1 - i >= 0;
      assert (L / g - 1) * g - i * g == (L / g - 1 - i) * g;
    }
  }

  /** (n % p) % g == n % g when g divides p. */
  lemma ModOfModMultiple(n: nat, p: nat, g: nat)
    requires p >= 1 && g >= 1 && p % g == 0
    ensures (n % p) % g == n % g
  {
    assert p == (p / g) * g;
    assert n == ((n / p) * (p / g)) * g + n % p by {
      assert n == (n / p) * p + n % p;
      assert (n / p) * p == (n / p) * ((p / g) * g) == ((n / p) * (p / g)) * g;
    }
    ModAddMultiple((n / p) * (p / g), n % p, g);
  }

  /** The strided cycle entries are exactly the remainders on the exponent class. */
  lemma StridedValuesAreClass(base: int, mod: int, cycle: seq<int>, seen: map<int, nat>, g: nat, position: nat,
                              trueValues: seq<int>)
    requires mod >= 2 && IsCycle(base, mod, cycle, seen) && g >= 1 && |cycle| % g == 0
    requires |trueValues| == |cycle| / g
    requires forall j :: 0 <= j < |trueValues| ==>
      position % g + j * g < |cycle| && trueValues[j] == cycle[position % g + j * g]
    ensures forall v: int :: v in trueValues <==> ResidueOnClass(base, mod, g, position, v)
  {
    forall v: int | v in trueValues ensures ResidueOnClass(base, mod, g, position, v) {
      var j :| 0 <= j < |trueValues| && trueValues[j] == v;
      StridedEntryOnClass(base, mod, cycle, seen, g, position, j);
    }
    forall v: int | ResidueOnClass(base, mod, g, position, v) ensures v in trueValues {
      var n: nat :| n % g == position % g && Pow(base, n) % mod == v;
      var q := ClassInStride(base, mod, cycle, seen, g, position, n);
      assert trueValues[q] == v;
    }
  }

  /** The entry at position % g + j * g is a remainder on the exponent class. */
  lemma StridedEntryOnClass(base: int, mod: int, cycle: seq<int>, seen: map<int, nat>, g: nat, position: nat, j: nat)
    requires mod >= 2 && IsCycle(base, mod, cycle, seen) && g >= 1 && position % g + j * g < |cycle|
    ensures ResidueOnClass(base, mod, g, position, cycle[position % g + j * g])
  {
    var r := position % g;
    var n: nat := r + j * g;
    ModUnique(r, g, 0, r);
    ModAddMultiple(j, r, g);
    assert n % g == position % g && Pow(base, n) % mod == cycle[n];
  }

  /** Every power on the exponent class is a strided cycle entry. */
  lemma ClassInStride(base: int, mod: int, cycle: seq<int>, seen: map<int, nat>, g: nat, position: nat, n: nat)
    returns (q: nat)
    requires mod >= 2 && IsCycle(base, mod, cycle, seen) && g >= 1 && |cycle| % g == 0
    requires n % g == position % g
    ensures q < |cycle| / g && position % g + q * g < |cycle| && Pow(base, n) % mod == cycle[position % g + q * g]
  {
    q := StrideOf(n, |cycle|, g, position);
    ghost var k := n % |cycle|;
    ghost var idx := position % g + q * g;
    assert idx == k;
    PowerInCycle(base, mod, cycle, seen, n);
  }

  /** n % L sits at position % g + q * g for some q below L / g. */
  lemma StrideOf(n: nat, L: nat, g: nat, position: nat) returns (q: nat)
    requires L >= 1 && g >= 1 && L % g == 0 && n % g == position % g
    ensures q < L / g && position % g + q * g == n % L
  {
    var k := n % L;
    ModOfModMultiple(n, L, g);
    QuotientBelow(k, L, g);
    q := k / g;
  }

  /** Dividing an index below L by a divisor g of L stays below L / g. */
  lemma QuotientBelow(k: nat, L: nat, g: nat)
    requires g >= 1 && k < L && L % g == 0
    ensures k / g < L / g && k == (k / g) * g + k % g
  {
    assert L == (L / g) * g;
    assert (L / g) * g - (k / g) * g == (L / g - k / g) * g;
  }

  // ---------------------------------------------------- exhaust_mod_cycle

  /** `exhaust_mod_cycle`: accepts "False" from
      `pow % 1 = 0, pow >= 1, List.Mem (base ^ pow % mod) [values]` exactly
      when no positive power of base leaves any of the listed remainders. */
  method ExhaustModCycle(prop: string, factCount: nat, facts: Option<ExhaustFacts>) returns (verdict: bool)
    ensures verdict <==>
      prop == "False" && factCount == 3 && facts.Some? &&
      ParseValueList(facts.value.member.valuesText).Some? &&
      facts.value.pow2 == facts.value.pow && facts.value.member.exponent == facts.value.pow &&
      CycleDefined(facts.value.member.base, facts.value.member.mod) &&
      (forall v :: v in ParseValueList(facts.value.member.valuesText).value ==> v < facts.value.member.mod) &&
      forall v :: v in ParseValueList(facts.value.member.valuesText).value ==>
        NeverResidue(facts.value.member.base, facts.value.member.mod, v)
  {
    if prop != "False" { return false; }
    if factCount != 3 || facts.None? { return false; }
    var f := facts.value;
    var m := f.member;
    var parsed := ParseValueList(m.valuesText);
    if parsed.None? { return false; }
    var values := parsed.value;
    if f.pow2 != f.pow || m.exponent != f.pow { return false; }
    if m.base < 1 || m.mod < 2 || Gcd(m.base, m.mod) != 1 { return false; }
    if exists v :: v in values && v >= m.mod { return false; }
    var r := GetModularMultiplicativeCycle(m.base, m.mod);
    var seen := r.value.1;
    verdict := forall v :: v in values ==> v !in seen;
    AbsentMeansNever(m.base, m.mod, r.value.0, seen, values);
  }

  /** No listed value is in the cycle exactly when no listed value is the
      remainder of a positive power. */
  lemma AbsentMeansNever(base: int, mod: int, cycle: seq<int>, seen: map<int, nat>, values: seq<nat>)
    requires mod >= 2 && IsCycle(base, mod, cycle, seen)
    ensures (forall v :: v in values ==> v !in seen) <==>
      forall v :: v in values ==> NeverResidue(base, mod, v)
  {
    forall v | v in values ensures v !in seen <==> NeverResidue(base, mod, v) {
      AbsentIffNever(base, mod, cycle, seen, v);
    }
  }
  // ------------------------------------------------ compute_mod_add / _sub

  /** The given residues shifted by `shift`, reduced modulo mod. */
  function Shifted(values: seq<nat>, shift: int, mod: int): (rs: seq<int>)
    requires mod >= 1
    ensures |rs| == |values|
    ensures forall i :: 0 <= i < |values| ==> rs[i] == (values[i] + shift) % mod
  {
    if |values| == 0 then [] else [(values[0] + shift) % mod] + Shifted(values[1..], shift, mod)
  }

  /** A residue is in the shifted list exactly when it is some given value shifted. */
  lemma ShiftedMembers(values: seq<nat>, shift: int, mod: int)
    requires mod >= 1
    ensures forall r :: r in Shifted(values, shift, mod) <==> exists v :: v in values && r == (v + shift) % mod
  {
    var rs := Shifted(values, shift, mod);
    forall r | r in rs ensures exists v :: v in values && r == (v + shift) % mod {
      var i :| 0 <= i < |rs| && rs[i] == r;
      assert values[i] in values;
    }
    forall r | exists v :: v in values && r == (v + shift) % mod ensures r in rs {
      var v :| v in values && r == (v + shift) % mod;
      var i :| 0 <= i < |values| && values[i] == v;
      assert rs[i] == r;
    }
  }

  /** Comparing with the shifted list as sets decides ShiftedResidues. */
  lemma SameAsShifted(claimed: seq<nat>, given: seq<nat>, shift: int, mod: int)
    requires mod >= 1
    ensures SameElements(claimed, Shifted(given, shift, mod)) <==> ShiftedResidues(claimed, given, shift, mod)
  {
    ShiftedMembers(given, shift, mod);
    var rs := Shifted(given, shift, mod);
    if ShiftedResidues(claimed, given, shift, mod) {
      forall r: int ensures r in claimed <==> r in rs {
      }
    }
  }

  /** The claimed residues are exactly the given ones shifted by `shift`. */
  ghost predicate ShiftedResidues(claimed: seq<nat>, given: seq<nat>, shift: int, mod: int)
    requires mod >= 1
  {
    forall r: int :: r in claimed <==> exists v :: v in given && r == (v + shift) % mod
  }

  /** `set(result_values) == set(true_result_values)` for the shifted values. */
  function ShiftedMatches(claimed: seq<nat>, given: seq<nat>, shift: int, mod: int): (same: bool)
    requires mod >= 1
    ensures same <==> ShiftedResidues(claimed, given, shift, mod)
  {
    SameAsShifted(claimed, given, shift, mod);
    SameElements(claimed, Shifted(given, shift, mod))
  }

  /** The two `List.Mem (base ^ exponent % mod)` claims and the equation
      `a ^ x + b = c ^ y` talk about the same terms: `left` is the a-side,
      `right` the c-side, and both use one modulus, at least 1. */
  predicate SidesAgree(left: PowModMember, right: PowModMember, eq: PowSum)
  {
    left.base >= 2 && eq.b >= 1 && right.base >= 2 &&
    eq.a == left.base && eq.c == right.base && left.mod == right.mod &&
    eq.x == left.exponent && eq.y == right.exponent && left.mod >= 1 && right.mod >= 1
  }

  /** `compute_mod_add`: from `List.Mem (a ^ x % mod) [values]` and
      `a ^ x + b = c ^ y` accepts `List.Mem (c ^ y % mod) [results]` exactly
      when the results are the values shifted by +b modulo mod. */
  function ComputeModAdd(prop: Option<PowModMember>, factCount: nat, facts: Option<ComputeFacts>): (verdict: bool)
    ensures verdict <==>
      prop.Some? && ParseValueList(prop.value.valuesText).Some? &&
      factCount == 2 && facts.Some? && ParseValueList(facts.value.member.valuesText).Some? &&
      SidesAgree(facts.value.member, prop.value, facts.value.equation) &&
      ShiftedResidues(ParseValueList(prop.value.valuesText).value,
                      ParseValueList(facts.value.member.valuesText).value,
                      facts.value.equation.b, prop.value.mod)
  {
    if prop.None? then false
    else
      var c, y, mod := prop.value.base, prop.value.exponent, prop.value.mod;
      var resultValues := ParseValueList(prop.value.valuesText);
      if resultValues.None? || factCount != 2 || facts.None? then false
      else
        var m, e := facts.value.member, facts.value.equation;
        var a, x, mod2 := m.base, m.exponent, m.mod;
        var values := ParseValueList(m.valuesText);
        if values.None? then false
        else if a < 2 || e.b < 1 || c < 2 then false
        else if e.a != a || e.c != c || mod2 != mod then false
        else if e.x != x || e.y != y then false
        else if mod < 1 then false
        else ShiftedMatches(resultValues.value, values.value, e.b, mod)
  }

  /** The shift `compute_mod_sub` applies: subtracting b. */
  function Negated(b: nat): int { -(b as int) }

  /** `compute_mod_sub`: from `List.Mem (c ^ y % mod) [values]` and
      `a ^ x + b = c ^ y` accepts `List.Mem (a ^ x % mod) [results]` exactly
      when the results are the values shifted by -b modulo mod. */
  function ComputeModSub(prop: Option<PowModMember>, factCount: nat, facts: Option<ComputeFacts>): (verdict: bool)
    ensures verdict <==>
      prop.Some? && ParseValueList(prop.value.valuesText).Some? &&
      factCount == 2 && facts.Some? && ParseValueList(facts.value.member.valuesText).Some? &&
      SidesAgree(prop.value, facts.value.member, facts.value.equation) &&
      ShiftedResidues(ParseValueList(prop.value.valuesText).value,
                      ParseValueList(facts.value.member.valuesText).value,
                      Negated(facts.value.equation.b), prop.value.mod)
  {
    if prop.None? then false
    else
      var a, x, mod := prop.value.base, prop.value.exponent, prop.value.mod;
      var resultValues := ParseValueList(prop.value.valuesText);
      if resultValues.None? || factCount != 2 || facts.None? then false
      else
        var m, e := facts.value.member, facts.value.equation;
        var c, y, mod2 := m.base, m.exponent, m.mod;
        var values := ParseValueList(m.valuesText);
        if values.None? then false
        else if a < 2 || e.b < 1 || c < 2 then false
        else if e.a != a || e.c != c || mod2 != mod then false
        else if e.x != x || e.y != y then false
        else if mod < 1 then false
        else ShiftedMatches(resultValues.value, values.value, Negated(e.b), mod)
  }

  /** What an accepted `compute_mod_add` claim promises: whenever a^X + b = c^Y
      and a^X leaves a listed residue, c^Y leaves a claimed one. */
  lemma AddClaimHolds(a: int, b: int, c: int, mod: int, given: seq<nat>, claimed: seq<nat>, X: nat, Y: nat)
    requires mod >= 1 && ShiftedResidues(claimed, given, b, mod)
    requires Pow(a, X) % mod in given && Pow(a, X) + b == Pow(c, Y)
    ensures Pow(c, Y) % mod in claimed
  {
    AddModLeft(Pow(a, X), b, mod);
    var v := Pow(a, X) % mod;
    assert Pow(c, Y) % mod == (v + b) % mod;
  }

  /** What an accepted `compute_mod_sub` claim promises: whenever a^X + b = c^Y
      and c^Y leaves a listed residue, a^X leaves a claimed one. */
  lemma SubClaimHolds(a: int, b: int, c: int, mod: int, given: seq<nat>, claimed: seq<nat>, X: nat, Y: nat)
    requires mod >= 1 && ShiftedResidues(claimed, given, -b, mod)
    requires Pow(c, Y) % mod in given && Pow(a, X) + b == Pow(c, Y)
    ensures Pow(a, X) % mod in claimed
  {
    AddModLeft(Pow(c, Y), -b, mod);
    var v := Pow(c, Y) % mod;
    assert Pow(a, X) % mod == (v + -b) % mod;
  }

  // ------------------------------------------- diophantine1_*_enumeration

  /** The pair claim holds: the literal "False" says no pair within the bounds
      solves the equation; `List.Mem (x, y) [pairs]` over the same variables
      says the pairs are exactly the solutions within the bounds. The pattern
      for the list needs at least one pair, so `List.Mem (x, y) []` does not
      match and is rejected like any other text. */
  ghost predicate PairsClaimHolds(prop: Claim<PairsMember>, x: string, y: string,
                                  a: int, b: int, c: int, xMax: Option<int>, yMax: Option<int>)
  {
    match prop
    case Unmatched => false
    case FalseLiteral => ListsExactly([], a, b, c, xMax, yMax)
    case Matches(g) => |g.pairs| >= 1 && g.x5 == x && g.y5 == y && ListsExactly(g.pairs, a, b, c, xMax, yMax)
  }

  /** The first five facts: x and y are positive integers and the equation
      `a ^ x + b = c ^ y` is about them, with a >= 2, b >= 1, c >= 2. */
  predicate HeaderAgrees<B>(f: EnumerationFacts<B>)
  {
    f.x2 == f.x && f.equation.x == f.x && f.y2 == f.y && f.equation.y == f.y &&
    f.equation.a >= 2 && f.equation.b >= 1 && f.equation.c >= 2
  }

  /** Compare the claimed pairs (none for "False") with the enumerated solutions. */
  method DecidePairs(prop: Claim<PairsMember>, x: string, y: string,
                     a: int, b: int, c: int, xMax: Option<int>, yMax: Option<int>) returns (verdict: bool)
    requires ExhaustDefined(a, b, c, xMax, yMax)
    ensures verdict <==> PairsClaimHolds(prop, x, y, a, b, c, xMax, yMax)
  {
    var trueSolutions := ExhaustDiophantine1(a, b, c, xMax, yMax);
    var solutions: seq<(int, int)>;
    match prop {
      case Unmatched =>
        return false;
      case FalseLiteral =>
        solutions := [];
      case Matches(g) =>
        if |g.pairs| == 0 { return false; }
        if g.x5 != x || g.y5 != y { return false; }
        solutions := g.pairs;
    }
    verdict := SameElements(solutions, trueSolutions.value);
    SameAsListed(solutions, trueSolutions.value, a, b, c, xMax, yMax);
  }

  /** A list has the same elements as the exact solution list exactly when it
      is an exact solution list itself. */
  lemma SameAsListed(solutions: seq<(int, int)>, listed: seq<(int, int)>,
                     a: int, b: int, c: int, xMax: Option<int>, yMax: Option<int>)
    requires ListsExactly(listed, a, b, c, xMax, yMax)
    ensures (forall v :: v in solutions <==> v in listed) <==> ListsExactly(solutions, a, b, c, xMax, yMax)
  {
    if ListsExactly(solutions, a, b, c, xMax, yMax) {
      forall v | true ensures v in solutions <==> v in listed {
        var (p, q) := v;
        assert (p, q) in solutions <==> IsSolution(a, b, c, p, q) && InBounds(p, q, xMax, yMax);
      }
    }
  }

  /** `diophantine1_double_enumeration`: with `Or (x <= x_max) (y <= y_max)`,
      accepts the claim exactly when it lists the solutions with x <= x_max
      or y <= y_max. */
  method DoubleEnumeration(prop: Claim<PairsMember>, factCount: nat, facts: Option<EnumerationFacts<EitherBound>>)
    returns (verdict: bool)
    ensures verdict <==>
      factCount == 6 && facts.Some? && HeaderAgrees(facts.value) &&
      facts.value.bound.x4 == facts.value.x && facts.value.bound.y4 == facts.value.y &&
      PairsClaimHolds(prop, facts.value.x, facts.value.y,
                      facts.value.equation.a, facts.value.equation.b, facts.value.equation.c,
                      Some(facts.value.bound.xMax), Some(facts.value.bound.yMax))
  {
    if factCount != 6 || facts.None? { return false; }
    var f := facts.value;
    var e := f.equation;
    if f.x2 != f.x || e.x != f.x || f.bound.x4 != f.x { return false; }
    if f.y2 != f.y || e.y != f.y || f.bound.y4 != f.y { return false; }
    if e.a < 2 || e.b < 1 || e.c < 2 { return false; }
    // x_max and y_max are digit groups: never negative
    verdict := DecidePairs(prop, f.x, f.y, e.a, e.b, e.c, Some(f.bound.xMax), Some(f.bound.yMax));
  }

  /** `diophantine1_front_enumeration`: with `x <= x_max`, accepts the claim
      exactly when it lists the solutions with x <= x_max. */
  method FrontEnumeration(prop: Claim<PairsMember>, factCount: nat, facts: Option<EnumerationFacts<Bound>>)
    returns (verdict: bool)
    ensures verdict <==>
      factCount == 6 && facts.Some? && HeaderAgrees(facts.value) && facts.value.bound.ident == facts.value.x &&
      PairsClaimHolds(prop, facts.value.x, facts.value.y,
                      facts.value.equation.a, facts.value.equation.b, facts.value.equation.c,
                      Some(facts.value.bound.max), None)
  {
    if factCount != 6 || facts.None? { return false; }
    var f := facts.value;
    var e := f.equation;
    if f.x2 != f.x || e.x != f.x || f.bound.ident != f.x { return false; }
    if f.y2 != f.y || e.y != f.y { return false; }
    if e.a < 2 || e.b < 1 || e.c < 2 { return false; }
    verdict := DecidePairs(prop, f.x, f.y, e.a, e.b, e.c, Some(f.bound.max), None);
  }

  /** `diophantine1_back_enumeration`: with `y <= y_max`, accepts the claim
      exactly when it lists the solutions with y <= y_max. */
  method BackEnumeration(prop: Claim<PairsMember>, factCount: nat, facts: Option<EnumerationFacts<Bound>>)
    returns (verdict: bool)
    ensures verdict <==>
      factCount == 6 && facts.Some? && HeaderAgrees(facts.value) && facts.value.bound.ident == facts.value.y &&
      PairsClaimHolds(prop, facts.value.x, facts.value.y,
                      facts.value.equation.a, facts.value.equation.b, facts.value.equation.c,
                      None, Some(facts.value.bound.max))
  {
    if factCount != 6 || facts.None? { return false; }
    var f := facts.value;
    var e := f.equation;
    if f.x2 != f.x || e.x != f.x { return false; }
    if f.y2 != f.y || e.y != f.y || f.bound.ident != f.y { return false; }
    if e.a < 2 || e.b < 1 || e.c < 2 { return false; }
    verdict := DecidePairs(prop, f.x, f.y, e.a, e.b, e.c, None, Some(f.bound.max));
  }
}
