# Revalidators for a^x + b = c^y, and a sliding-window extremum

This project models two pieces of the pywheels test suite.

The first piece is the set of revalidators for the equation family
`a ^ x + b = c ^ y` (diophantine1). A revalidator receives one proposition and
a list of facts that a prover has already verified. It answers whether the
proposition follows from those facts, and it does so by recomputing the
answer independently:

- the multiplicative cycle of `base` modulo `mod`, built by
  `_get_modular_multiplicative_cycle`;
- the complete list of solutions within a bound, built by the two-pointer
  search `_exhaust_diophantine1`;
- plain modular arithmetic.

All nine revalidators are modelled, together with the one revalidator the
transcendental variant implements.

The second piece is the reference implementation
`sliding_window_best_plain_and_trusted`. For every window of consecutive
items it returns the item with the greatest (or smallest) key, choosing
exactly the item that Python's `max` / `min` would choose.

## How the model is organised

The modules follow the structure of the program:

- `Wrappers` holds `Option`. `None` stands for a `ValueError` raised by a
  helper.
- `NumberTheory` holds `Pow`, `Gcd` (Euclid), Bezout coefficients, and the
  modular facts the proofs need.
- `ModCycle` models the cycle helper. It is a method with the source's
  `while True` loop, its `cycle` list and its `seen` dictionary. Its contract
  pins the result down completely:
  - `cycle[i]` is `base^i % mod`;
  - `seen` inverts `cycle`;
  - the cycle length is the multiplicative order.

  Lemmas then show what the cycle means for every exponent.
- `Diophantine1Exhaust` models the solution search. It is a method with the
  source's two-pointer loop. Its contract states that the result lists
  exactly the solutions `(x, y)` with `x, y >= 1` inside the bound, in
  increasing `x`.
- `ValueList` models the comma list `[int(s.strip()) for s in text.split(",") if s.strip()]`,
  including the failing `int()`. It also proves a format/parse round trip.
- `ParsedClaims` holds the outcome of each regular-expression match as a
  record of its groups. A proposition is `Matches(groups)`, the literal
  `"False"`, or `Unmatched`.
- `Diophantine1Revalidators` holds the nine revalidators. Each contract says
  when the verdict is true, stated as the mathematical claim the
  proposition makes, not as the recomputation. For `compute_mod_add` and
  `compute_mod_sub` the contract is the set the recomputed residues must
  equal, `{(v ± b) % mod}` over the listed `v`, written with quantifiers;
  what that promises for every pair of exponents is stated by the lemmas
  `AddClaimHolds` and `SubClaimHolds`.
- `TranscendentalDiophantine1` holds the transcendental `pow_mod_eq_zero`.
- `MonotonicQueue` holds the sliding window.

Several mathematical readings are proved. For example:

- `"False"` is accepted for `base ^ pow % mod = res` exactly when no positive
  power of `base` leaves `res`.
- `pow % repetend = position` is accepted exactly when `repetend` is the
  multiplicative order and `base^position` leaves `res`.
- The `List.Mem` claim of `utilize_mod_cycle` is accepted exactly when the
  listed values are the remainders of `base^n` over all `n` congruent to
  `position` modulo `gcd(period, order)`.

Each such reading has a lemma stating the promise it gives for every
exponent.

## Model

| member | source | states |
|---|---|---|
| ModCycle.GetModularMultiplicativeCycle | blueprints-test/colean/revalidate_testcases/diophantine1/revalidators.py:22-39 | None exactly when base < 1, mod < 2 or gcd(base, mod) != 1 (the ValueError); otherwise cycle[i] = base^i % mod for every index, seen maps each entry back to its index, the length is the multiplicative order of base (least L >= 1 with base^L % mod = 1) and at most mod - 1 |
| ModCycle.PowPeriodic | blueprints-test/colean/revalidate_testcases/diophantine1/revalidators.py:32-35 | once base^L leaves 1, base^n and base^(n % L) leave the same remainder for every n |
| ModCycle.PowerInCycle | blueprints-test/colean/revalidate_testcases/diophantine1/revalidators.py:22-39 | every power base^n, reduced modulo mod, is the cycle entry at n modulo the cycle length |
| ModCycle.InCycleIffPower | blueprints-test/colean/revalidate_testcases/diophantine1/revalidators.py:29-36 | a value is a key of seen exactly when some positive power of base leaves it |
| ModCycle.PowerPosition | blueprints-test/colean/revalidate_testcases/diophantine1/revalidators.py:29-36 | base^n leaves cycle[p] exactly when n is congruent to p modulo the cycle length |
| ModCycle.PowersBelowOrderDistinct | blueprints-test/colean/revalidate_testcases/diophantine1/revalidators.py:32-36 | exponents below the order give pairwise different remainders, so the loop stops only when it returns to 1 |
| ModCycle.OrderUnique | blueprints-test/colean/revalidate_testcases/diophantine1/revalidators.py:32-37 | the multiplicative order is unique |
| Diophantine1Exhaust.ExhaustDiophantine1 | blueprints-test/colean/revalidate_testcases/diophantine1/revalidators.py:42-70 | None exactly on the four ValueError conditions; otherwise the result contains exactly the pairs (x, y), x, y >= 1, with a^x + b = c^y inside the bound (x <= x_max or y <= y_max when both are given, the given one otherwise), in strictly increasing x |
| ValueList.Split | blueprints-test/colean/revalidate_testcases/diophantine1/revalidators.py:287 | str.split(","): at least one piece and no piece contains a comma |
| ValueList.JoinSplit | blueprints-test/colean/revalidate_testcases/diophantine1/revalidators.py:287 | joining the pieces of split with commas gives the text back |
| ValueList.Strip | blueprints-test/colean/revalidate_testcases/diophantine1/revalidators.py:287 | str.strip(): no longer than the text, and the result neither starts nor ends with whitespace |
| ValueList.StripKeepsMiddle | blueprints-test/colean/revalidate_testcases/diophantine1/revalidators.py:287 | str.strip() removes only leading and trailing whitespace: the text is blanks, then the result as an unchanged slice, then blanks |
| ValueList.ParseInt | blueprints-test/colean/revalidate_testcases/diophantine1/revalidators.py:287 | int() of a piece succeeds exactly when the piece is a non-empty run of digits |
| ValueList.DecimalRoundTrip | blueprints-test/colean/revalidate_testcases/diophantine1/revalidators.py:287 | int() reads back the decimal spelling of every natural number |
| ValueList.NonBlank | blueprints-test/colean/revalidate_testcases/diophantine1/revalidators.py:287 | the `if s.strip()` filter keeps at most as many segments as there are pieces and never an empty one |
| ValueList.NonBlankMembers | blueprints-test/colean/revalidate_testcases/diophantine1/revalidators.py:287 | a segment is kept exactly when it is some piece, stripped, and not blank |
| ValueList.PiecesParse | blueprints-test/colean/revalidate_testcases/diophantine1/revalidators.py:287 | int() succeeds on every kept segment exactly when every piece is blank or a run of digits once stripped |
| ValueList.ParseAll | blueprints-test/colean/revalidate_testcases/diophantine1/revalidators.py:287 | the list comprehension succeeds exactly when every kept piece parses, and then yields each piece's value in order |
| ValueList.ParseValueList | blueprints-test/colean/revalidate_testcases/diophantine1/revalidators.py:287 | the whole comprehension raises exactly when some piece is neither blank nor a run of digits once stripped; otherwise it yields at most one value per piece |
| ValueList.FormatRoundTrip | blueprints-test/colean/revalidate_testcases/diophantine1/revalidators.py:229 | a list of naturals written as "v1, v2, ..." parses back to the same list |
| Diophantine1Revalidators.ZeroFromLeast | blueprints-test/colean/revalidate_testcases/diophantine1/revalidators.py:105 | base^min_value % mod = 0 holds exactly when base^n % mod = 0 for every n >= min_value, which is why checking the one exponent is enough |
| Diophantine1Revalidators.PowModEqZero | blueprints-test/colean/revalidate_testcases/diophantine1/revalidators.py:73-121 | accepts exactly when the patterns match, base >= 2, mod >= 2, there are two facts about the same identifier, min_value >= 1, and base^n % mod = 0 for every integer n >= min_value |
| Diophantine1Revalidators.ObserveModCycle | blueprints-test/colean/revalidate_testcases/diophantine1/revalidators.py:124-189 | accepts exactly when there are three facts about one exponent, base and mod are coprime, 0 <= res < mod, and either the claim is "False" and no positive power of base leaves res, or it is pow % repetend = position with repetend the multiplicative order, position < repetend and base^position % mod = res |
| Diophantine1Revalidators.AbsentIffNever | blueprints-test/colean/revalidate_testcases/diophantine1/revalidators.py:163 | res not in seen exactly when no positive power of base leaves res |
| Diophantine1Revalidators.PositionIffClaim | blueprints-test/colean/revalidate_testcases/diophantine1/revalidators.py:173 | repetend == len(cycle) and seen[res] == position exactly when repetend is the order and base^position leaves res |
| Diophantine1Revalidators.ObserveClaimHolds | blueprints-test/colean/revalidate_testcases/diophantine1/revalidators.py:170-173 | an accepted pow % repetend = position is true: every positive exponent whose power leaves res is congruent to position modulo repetend |
| Diophantine1Revalidators.SameElements | blueprints-test/colean/revalidate_testcases/diophantine1/revalidators.py:244 | set(xs) == set(ys) exactly when every value occurs in one list iff it occurs in the other |
| Diophantine1Revalidators.StridedIndexInCycle | blueprints-test/colean/revalidate_testcases/diophantine1/revalidators.py:239-242 | the index position % g + i * g stays inside the cycle for i < len(cycle) // g |
| Diophantine1Revalidators.StridedEntries | blueprints-test/colean/revalidate_testcases/diophantine1/revalidators.py:238-242 | builds true_values: len(cycle) // g entries, entry i being cycle[position % g + i * g], every index inside the cycle |
| Diophantine1Revalidators.SameAsClass | blueprints-test/colean/revalidate_testcases/diophantine1/revalidators.py:244 | when the strided entries are exactly the class's remainders, set(true_values) == set(values) holds exactly when the listed values are those remainders |
| Diophantine1Revalidators.StridedValuesAreClass | blueprints-test/colean/revalidate_testcases/diophantine1/revalidators.py:238-242 | the strided entries are exactly the remainders base^n % mod over the exponents n congruent to position modulo g |
| Diophantine1Revalidators.UtilizeModCycle | blueprints-test/colean/revalidate_testcases/diophantine1/revalidators.py:192-259 | accepts exactly when the facts and the List.Mem claim match and agree, 1 <= period, position < period, the list parses, base and mod are coprime, every value is below mod, and the values are exactly the remainders base^n % mod over all n congruent to position modulo gcd(period, multiplicative order) |
| Diophantine1Revalidators.UtilizeClaimHolds | blueprints-test/colean/revalidate_testcases/diophantine1/revalidators.py:236-244 | an accepted List.Mem claim is true: every exponent n with n % period = position gives a listed remainder |
| Diophantine1Revalidators.AbsentMeansNever | blueprints-test/colean/revalidate_testcases/diophantine1/revalidators.py:293-295 | no listed value is in seen exactly when no listed value is the remainder of a positive power of base |
| Diophantine1Revalidators.ExhaustModCycle | blueprints-test/colean/revalidate_testcases/diophantine1/revalidators.py:262-311 | accepts exactly when the claim is "False", the three facts match and agree, the list parses, base and mod are coprime, every value is below mod, and no positive power of base leaves any listed value |
| Diophantine1Revalidators.Shifted | blueprints-test/colean/revalidate_testcases/diophantine1/revalidators.py:356-359 | one shifted residue per value, in order: entry i is (values[i] + shift) % mod |
| Diophantine1Revalidators.ShiftedMembers | blueprints-test/colean/revalidate_testcases/diophantine1/revalidators.py:356-359 | r is in the shifted list exactly when r = (v + shift) % mod for some listed v |
| Diophantine1Revalidators.SameAsShifted | blueprints-test/colean/revalidate_testcases/diophantine1/revalidators.py:361 | the set comparison with the shifted list holds exactly when the claimed residues are the listed ones shifted |
| Diophantine1Revalidators.ShiftedMatches | blueprints-test/colean/revalidate_testcases/diophantine1/revalidators.py:356-361 | set(result_values) == set(true_result_values) holds exactly when every claimed residue is some listed value shifted and every shifted value is claimed |
| Diophantine1Revalidators.ComputeModAdd | blueprints-test/colean/revalidate_testcases/diophantine1/revalidators.py:314-377 | accepts exactly when both lists parse, there are two facts, the List.Mem fact is about a ^ x and the claim about c ^ y of the same equation (a, c >= 2, b >= 1, one modulus >= 1), and the claimed residues are exactly the listed ones plus b modulo mod |
| Diophantine1Revalidators.AddClaimHolds | blueprints-test/colean/revalidate_testcases/diophantine1/revalidators.py:356-361 | an accepted claim is true: whenever a^X + b = c^Y and a^X leaves a listed residue, c^Y leaves a claimed residue |
| Diophantine1Revalidators.ComputeModSub | blueprints-test/colean/revalidate_testcases/diophantine1/revalidators.py:380-443 | accepts exactly when both lists parse, there are two facts, the claim is about a ^ x and the List.Mem fact about c ^ y of the same equation (a, c >= 2, b >= 1, one modulus >= 1), and the claimed residues are exactly the listed ones minus b modulo mod (Python's non-negative %) |
| Diophantine1Revalidators.SubClaimHolds | blueprints-test/colean/revalidate_testcases/diophantine1/revalidators.py:422-427 | an accepted claim is true: whenever a^X + b = c^Y and c^Y leaves a listed residue, a^X leaves a claimed residue |
| Diophantine1Revalidators.SameAsListed | blueprints-test/colean/revalidate_testcases/diophantine1/revalidators.py:503 | a list of pairs has the same elements as the exact solution list exactly when it lists exactly the solutions itself |
| Diophantine1Revalidators.DecidePairs | blueprints-test/colean/revalidate_testcases/diophantine1/revalidators.py:481-505 | the verdict on the pair claim is true exactly when "False" is claimed and nothing solves the equation within the bound, or a non-empty List.Mem over the right variables lists exactly the solutions within the bound |
| Diophantine1Revalidators.DoubleEnumeration | blueprints-test/colean/revalidate_testcases/diophantine1/revalidators.py:446-519 | accepts exactly when there are six facts about one x and one y, a, c >= 2, b >= 1, and the claim lists exactly the solutions with x <= x_max or y <= y_max ("False": there are none) |
| Diophantine1Revalidators.FrontEnumeration | blueprints-test/colean/revalidate_testcases/diophantine1/revalidators.py:522-594 | accepts exactly when the six facts agree, and the claim lists exactly the solutions with x <= x_max |
| Diophantine1Revalidators.BackEnumeration | blueprints-test/colean/revalidate_testcases/diophantine1/revalidators.py:597-669 | accepts exactly when the six facts agree, and the claim lists exactly the solutions with y <= y_max |
| TranscendentalDiophantine1.PowModEqZero | blueprints-test/colean/revalidate_testcases/transcendental_diophantine1/revalidators.py:18-59 | the same verdict as the diophantine1 check: accepts exactly when base^n % mod = 0 for every integer n >= min_value, under the same pattern and identifier conditions |
| MonotonicQueue.BestIndex | algorithms_test/basic/monotonic_queue.py:161-164 | the scan max / min performs returns an index inside the window; BestIndexIsLeftmostBest says which one |
| MonotonicQueue.BestOf | algorithms_test/basic/monotonic_queue.py:161-164 | max / min with key returns one of the window's items |
| MonotonicQueue.BestIndexIsLeftmostBest | algorithms_test/basic/monotonic_queue.py:159-164 | for a key order that is a strict total order, max / min with key returns an item that no item of the window beats, and that strictly beats every item to its left (the first best) |
| MonotonicQueue.LeftmostBestUnique | algorithms_test/basic/monotonic_queue.py:159-164 | the first best item of a window is unique, so the left-to-right scan is the only answer |
| MonotonicQueue.SlidingWindowBest | algorithms_test/basic/monotonic_queue.py:148-168 | None (ValueError) exactly when window_size < 1; otherwise len(data) - window_size + 1 results (none when the window is longer than the data), result i being the max / min by key of data[i:i+window_size] |

## Left out

- Regular-expression matching: every pattern match is a record of its groups (`ParsedClaims`). The model does not check which texts match. It also leaves out the `", ".join` of the facts, and so the effect of a fact that itself contains ", ".
- Parsing of the pair list `(x, y), ...` in the enumeration claims: the pairs arrive already read out. The pattern's demand for at least one pair is kept.
- Unicode: Python's `\d`, `\s`, `str.strip()` and `int()` also accept non-ASCII digits and whitespace. The model accepts ASCII digits and the ASCII whitespace characters only.
- Checks that cannot fail on the modelled input: `res < 0`, `position < 0`, `value < 0`, `x_max < 0` and `y_max < 0` read digit groups, which are naturals here.
- `_verbose` logging, and the unconditional `print` in the transcendental `pow_mod_eq_zero`.
- The other eight transcendental revalidators. Each one waits on `input()` and returns True, so it is console I/O with no logic to model.
- Exceptions that are not part of the logic (memory, interruption) and the running time of large powers. In diophantine1 the `try` turns them into the verdict False; the transcendental `pow_mod_eq_zero` has no `try` and lets them propagate.
- ValueList.ParseInt: CPython's `int()` raises ValueError on a decimal string of more than 4300 digits (`sys.int_info.default_max_str_digits`, configurable per interpreter); the model reads digit runs of any length, so a list with such a value is accepted here where diophantine1 returns False. The regular-expression groups read as naturals in `ParsedClaims` have no digit limit either.
- TranscendentalDiophantine1.PowModEqZero: a numeral past that digit limit, or memory exhausted by `base ** min_value`, raises out of the function, since it has no `try`; the model returns a verdict for every input and does not model the exception.
- The library functions `sliding_window_greatest` / `sliding_window_smallest`, the unittest cases and the `main` entry point of monotonic_queue.py.
- MonotonicQueue.SlidingWindowBest: keys are compared through a `less` parameter. The lemmas about the chosen item assume `less` is a strict total order. Python comparisons that raise or are only partial are not modelled.
- MonotonicQueue.SlidingWindowBest: a negative window_size makes Python slice with a negative stop, and the scan raises ValueError once a slice is empty. The model returns None at once and does not describe which windows Python inspected first.
- The Ansatz engine and the revalidation driver that calls these functions are not part of this model.
