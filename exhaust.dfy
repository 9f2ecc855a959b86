/** `_exhaust_diophantine1` in diophantine1/revalidators.py: every pair of
    positive exponents (x, y) with a^x + b = c^y inside the given bounds,
    found by walking the increasing sequences a^x and c^y with two pointers. */
module Diophantine1Exhaust {
  import opened Wrappers
  import opened NumberTheory

  /** (x, y) is a solution of a^x + b = c^y in positive exponents. */
  predicate IsSolution(a: int, b: int, c: int, x: int, y: int)
  {
    x >= 1 && y >= 1 && Pow(a, x) + b == Pow(c, y)
  }

  /** The bound region: a missing bound is Python's None. With both bounds
      a pair is inside when either exponent is within its bound. This is
      also the condition under which the helper's loop keeps going. */
  predicate InBounds(x: int, y: int, xMax: Option<int>, yMax: Option<int>)
  {
    match (xMax, yMax)
    case (Some(xm), Some(ym)) => x <= xm || y <= ym
    case (None, Some(ym)) => y <= ym
    case (Some(xm), None) => x <= xm
    case (None, None) => false
  }

  /** The helper raises ValueError unless this holds. */
  predicate ExhaustDefined(a: int, b: int, c: int, xMax: Option<int>, yMax: Option<int>)
  {
    (xMax.Some? || yMax.Some?) &&
    (xMax.Some? ==> xMax.value >= 0) &&
    (yMax.Some? ==> yMax.value >= 0) &&
    a >= 2 && b >= 1 && c >= 2
  }

  /** `pairs` holds exactly the solutions inside the bounds. */
  ghost predicate ListsExactly(pairs: seq<(int, int)>, a: int, b: int, c: int, xMax: Option<int>, yMax: Option<int>)
  {
    forall x, y :: (x, y) in pairs <==> IsSolution(a, b, c, x, y) && InBounds(x, y, xMax, yMax)
  }

  /** `_exhaust_diophantine1(a, b, c, x_max, y_max)`; None where it raises. */
  method ExhaustDiophantine1(a: int, b: int, c: int, xMax: Option<int>, yMax: Option<int>)
    returns (r: Option<seq<(int, int)>>)
    ensures r.None? <==> !ExhaustDefined(a, b, c, xMax, yMax)
    ensures r.Some? ==> ListsExactly(r.value, a, b, c, xMax, yMax)
    ensures r.Some? ==> forall k, l :: 0 <= k < l < |r.value| ==> r.value[k].0 < r.value[l].0
  {
    if xMax.None? && yMax.None? { return None; }
    if xMax.Some? && xMax.value < 0 { return None; }
    if yMax.Some? && yMax.value < 0 { return None; }
    if a < 2 || b < 1 || c < 2 { return None; }

    var result: seq<(int, int)> := [];
    var currentA, currentC := a, c;
    var currentX, currentY := 1, 1;
    ghost var yBound := YBound(a, b, xMax, yMax);
    ghost var xBound := Pow(c, yBound);
    PowPositive(c, yBound);
    while InBounds(currentX, currentY, xMax, yMax)
      invariant 1 <= currentX <= xBound && 1 <= currentY <= yBound
      invariant currentA == Pow(a, currentX) && currentC == Pow(c, currentY)
      invariant forall k :: 0 <= k < |result| ==>
        IsSolution(a, b, c, result[k].0, result[k].1) && InBounds(result[k].0, result[k].1, xMax, yMax) &&
        result[k].0 < currentX
      invariant forall k, l :: 0 <= k < l < |result| ==> result[k].0 < result[l].0
      invariant forall x, y :: IsSolution(a, b, c, x, y) && (x < currentX || y < currentY) ==> (x, y) in result
      decreases (xBound - currentX) + (yBound - currentY)
    {
      PowGrows(a, currentX);
      PowGrows(c, currentY);
      if currentA + b == currentC {
        ColumnHasOneSolution(a, b, c, currentX, currentY);
        result := result + [(currentX, currentY)];
        XStepStaysBounded(a, b, c, currentX, currentY, yBound);
        currentA := currentA * a; currentX := currentX + 1;
      } else if currentA + b < currentC {
        ColumnHasNoSolution(a, b, c, currentX, currentY);
        XStepStaysBounded(a, b, c, currentX, currentY, yBound);
        currentA := currentA * a; currentX := currentX + 1;
      } else {
        RowHasNoSolution(a, b, c, currentX, currentY);
        YStepStaysBounded(a, b, c, currentX, currentY, xMax, yMax);
        currentC := currentC * c; currentY := currentY + 1;
      }
    }
    return Some(result);
  }

  /** An upper bound on the y pointer: while x is within x_max, c^y stays
      below a^x_max + b; otherwise y is within y_max. */
  function YBound(a: int, b: int, xMax: Option<int>, yMax: Option<int>): (bound: nat)
    requires a >= 2 && b >= 1
    requires xMax.Some? ==> xMax.value >= 0
    requires yMax.Some? ==> yMax.value >= 0
    ensures xMax.Some? || yMax.Some? ==> bound >= 1
  {
    var fromX := if xMax.Some? then Pow(a, xMax.value) + b else 0;
    var fromY := if yMax.Some? then yMax.value + 1 else 0;
    PowPositive(a, if xMax.Some? then xMax.value else 0);
    if fromX < fromY then fromY else fromX
  }

  // ------------------------------------------------------- helper lemmas

  /** Powers of a base of at least 2 are injective and monotone. */
  lemma PowOrder(c: int, y: nat, y': nat)
    requires c >= 2
    ensures Pow(c, y) == Pow(c, y') <==> y == y'
    ensures Pow(c, y) < Pow(c, y') <==> y < y'
  {
    if y < y' { PowStrictlyIncreasing(c, y, y'); }
    if y' < y { PowStrictlyIncreasing(c, y', y); }
  }

  /** With a^x + b = c^y, (x, y) is the only solution whose first exponent is x. */
  lemma ColumnHasOneSolution(a: int, b: int, c: int, x: nat, y: nat)
    requires a >= 2 && c >= 2 && Pow(a, x) + b == Pow(c, y)
    ensures forall y' :: IsSolution(a, b, c, x, y') ==> y' == y
  {
    forall y' | IsSolution(a, b, c, x, y') ensures y' == y {
      PowOrder(c, y, y');
    }
  }

  /** With a^x + b < c^y, no solution has first exponent x and second at least y. */
  lemma ColumnHasNoSolution(a: int, b: int, c: int, x: nat, y: nat)
    requires a >= 2 && c >= 2 && Pow(a, x) + b < Pow(c, y)
    ensures forall y' :: y' >= y ==> !IsSolution(a, b, c, x, y')
  {
    forall y' | y' >= y && IsSolution(a, b, c, x, y') ensures false {
      PowOrder(c, y, y');
    }
  }

  /** With a^x + b > c^y, no solution has second exponent y and first at least x. */
  lemma RowHasNoSolution(a: int, b: int, c: int, x: nat, y: nat)
    requires a >= 2 && c >= 2 && Pow(a, x) + b > Pow(c, y)
    ensures forall x' :: x' >= x ==> !IsSolution(a, b, c, x', y)
  {
    forall x' | x' >= x && IsSolution(a, b, c, x', y) ensures false {
      PowOrder(a, x, x');
    }
  }

  /** Advancing x keeps it within c^YBound. */
  lemma XStepStaysBounded(a: int, b: int, c: int, x: nat, y: nat, yBound: nat)
    requires a >= 2 && b >= 1 && c >= 2 && y <= yBound
    requires Pow(a, x) + b <= Pow(c, y)
    ensures x + 1 <= Pow(c, yBound)
  {
    PowGrows(a, x);
    PowOrder(c, y, yBound);
  }

  /** Advancing y keeps it within YBound. */
  lemma YStepStaysBounded(a: int, b: int, c: int, x: nat, y: nat, xMax: Option<int>, yMax: Option<int>)
    requires ExhaustDefined(a, b, c, xMax, yMax) && InBounds(x, y, xMax, yMax)
    requires Pow(a, x) + b > Pow(c, y)
    ensures y + 1 <= YBound(a, b, xMax, yMax)
  {
    PowGrows(c, y);
    if xMax.Some? && x <= xMax.value {
      if x < xMax.value { PowStrictlyIncreasing(a, x, xMax.value); }
    }
  }
}
