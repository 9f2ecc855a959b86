/** What the revalidators' regular expressions extract. A revalidator gets a
    proposition and a list of verified facts as text; the facts are joined
    with ", " and matched against one pattern. The model takes the outcome of
    each match as a record of its groups: `\d+` groups are naturals, `\w+`
    groups identifiers, and the `[\d\s,]+` list group stays text (see
    ValueList). A match that fails is `None`. */
module ParsedClaims {

  /** A proposition that matched its pattern, or is exactly the text
      "False" (which no pattern matches), or is neither. */
  datatype Claim<G> = Matches(groups: G) | FalseLiteral | Unmatched

  /** `<base> ^ <ident> % <mod> = 0` */
  datatype PowModZero = PowModZero(base: nat, ident: string, mod: nat)

  /** `<ident2> % 1 = 0, <ident3> >= <min_value>`: an integer exponent from some minimum on. */
  datatype IntegerAtLeast = IntegerAtLeast(ident2: string, ident3: string, minValue: nat)

  /** `<pow> % 1 = 0, <pow2> >= 1, <base> ^ <pow3> % <mod> = <res>` */
  datatype ObserveFacts = ObserveFacts(pow: string, pow2: string, base: nat, pow3: string, mod: nat, res: nat)

  /** `<pow4> % <repetend> = <position>` */
  datatype ExponentResidue = ExponentResidue(pow4: string, repetend: nat, position: nat)

  /** `<pow> % 1 = 0, <pow2> >= 1, <pow3> % <period> = <position>` */
  datatype UtilizeFacts = UtilizeFacts(pow: string, pow2: string, pow3: string, period: nat, position: nat)

  /** `List.Mem (<base> ^ <exponent> % <mod>) [<values>]` */
  datatype PowModMember = PowModMember(base: nat, exponent: string, mod: nat, valuesText: string)

  /** `<pow> % 1 = 0, <pow2> >= 1, List.Mem (<base> ^ <pow3> % <mod>) [<values>]` */
  datatype ExhaustFacts = ExhaustFacts(pow: string, pow2: string, member: PowModMember)

  /** `<a> ^ <x> + <b> = <c> ^ <y>` */
  datatype PowSum = PowSum(a: nat, x: string, b: nat, c: nat, y: string)

  /** `List.Mem (<base> ^ <exponent> % <mod>) [<values>], <a> ^ <x> + <b> = <c> ^ <y>` */
  datatype ComputeFacts = ComputeFacts(member: PowModMember, equation: PowSum)

  /** `<x> % 1 = 0, <x2> >= 1, <y> % 1 = 0, <y2> >= 1, <a> ^ <x3> + <b> = <c> ^ <y3>, <bound>` */
  datatype EnumerationFacts<B> = EnumerationFacts(x: string, x2: string, y: string, y2: string, equation: PowSum, bound: B)

  /** `Or (<x4> <= <x_max>) (<y4> <= <y_max>)` */
  datatype EitherBound = EitherBound(x4: string, xMax: nat, y4: string, yMax: nat)

  /** `<ident> <= <max>` */
  datatype Bound = Bound(ident: string, max: nat)

  /** `List.Mem (<x5>, <y5>) [(<x>, <y>), ..., (<x>, <y>)]` with the pairs read out. */
  datatype PairsMember = PairsMember(x5: string, y5: string, pairs: seq<(int, int)>)
}
