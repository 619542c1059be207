/** The comparison operators of `SuperLong`: signs first, then `abscmp`. */
module Compare {
  import opened Limbs
  import opened Representation
  import opened Construct
  import opened Additive

  /** `operator==`: equal signs and equal limb vectors; the length test before it is redundant. */
  function Eq(x: SuperLong, y: SuperLong): (r: bool)
    ensures r <==> x == y
  {
    if x.sign != y.sign then false
    else if |x.digits| != |y.digits| then false
    else x.digits == y.digits
  }

  /** What `<` relies on for canonical operands: `abscmp` by value, and a negative sign means a non-zero magnitude. */
  lemma CanonicalOrder(x: SuperLong, y: SuperLong)
    ensures Canonical(x) && Canonical(y) ==> AbsCmp(x, y) == Sgn(Val(x.digits) - Val(y.digits))
    ensures Canonical(x) && x.sign == Negative ==> Val(x.digits) > 0
  {
    if Canonical(x) && Canonical(y) {
      AbsCmpByValue(x, y);
    }
    if Canonical(x) && x.sign == Negative {
      NormalisedNonZero(x.digits);
    }
  }

  /** `operator<`: differing signs decide by the sign of `this`; otherwise `abscmp`, reversed for negatives. */
  function Less(x: SuperLong, y: SuperLong): (r: bool)
    ensures Canonical(x) && Canonical(y) ==> (r <==> ToInt(x) < ToInt(y))
  {
    CanonicalOrder(x, y);
    CanonicalOrder(y, x);
    if x.sign != y.sign then x.sign == Negative
    else
      var cmp := AbsCmp(x, y);
      if x.sign == Positive then cmp < 0 else cmp > 0
  }

  /** Two canonical values with one integer are identical, so `==` holds between them. */
  lemma EqByValue(x: SuperLong, y: SuperLong)
    ensures Canonical(x) && Canonical(y) && ToInt(x) == ToInt(y) ==> x == y
  {
    if Canonical(x) && Canonical(y) && ToInt(x) == ToInt(y) {
      CanonicalUnique(x, y);
    }
  }

  /** `operator<=`: `<` or `==`. */
  function LessEq(x: SuperLong, y: SuperLong): (r: bool)
    ensures Canonical(x) && Canonical(y) ==> (r <==> ToInt(x) <= ToInt(y))
  {
    EqByValue(x, y);
    Less(x, y) || Eq(x, y)
  }

  /** `operator>`: not `<=`. */
  function Greater(x: SuperLong, y: SuperLong): (r: bool)
    ensures Canonical(x) && Canonical(y) ==> (r <==> ToInt(x) > ToInt(y))
  {
    !LessEq(x, y)
  }

  /** `operator>=`: not `<`. */
  function GreaterEq(x: SuperLong, y: SuperLong): (r: bool)
    ensures Canonical(x) && Canonical(y) ==> (r <==> ToInt(x) >= ToInt(y))
  {
    !Less(x, y)
  }

  /** `operator!=`: not `==`. */
  function NotEq(x: SuperLong, y: SuperLong): (r: bool)
    ensures r <==> x != y
  {
    !Eq(x, y)
  }

  /**
   * For every pair of values, the Negative zero included, exactly one of
   * `<`, `==` and `>` holds: `>` is neither `<` nor `==`, and `<` is
   * irreflexive.
   */
  lemma Trichotomy(x: SuperLong, y: SuperLong)
    ensures (Less(x, y) && !Eq(x, y) && !Greater(x, y))
         || (!Less(x, y) && Eq(x, y) && !Greater(x, y))
         || (!Less(x, y) && !Eq(x, y) && Greater(x, y))
  {
    LessIrreflexive(x);
  }

  /** No value is below itself, canonical or not. */
  lemma LessIrreflexive(x: SuperLong)
    ensures !Less(x, x)
  {
  }

  /** `<` compares signs before magnitudes, so a negated zero is below canonical zero and differs from it. */
  lemma NegativeZeroBelowZero()
    ensures Less(Negated(Zero()), Zero()) && NotEq(Negated(Zero()), Zero())
    ensures ToInt(Negated(Zero())) == ToInt(Zero())
  {
    ValSingle(0);
  }
}
