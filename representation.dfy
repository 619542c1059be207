/**
 * The value a `SuperLong` holds: a sign tag kept apart from a vector of
 * base-256 limbs, least-significant limb first, and the normalisation that
 * `removeLeadingZeros` performs on it.
 */
module Representation {
  import opened Limbs

  /** `enum class Sign`. The tag is independent of the limbs, so a Negative `[0]` is representable. */
  datatype Sign = Positive | Negative

  /** The fields `sign` and `digits` of one `SuperLong`, as a value. */
  datatype SuperLong = SuperLong(sign: Sign, digits: seq<Limb>)

  /** `n256plus` is `uint32_t`: every result computed in it is reduced modulo 2^32. */
  function Wrap32(x: int): (r: nat)
    ensures r < 0x1_0000_0000
    ensures 0 <= x < 0x1_0000_0000 ==> r == x
    ensures -0x1_0000_0000 <= x < 0 ==> r == x + 0x1_0000_0000
  {
    x % 0x1_0000_0000
  }

  /** What the default constructor builds: Positive `[0]`. */
  function Zero(): SuperLong
  {
    SuperLong(Positive, [0])
  }

  /** `isZero`: exactly one limb, and it is 0. The sign is not looked at. */
  predicate IsZero(x: SuperLong)
    ensures IsZero(x) ==> Val(x.digits) == 0
  {
    |x.digits| == 1 && x.digits[0] == 0
  }

  /** `isNegative`: reads the sign tag only. */
  predicate IsNegative(x: SuperLong)
    ensures IsNegative(x) <==> !IsPositive(x)
    ensures IsNegative(x) ==> ToInt(x) <= 0
  {
    x.sign == Negative
  }

  /** `isPositive`: reads the sign tag only. */
  predicate IsPositive(x: SuperLong)
    ensures IsPositive(x) ==> ToInt(x) >= 0
  {
    x.sign == Positive
  }

  function Flip(s: Sign): Sign
  {
    if s == Positive then Negative else Positive
  }

  /** The value after `negate`: the sign flipped, whatever the limbs. */
  function Negated(x: SuperLong): (r: SuperLong)
    ensures r.digits == x.digits && r.sign != x.sign
  {
    x.(sign := Flip(x.sign))
  }

  /** At least one limb and no zero limb on top, except for the single limb `[0]`. */
  predicate Normalised(ds: seq<Limb>)
  {
    |ds| >= 1 && (ds[|ds| - 1] == 0 ==> |ds| == 1)
  }

  /** The unique encoding of an integer: normalised limbs, and zero is Positive. */
  predicate Canonical(x: SuperLong)
  {
    Normalised(x.digits) && (IsZero(x) ==> x.sign == Positive)
  }

  /** The integer a value stands for. A Negative `[0]` stands for 0. */
  function ToInt(x: SuperLong): int
  {
    var m: int := Val(x.digits);
    if x.sign == Negative then -m else m
  }

  /** The limbs left by the loop of `removeLeadingZeros`: top zero limbs popped while more than one remains. */
  function TrimDigits(ds: seq<Limb>): (r: seq<Limb>)
    ensures |r| <= |ds| && r == ds[..|r|]
    ensures |ds| >= 1 ==> |r| >= 1
    ensures forall i :: |r| <= i < |ds| ==> ds[i] == 0
    ensures |r| <= 1 || r[|r| - 1] != 0
    ensures Val(r) == Val(ds)
  {
    if |ds| > 1 && ds[|ds| - 1] == 0 then
      var r := TrimDigits(ds[..|ds| - 1]);
      assert ds == ds[..|ds| - 1] + [0];
      ValSnoc(ds[..|ds| - 1], 0);
      r
    else
      ds
  }

  /** `removeLeadingZeros`: trim the limbs, then set Positive when the limbs are `[0]`. */
  function Trim(x: SuperLong): (r: SuperLong)
    ensures |r.digits| <= |x.digits| && r.digits == x.digits[..|r.digits|]
    ensures Val(r.digits) == Val(x.digits)
    ensures r.sign == x.sign || (IsZero(r) && r.sign == Positive)
  {
    var ds := TrimDigits(x.digits);
    SuperLong(if |ds| == 1 && ds[0] == 0 then Positive else x.sign, ds)
  }

  /** Normalisation keeps the value, leaves a non-empty vector non-empty and yields a canonical value. */
  lemma TrimCanonical(x: SuperLong)
    requires |x.digits| >= 1
    ensures Canonical(Trim(x))
    ensures Val(Trim(x).digits) == Val(x.digits)
    ensures !IsZero(Trim(x)) ==> Trim(x).sign == x.sign
  {
  }

  /** Normalisation only ever removes top limbs; every limb below the cut is untouched. */
  lemma TrimKeepsLowLimbs(x: SuperLong, i: nat)
    requires i < |Trim(x).digits|
    ensures i < |x.digits| && Trim(x).digits[i] == x.digits[i]
  {
  }

  /** Normalising twice is normalising once. */
  lemma TrimIdempotent(x: SuperLong)
    ensures Trim(Trim(x)) == Trim(x)
  {
    var ds := TrimDigits(x.digits);
    assert TrimDigits(ds) == ds;
  }

  /** A normalised vector is left alone, so a canonical value is a fixed point. */
  lemma TrimCanonicalFixed(x: SuperLong)
    requires Canonical(x)
    ensures Trim(x) == x
  {
  }

  /** A normalised vector other than `[0]` denotes a positive magnitude. */
  lemma NormalisedNonZero(ds: seq<Limb>)
    requires Normalised(ds) && !(|ds| == 1 && ds[0] == 0)
    ensures Val(ds) > 0
  {
    if |ds| > 1 {
      ValTopNonZero(ds);
    } else {
      ValSingle(ds[0]);
    }
  }

  /** Negating zero gives a Negative `[0]`: still `isZero`, no longer `isPositive`. */
  lemma NegatedZero()
    ensures IsZero(Negated(Zero())) && !IsPositive(Negated(Zero())) && IsNegative(Negated(Zero()))
    ensures !Canonical(Negated(Zero())) && ToInt(Negated(Zero())) == 0
  {
    ValSingle(0);
  }
}
