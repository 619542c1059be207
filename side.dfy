/** The second definition of `removeLeadingZeros`. */
module Side {
  import opened Limbs
  import opened Representation
  import opened Construct

  /** The same loop as `SuperLongVar.RemoveLeadingZeros`, applied to the object x. */
  method RemoveLeadingZeros(x: SuperLongVar)
    modifies x
    ensures x.Value() == Trim(old(x.Value()))
    ensures |old(x.digits)| >= 1 ==> Canonical(x.Value()) && Val(x.digits) == Val(old(x.digits))
  {
    while |x.digits| > 1 && x.digits[|x.digits| - 1] == 0
      invariant TrimDigits(x.digits) == TrimDigits(old(x.digits))
      invariant x.sign == old(x.sign)
    {
      x.digits := x.digits[..|x.digits| - 1];
    }
    if |x.digits| == 1 && x.digits[0] == 0 {
      x.sign := Positive;
    }
    if |old(x.digits)| >= 1 {
      TrimCanonical(old(x.Value()));
    }
  }
}
