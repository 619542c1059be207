/**
 * The earlier version of the class and its string constructor: a default
 * constructor that leaves the limbs empty, and a parser with no validation
 * of the digits, no sign-only check and no final normalisation, whose
 * passes drop every leading zero of the quotient string.
 */
module Early {
  import opened Limbs
  import opened Representation
  import opened Results
  import opened Construct

  // ---------------------------------------------------------------------------
  // One pass of the earlier parser

  /**
   * One character of the inner loop: cur = (c - '0') + carry * 10, its
   * quotient digit by 256 appended unless nothing has been appended yet and
   * it is 0, and the carry kept as cur % 256.
   */
  function EarlyPassStep(prev: PassState, d: nat): (st: PassState)
    requires prev.remainder < 256 && d <= 9
    ensures st.remainder < 256
  {
    var cur := d + prev.remainder * 10;
    var q := if |prev.quotient| != 0 || cur / 256 != 0
             then prev.quotient + [DigitChar(cur / 256)]
             else prev.quotient;
    PassState(q, cur % 256)
  }

  function EarlyPassPrefix(s: string, n: nat): (st: PassState)
    requires AllDigits(s) && n <= |s|
    ensures st.remainder < 256
  {
    if n == 0 then PassState("", 0)
    else EarlyPassStep(EarlyPassPrefix(s, n - 1), DigitVal(s[n - 1]))
  }

  /** A string with no leading '0'. */
  predicate NoLeadingZero(s: string)
  {
    |s| > 0 ==> s[0] != '0'
  }

  /** One turn of the inner loop divides the partial number by 256 and keeps the quotient free of leading zeros. */
  lemma EarlyPassStepDivides(prev: PassState, d: nat, D: nat)
    requires prev.remainder < 256 && d <= 9 && AllDigits(prev.quotient) && NoLeadingZero(prev.quotient)
    requires D == 256 * Dec(prev.quotient) + prev.remainder
    ensures var st := EarlyPassStep(prev, d);
      AllDigits(st.quotient) && NoLeadingZero(st.quotient)
      && |st.quotient| <= |prev.quotient| + 1
      && (|prev.quotient| == 0 && D == 0 ==> |st.quotient| == 0)
      && 10 * D + d == 256 * Dec(st.quotient) + st.remainder
  {
    var cur := d + prev.remainder * 10;
    assert cur / 256 <= 9;
    var st := EarlyPassStep(prev, d);
    if |prev.quotient| != 0 || cur / 256 != 0 {
      var c := DigitChar(cur / 256);
      assert st.quotient == prev.quotient + [c];
      DecSnoc(prev.quotient, c);
      assert st.quotient[0] != '0' by {
        if |prev.quotient| == 0 {
          assert st.quotient[0] == c;
        } else {
          assert st.quotient[0] == prev.quotient[0];
        }
      }
      DivideStepArith(D, Dec(prev.quotient), prev.remainder, d, Dec(st.quotient));
    } else {
      assert st.quotient == prev.quotient == "";
      assert Dec(st.quotient) == 0;
      DivideStepArith(D, 0, prev.remainder, d, 0);
    }
  }

  /**
   * A pass over the first n digits: the quotient string has at most n - 1
   * characters (the first quotient digit, at most 9 / 256, is always
   * dropped), no leading zero, and the pass divides by 256.
   */
  lemma {:induction false} EarlyPassDivides(s: string, n: nat)
    requires AllDigits(s) && n <= |s|
    ensures AllDigits(EarlyPassPrefix(s, n).quotient) && NoLeadingZero(EarlyPassPrefix(s, n).quotient)
    ensures n > 0 ==> |EarlyPassPrefix(s, n).quotient| <= n - 1
    ensures Dec(s[..n]) == 256 * Dec(EarlyPassPrefix(s, n).quotient) + EarlyPassPrefix(s, n).remainder
  {
    if n > 0 {
      EarlyPassDivides(s, n - 1);
      assert s[..n] == s[..n - 1] + [s[n - 1]];
      DecSnoc(s[..n - 1], s[n - 1]);
      if n == 1 {
        assert s[..0] == [];
      }
      EarlyPassStepDivides(EarlyPassPrefix(s, n - 1), DigitVal(s[n - 1]), Dec(s[..n - 1]));
    }
  }

  /** The output of a whole pass. */
  function EarlyPass(s: string): (st: PassState)
    requires AllDigits(s)
    ensures st.remainder < 256 && AllDigits(st.quotient) && NoLeadingZero(st.quotient)
    ensures |s| > 0 ==> |st.quotient| < |s|
    ensures Dec(s) == 256 * Dec(st.quotient) + st.remainder
  {
    EarlyPassDivides(s, |s|);
    assert s[..|s|] == s;
    EarlyPassPrefix(s, |s|)
  }

  /** The limbs the outer loop pushes: one per pass, until the quotient string is empty. */
  function EarlyLimbs(s: string): (r: seq<Limb>)
    requires AllDigits(s)
    decreases |s|
    ensures |r| <= |s|
    ensures |r| == 0 <==> |s| == 0
  {
    if |s| == 0 then []
    else
      var p := EarlyPass(s);
      [p.remainder] + EarlyLimbs(p.quotient)
  }

  /** A digit string that starts with a non-zero digit denotes a positive number. */
  lemma {:induction false} DecLeadingDigit(s: string)
    requires AllDigits(s) && |s| > 0 && s[0] != '0'
    ensures Dec(s) > 0
    decreases |s|
  {
    if |s| > 1 {
      DecLeadingDigit(s[..|s| - 1]);
    }
  }

  /**
   * The pushed limbs encode the decimal value, and the last one pushed is
   * non-zero unless the value is 0, which pushes exactly `[0]`.
   */
  lemma {:induction false} EarlyLimbsEncode(s: string)
    requires AllDigits(s) && |s| > 0
    ensures Normalised(EarlyLimbs(s)) && Val(EarlyLimbs(s)) == Dec(s)
    decreases |s|
  {
    var p := EarlyPass(s);
    var ls := EarlyLimbs(s);
    assert ls == [p.remainder] + EarlyLimbs(p.quotient);
    if |p.quotient| == 0 {
      assert EarlyLimbs(p.quotient) == [];
      assert ls == [p.remainder];
      ValSingle(p.remainder);
    } else {
      EarlyLimbsEncode(p.quotient);
      DecLeadingDigit(p.quotient);
      var rest := EarlyLimbs(p.quotient);
      assert ls[1..] == rest;
      assert ls[|ls| - 1] == rest[|rest| - 1];
      assert rest[|rest| - 1] != 0 by {
        if |rest| == 1 {
          ValSingle(rest[0]);
        }
      }
    }
  }

  /** For a non-empty digit string the limbs are exactly those of its value: `[0]` for 0, no top zero limb otherwise. */
  lemma EarlyLimbsExact(s: string)
    requires AllDigits(s) && |s| > 0
    ensures EarlyLimbs(s) == InitLimbs(Dec(s))
  {
    EarlyLimbsEncode(s);
    NormalisedUnique(EarlyLimbs(s));
  }

  // ---------------------------------------------------------------------------
  // The earlier string constructor

  /** The characters the earlier parser can handle: every character after the optional sign is a digit. */
  predicate EarlyInput(str: string)
  {
    |str| > 0 ==> AllDigits(DigitPart(str))
  }

  /** The earlier string constructor: only the empty string is refused, and nothing is normalised at the end. */
  function EarlyParse(str: string): (r: Result<SuperLong, ParseError>)
    requires EarlyInput(str)
    ensures r.Failure? <==> |str| == 0
    ensures r.Success? && |DigitPart(str)| > 0 ==> |r.value.digits| >= 1
  {
    if |str| == 0 then Failure(EmptyInput)
    else
      var sign := if str[0] == '-' then Negative else Positive;
      var strc := DigitPart(str);
      if strc == "0" then Success(SuperLong(Positive, [0]))
      else Success(SuperLong(sign, EarlyLimbs(strc)))
  }

  /**
   * The earlier parser fails only on the empty string. A lone sign gives no
   * limbs at all; otherwise the limbs are those of the digits' value, with
   * the sign of a leading '-' kept even for a zero value other than "0".
   */
  lemma EarlyParseResult(str: string)
    requires EarlyInput(str)
    ensures |str| > 0 ==> EarlyParse(str).value.sign == (if str[0] == '-' && DigitPart(str) != "0" then Negative else Positive)
    ensures |str| > 0 && |DigitPart(str)| == 0 ==> EarlyParse(str).value.digits == []
    ensures |str| > 0 && |DigitPart(str)| > 0 ==> EarlyParse(str).value.digits == InitLimbs(Dec(DigitPart(str)))
  {
    if |str| > 0 && |DigitPart(str)| > 0 {
      if DigitPart(str) == "0" {
        assert Dec("0") == 10 * Dec("") + DigitVal('0');
      } else {
        EarlyLimbsExact(DigitPart(str));
      }
    }
  }

  /** "-00" parses to a Negative `[0]`: `isZero`, but not `isPositive`. */
  lemma EarlyNegativeZero()
    ensures EarlyInput("-00")
    ensures EarlyParse("-00") == Success(SuperLong(Negative, [0]))
  {
    assert DigitPart("-00") == "00";
    DecZeros("00");
    EarlyLimbsExact("00");
  }

  /** "+" and "-" are accepted and give no limbs, so `isZero` is false for them. */
  lemma EarlySignOnly(str: string)
    requires str == "+" || str == "-"
    ensures EarlyInput(str)
    ensures EarlyParse(str).Success? && EarlyParse(str).value.digits == [] && !IsZero(EarlyParse(str).value)
  {
    assert DigitPart(str) == "";
  }

  /** The earlier string constructor, loop by loop. */
  method ComputeEarlyParse(str: string) returns (r: Result<SuperLong, ParseError>)
    requires EarlyInput(str)
    ensures r == EarlyParse(str)
  {
    if |str| == 0 {
      return Failure(EmptyInput);
    }
    var sign: Sign;
    var start := 0;
    if str[0] == '-' {
      sign := Negative;
      start := 1;
    } else {
      sign := Positive;
      if str[0] == '+' {
        start := 1;
      }
    }
    var strc := str[start..];
    if strc == "0" {
      return Success(SuperLong(Positive, [0]));
    }
    var digits := ComputeEarlyLimbs(strc);
    r := Success(SuperLong(sign, digits));
  }

  /** The outer loop, one limb per pass until the string is empty. */
  method ComputeEarlyLimbs(s: string) returns (digits: seq<Limb>)
    requires AllDigits(s)
    ensures digits == EarlyLimbs(s)
  {
    digits := [];
    var strc := s;
    while |strc| > 0
      invariant AllDigits(strc)
      invariant digits + EarlyLimbs(strc) == EarlyLimbs(s)
      decreases |strc|
    {
      var newStr, carry := ComputeEarlyPass(strc);
      assert EarlyLimbs(strc) == [carry] + EarlyLimbs(newStr);
      assert (digits + [carry]) + EarlyLimbs(newStr) == digits + ([carry] + EarlyLimbs(newStr));
      digits := digits + [carry];
      strc := newStr;
    }
  }

  /** The inner loop over the characters of the string. */
  method ComputeEarlyPass(strc: string) returns (newStr: string, carry: nat)
    requires AllDigits(strc)
    ensures PassState(newStr, carry) == EarlyPass(strc)
  {
    carry := 0;
    newStr := "";
    for i := 0 to |strc|
      invariant PassState(newStr, carry) == EarlyPassPrefix(strc, i)
    {
      var cur := (strc[i] as int - '0' as int) + carry * 10;
      var digitQuo := cur / 256;
      carry := cur % 256;
      if |newStr| != 0 || digitQuo != 0 {
        newStr := newStr + [(digitQuo + '0' as int) as char];
      }
    }
  }

  // ---------------------------------------------------------------------------
  // The earlier class

  class EarlySuperLong {
    var digits: seq<Limb>
    var sign: Sign

    function Value(): SuperLong
      reads this
    {
      SuperLong(sign, digits)
    }

    /** The earlier default constructor: Positive with no limbs at all. */
    constructor ()
      ensures Value() == SuperLong(Positive, [])
    {
      sign := Positive;
      digits := [];
    }

    /** The inline `removeLeadingZeros`, the same loop as in the later version. */
    method RemoveLeadingZeros()
      modifies this
      ensures Value() == Trim(old(Value()))
    {
      while |digits| > 1 && digits[|digits| - 1] == 0
        invariant TrimDigits(digits) == TrimDigits(old(digits))
        invariant sign == old(sign)
      {
        digits := digits[..|digits| - 1];
      }
      if |digits| == 1 && digits[0] == 0 {
        sign := Positive;
      }
    }

    /** `isZero`: exactly one limb, equal to 0. */
    function IsZeroLimbs(): (r: bool)
      reads this
      ensures r <==> |digits| == 1 && digits[0] == 0
      ensures r <==> IsZero(Value())
    {
      |digits| == 1 && digits[0] == 0
    }

    /** `isNegative`. */
    function IsNegativeSign(): (r: bool)
      reads this
      ensures r <==> IsNegative(Value())
    {
      sign == Negative
    }

    /** `isPositive`. */
    function IsPositiveSign(): (r: bool)
      reads this
      ensures r <==> IsPositive(Value())
    {
      sign == Positive
    }
  }

  /** A default-constructed earlier value has no limbs, so it is not `isZero`, unlike the later default. */
  method DefaultNotZero() returns (z: bool)
    ensures !z
  {
    var x := new EarlySuperLong();
    z := x.IsZeroLimbs();
  }
}
