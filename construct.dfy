/**
 * Construction and the in-place members: the default constructor, the
 * decimal parser, `initFromUint64`, the `int64_t` constructor, `negate` and
 * `removeLeadingZeros`.
 */
module Construct {
  import opened Limbs
  import opened Representation
  import opened Results

  // ---------------------------------------------------------------------------
  // Native integers

  const INT64_MIN: int := -0x8000_0000_0000_0000
  const INT64_MAX: int := 0x7FFF_FFFF_FFFF_FFFF
  const UINT64_LIMIT: int := 0x1_0000_0000_0000_0000

  predicate IsInt64(n: int)
  {
    INT64_MIN <= n <= INT64_MAX
  }

  /** The limbs the loop of `initFromUint64` pushes: num % 256, then num / 256 until it reaches 0. */
  function LimbsOf(num: nat): seq<Limb>
  {
    if num == 0 then [] else [num % 256] + LimbsOf(num / 256)
  }

  /** The limbs `initFromUint64` appends: `[0]` for 0, otherwise those of its loop. */
  function InitLimbs(num: nat): (r: seq<Limb>)
    ensures Normalised(r)
    ensures r == [0] <==> num == 0
  {
    if num == 0 then [0]
    else
      LimbsOfEncodes(num);
      LimbsOf(num)
  }

  predicate TopNonZero(ds: seq<Limb>)
  {
    |ds| == 0 || ds[|ds| - 1] != 0
  }

  lemma {:induction false} LimbsOfEncodes(num: nat)
    ensures Val(LimbsOf(num)) == num
    ensures TopNonZero(LimbsOf(num))
    ensures num > 0 <==> |LimbsOf(num)| > 0
  {
    if num > 0 {
      LimbsOfEncodes(num / 256);
      assert ([num % 256] + LimbsOf(num / 256))[1..] == LimbsOf(num / 256);
    }
  }

  /** A vector with no zero limb on top is the only one with its value: it is the loop's output. */
  lemma {:induction false} LimbsOfUnique(ds: seq<Limb>)
    requires TopNonZero(ds)
    ensures ds == LimbsOf(Val(ds))
  {
    if |ds| > 0 {
      var rest := ds[1..];
      assert TopNonZero(rest);
      LimbsOfUnique(rest);
      ValTopNonZero(ds);
      var n := Val(ds);
      assert n == ds[0] + 256 * Val(rest);
      assert n % 256 == ds[0] && n / 256 == Val(rest);
      assert ds == [ds[0]] + rest;
    }
  }

  /** `initFromUint64` encodes num: a normalised vector, with no zero on top unless num is 0. */
  lemma InitLimbsEncodes(num: nat)
    ensures Normalised(InitLimbs(num)) && Val(InitLimbs(num)) == num
    ensures num == 0 <==> InitLimbs(num) == [0]
  {
    LimbsOfEncodes(num);
    ValSingle(0);
  }

  /** Every normalised vector is what `initFromUint64` builds for its value. */
  lemma NormalisedUnique(ds: seq<Limb>)
    requires Normalised(ds)
    ensures ds == InitLimbs(Val(ds))
  {
    if ds == [0] {
      ValSingle(0);
    } else {
      NormalisedNonZero(ds);
      LimbsOfUnique(ds);
    }
  }

  /** Two canonical values with the same integer are identical. */
  lemma CanonicalUnique(x: SuperLong, y: SuperLong)
    requires Canonical(x) && Canonical(y) && ToInt(x) == ToInt(y)
    ensures x == y
  {
    NormalisedUnique(x.digits);
    NormalisedUnique(y.digits);
    if !IsZero(x) {
      NormalisedNonZero(x.digits);
    }
    if !IsZero(y) {
      NormalisedNonZero(y.digits);
    }
  }

  /** The value the `int64_t` constructor builds; INT64_MIN is spelled out as 2^63. */
  function FromInt64(num: int): (r: SuperLong)
    requires IsInt64(num)
    ensures Normalised(r.digits)
    ensures r.sign == Negative <==> num < 0
  {
    if num == INT64_MIN then SuperLong(Negative, [0, 0, 0, 0, 0, 0, 0, 128])
    else if num < 0 then SuperLong(Negative, InitLimbs(-num))
    else SuperLong(Positive, InitLimbs(num))
  }

  /** The `int64_t` constructor is exact, canonical, and takes its sign from num. */
  lemma FromInt64Exact(num: int)
    requires IsInt64(num)
    ensures Canonical(FromInt64(num)) && ToInt(FromInt64(num)) == num
    ensures FromInt64(num).sign == (if num < 0 then Negative else Positive)
  {
    if num == INT64_MIN {
      MinLimbs();
    } else if num < 0 {
      InitLimbsEncodes(-num);
    } else {
      InitLimbsEncodes(num);
    }
  }

  /** The eight limbs the constructor writes for INT64_MIN hold 2^63. */
  lemma MinLimbs()
    ensures Val([0, 0, 0, 0, 0, 0, 0, 128]) == -INT64_MIN
  {
    assert [0, 0, 0, 0, 0, 0, 0, 128] == Zeros(7) + [128];
    ValShift(7, [128]);
    ValSingle(128);
    assert Pow256(7) == 0x100_0000_0000_0000;
  }

  /** A limb-sized number becomes a single Positive limb. */
  lemma FromInt64Small(n: int)
    requires 0 <= n < 256
    ensures FromInt64(n) == SuperLong(Positive, [n])
  {
    if n > 0 {
      assert LimbsOf(n / 256) == [];
    }
  }

  // ---------------------------------------------------------------------------
  // The decimal parser

  datatype ParseError = EmptyInput | SignOnly | NonDigit

  predicate IsDigit(c: char)
  {
    '0' <= c <= '9'
  }

  predicate AllDigits(s: string)
  {
    forall i :: 0 <= i < |s| ==> IsDigit(s[i])
  }

  function DigitVal(c: char): nat
    requires IsDigit(c)
  {
    c as int - '0' as int
  }

  /** The character '0' + d. */
  function DigitChar(d: nat): (c: char)
    requires d <= 9
    ensures IsDigit(c) && DigitVal(c) == d
  {
    ('0' as int + d) as char
  }

  /** The number a digit string denotes, most significant digit first. */
  function Dec(s: string): nat
    requires AllDigits(s)
  {
    if |s| == 0 then 0 else 10 * Dec(s[..|s| - 1]) + DigitVal(s[|s| - 1])
  }

  lemma DecSnoc(s: string, c: char)
    requires AllDigits(s) && IsDigit(c)
    ensures AllDigits(s + [c]) && Dec(s + [c]) == 10 * Dec(s) + DigitVal(c)
  {
    assert (s + [c])[..|s|] == s;
  }

  /** `remainder` and `new_str` of one pass of the parser after reading the first n characters. */
  datatype PassState = PassState(quotient: string, remainder: nat)

  /**
   * The body of the inner loop on character i with digit d: value =
   * remainder * 10 + d; its quotient digit is appended unless it is a
   * leading zero (value / 256 == 0, i == 0 and nothing appended yet).
   */
  function PassStep(prev: PassState, i: nat, d: nat): (st: PassState)
    requires prev.remainder < 256 && d <= 9
    ensures st.remainder < 256
  {
    var value := prev.remainder * 10 + d;
    var q := if value / 256 != 0 || i > 0 || |prev.quotient| != 0
             then prev.quotient + [DigitChar(value / 256)]
             else prev.quotient;
    PassState(q, value % 256)
  }

  function PassPrefix(s: string, n: nat): (st: PassState)
    requires AllDigits(s) && n <= |s|
    ensures st.remainder < 256
  {
    if n == 0 then PassState("", 0)
    else PassStep(PassPrefix(s, n - 1), n - 1, DigitVal(s[n - 1]))
  }

  lemma DivideStepArith(D: int, Q: int, r: int, d: int, Q': int)
    requires D == 256 * Q + r && 0 <= r < 256 && 0 <= d <= 9
    requires Q' == 10 * Q + (r * 10 + d) / 256
    ensures 10 * D + d == 256 * Q' + (r * 10 + d) % 256
  {
  }

  /** One turn of the inner loop: appending digit d to a string worth D divides 10 * D + d by 256. */
  lemma PassStepDivides(prev: PassState, i: nat, d: nat, D: nat)
    requires prev.remainder < 256 && d <= 9 && AllDigits(prev.quotient)
    requires D == 256 * Dec(prev.quotient) + prev.remainder
    requires i == 0 ==> prev == PassState("", 0)
    ensures AllDigits(PassStep(prev, i, d).quotient)
    ensures |PassStep(prev, i, d).quotient| == if i == 0 then 0 else |prev.quotient| + 1
    ensures 10 * D + d == 256 * Dec(PassStep(prev, i, d).quotient) + PassStep(prev, i, d).remainder
  {
    var value := prev.remainder * 10 + d;
    var st := PassStep(prev, i, d);
    if i > 0 {
      DecSnoc(prev.quotient, DigitChar(value / 256));
      DivideStepArith(D, Dec(prev.quotient), prev.remainder, d, Dec(st.quotient));
    } else {
      assert value / 256 == 0;
    }
  }

  /**
   * One pass divides the decimal number by 256: the first quotient digit
   * (always 0) is skipped and every later one kept, so the new string is one
   * character shorter, denotes v / 256, and the pushed limb is v % 256.
   */
  lemma {:induction false} PassDivides(s: string, n: nat)
    requires AllDigits(s) && n <= |s|
    ensures AllDigits(PassPrefix(s, n).quotient)
    ensures |PassPrefix(s, n).quotient| == if n == 0 then 0 else n - 1
    ensures Dec(s[..n]) == 256 * Dec(PassPrefix(s, n).quotient) + PassPrefix(s, n).remainder
  {
    if n > 0 {
      var prev := PassPrefix(s, n - 1);
      var d := DigitVal(s[n - 1]);
      assert PassPrefix(s, n) == PassStep(prev, n - 1, d);
      PassDivides(s, n - 1);
      assert s[..n] == s[..n - 1] + [s[n - 1]];
      DecSnoc(s[..n - 1], s[n - 1]);
      if n == 1 {
        assert s[..0] == [];
      }
      PassStepDivides(prev, n - 1, d, Dec(s[..n - 1]));
    }
  }

  /** The output of a whole pass. */
  function Pass(s: string): (st: PassState)
    requires AllDigits(s)
    ensures st.remainder < 256 && AllDigits(st.quotient)
    ensures |s| > 0 ==> |st.quotient| == |s| - 1
  {
    PassDivides(s, |s|);
    PassPrefix(s, |s|)
  }

  /** The limbs the outer loop of the parser pushes, one per pass. */
  function ParseLimbs(s: string): (r: seq<Limb>)
    requires AllDigits(s)
    decreases |s|
    ensures |r| == |s|
  {
    if |s| == 0 then []
    else
      var p := Pass(s);
      [p.remainder] + ParseLimbs(p.quotient)
  }

  /** Exactly |s| limbs are pushed, and together they encode the decimal value. */
  lemma {:induction false} ParseLimbsEncode(s: string)
    requires AllDigits(s)
    decreases |s|
    ensures |ParseLimbs(s)| == |s|
    ensures Val(ParseLimbs(s)) == Dec(s)
  {
    if |s| > 0 {
      var p := Pass(s);
      ParseLimbsEncode(p.quotient);
      PassDivides(s, |s|);
      assert s[..|s|] == s;
      assert ([p.remainder] + ParseLimbs(p.quotient))[1..] == ParseLimbs(p.quotient);
    }
  }

  /** Where the digits start: after a leading '-' or '+'. */
  function SignLength(str: string): (k: nat)
    requires |str| > 0
    ensures k <= 1
  {
    if str[0] == '-' || str[0] == '+' then 1 else 0
  }

  /** The characters after the optional sign. */
  function DigitPart(str: string): string
    requires |str| > 0
  {
    str[SignLength(str)..]
  }

  /** An optional sign followed by at least one decimal digit. */
  predicate WellFormed(str: string)
  {
    |str| > 0 && |DigitPart(str)| > 0 && AllDigits(DigitPart(str))
  }

  /** The integer a well-formed string denotes. */
  function DecimalValue(str: string): int
    requires WellFormed(str)
  {
    var m: int := Dec(DigitPart(str));
    if str[0] == '-' then -m else m
  }

  /** The string constructor. */
  function Parse(str: string): (r: Result<SuperLong, ParseError>)
    ensures r.Success? ==> Canonical(r.value)
  {
    if |str| == 0 then Failure(EmptyInput)
    else
      var sign := if str[0] == '-' then Negative else Positive;
      var strc := DigitPart(str);
      if |strc| == 0 then Failure(SignOnly)
      else if !AllDigits(strc) then Failure(NonDigit)
      else if strc == "0" then Success(SuperLong(Positive, [0]))
      else
        TrimCanonical(SuperLong(sign, ParseLimbs(strc)));
        Success(Trim(SuperLong(sign, ParseLimbs(strc))))
  }

  /** The parser fails exactly on the empty string, a lone sign, and a non-digit after the sign. */
  lemma ParseErrors(str: string)
    ensures Parse(str) == Failure(EmptyInput) <==> |str| == 0
    ensures Parse(str) == Failure(SignOnly) <==> |str| == 1 && (str[0] == '-' || str[0] == '+')
    ensures Parse(str) == Failure(NonDigit) <==> |str| > 0 && |DigitPart(str)| > 0 && !AllDigits(DigitPart(str))
    ensures Parse(str).Success? <==> WellFormed(str)
  {
  }

  /**
   * A sign and digits parse to the canonical encoding of their value; a
   * leading '-' makes it negative, and every spelling of zero ("0", "-0",
   * "0000", "-0000") gives Positive `[0]`.
   */
  lemma ParseExact(str: string)
    requires WellFormed(str)
    ensures Parse(str).Success?
    ensures Canonical(Parse(str).value)
    ensures ToInt(Parse(str).value) == DecimalValue(str)
  {
    var strc := DigitPart(str);
    if strc == "0" {
      assert Dec(strc) == 10 * Dec(strc[..0]) + DigitVal('0');
      ValSingle(0);
    } else {
      ParseLimbsEncode(strc);
      var x := SuperLong(if str[0] == '-' then Negative else Positive, ParseLimbs(strc));
      TrimCanonical(x);
    }
  }

  /** Leading zeros are dropped: "00123" is the single limb 123. */
  lemma ParseLeadingZeros()
    ensures Parse("00123") == Success(SuperLong(Positive, [123]))
  {
    var s := "00123";
    assert DigitPart(s) == s;
    assert Dec(s) == 123 by {
      assert s[..4] == "0012" && s[..4][..3] == "001" && s[..4][..3][..2] == "00";
      DecZeros("00");
    }
    ParseCanonicalOf(s, 123);
    FromInt64Small(123);
  }

  /** Every spelling of zero, signed or not, is Positive `[0]`. */
  lemma ParseZeros(str: string)
    requires |str| > 0 && (str[0] == '-' || str[0] == '+' || str[0] == '0')
    requires forall i :: 0 < i < |str| ==> str[i] == '0'
    requires |DigitPart(str)| > 0
    ensures Parse(str) == Success(Zero())
  {
    DecZeros(DigitPart(str));
    ParseCanonicalOf(str, 0);
    FromInt64Small(0);
  }

  /** A string of zeros denotes 0. */
  lemma {:induction false} DecZeros(s: string)
    requires forall i :: 0 <= i < |s| ==> s[i] == '0'
    ensures AllDigits(s) && Dec(s) == 0
  {
    if |s| > 0 {
      DecZeros(s[..|s| - 1]);
    }
  }

  lemma ParseCanonicalOf(str: string, n: int)
    requires WellFormed(str) && DecimalValue(str) == n && IsInt64(n)
    ensures Parse(str) == Success(FromInt64(n))
  {
    ParseExact(str);
    FromInt64Exact(n);
    CanonicalUnique(Parse(str).value, FromInt64(n));
  }

  /** The string constructor, loop by loop. */
  method ComputeParse(str: string) returns (r: Result<SuperLong, ParseError>)
    ensures r == Parse(str)
  {
    if |str| == 0 {
      return Failure(EmptyInput);
    }
    var sign: Sign;
    var start := 0;
    if str[0] == '-' {
      sign := Negative;
      start := 1;
    } else {
      sign := Positive;
      if str[0] == '+' {
        start := 1;
      }
    }
    var strc := str[start..];
    if |strc| == 0 {
      return Failure(SignOnly);
    }
    for i := 0 to |strc|
      invariant forall j :: 0 <= j < i ==> IsDigit(strc[j])
    {
      if strc[i] < '0' || strc[i] > '9' {
        return Failure(NonDigit);
      }
    }
    if strc == "0" {
      return Success(SuperLong(Positive, [0]));
    }
    var digits := ComputeParseLimbs(strc);
    r := Success(Trim(SuperLong(sign, digits)));
  }

  /** The outer loop of the parser: one pass per limb until the decimal string is used up. */
  method ComputeParseLimbs(s: string) returns (digits: seq<Limb>)
    requires AllDigits(s)
    ensures digits == ParseLimbs(s)
  {
    digits := [];
    var strc := s;
    while |strc| > 0
      invariant AllDigits(strc)
      invariant digits + ParseLimbs(strc) == ParseLimbs(s)
      decreases |strc|
    {
      var newStr, remainder := ComputePass(strc);
      assert ParseLimbs(strc) == [remainder] + ParseLimbs(newStr);
      assert (digits + [remainder]) + ParseLimbs(newStr) == digits + ([remainder] + ParseLimbs(newStr));
      digits := digits + [remainder];
      strc := newStr;
    }
  }

  /** The inner loop of the parser: one division of the decimal string by 256. */
  method ComputePass(strc: string) returns (newStr: string, remainder: nat)
    requires AllDigits(strc)
    ensures PassState(newStr, remainder) == Pass(strc)
  {
    remainder := 0;
    newStr := "";
    for i := 0 to |strc|
      invariant PassState(newStr, remainder) == PassPrefix(strc, i)
    {
      var value := remainder * 10 + (strc[i] as int - '0' as int);
      if value / 256 != 0 || i > 0 || |newStr| != 0 {
        newStr := newStr + [('0' as int + value / 256) as char];
      }
      remainder := value % 256;
    }
  }

  // ---------------------------------------------------------------------------
  // One SuperLong object and its in-place members

  class SuperLongVar {
    var sign: Sign
    var digits: seq<Limb>

    function Value(): SuperLong
      reads this
    {
      SuperLong(sign, digits)
    }

    /** `SuperLong()`: Positive with the single limb 0. */
    constructor ()
      ensures Value() == Zero()
    {
      sign := Positive;
      digits := [0];
    }

    /** `SuperLong(int64_t)`: the limbs start empty and `initFromUint64` appends the magnitude. */
    constructor OfInt64(num: int)
      requires IsInt64(num)
      ensures Value() == FromInt64(num)
    {
      if num == INT64_MIN {
        sign := Negative;
        digits := [0, 0, 0, 0, 0, 0, 0, 128];
      } else {
        sign := if num < 0 then Negative else Positive;
        digits := [];
      }
      new;
      if num != INT64_MIN {
        InitFromUint64(if num < 0 then -num else num);
      }
    }

    /** Appends the limbs of num, least significant first; `[0]` for 0. */
    method InitFromUint64(num: nat)
      requires num < UINT64_LIMIT
      modifies this
      ensures sign == old(sign) && digits == old(digits) + InitLimbs(num)
    {
      if num == 0 {
        digits := digits + [0];
        return;
      }
      var n := num;
      while n > 0
        invariant digits + LimbsOf(n) == old(digits) + LimbsOf(num)
        invariant sign == old(sign)
      {
        assert LimbsOf(n) == [n % 256] + LimbsOf(n / 256);
        assert (digits + [n % 256]) + LimbsOf(n / 256) == digits + ([n % 256] + LimbsOf(n / 256));
        digits := digits + [n % 256];
        n := n / 256;
      }
      assert digits + [] == digits;
    }

    /** Pops zero limbs from the top while more than one limb remains; `[0]` becomes Positive. */
    method RemoveLeadingZeros()
      modifies this
      ensures Value() == Trim(old(Value()))
    {
      while |digits| > 1 && digits[|digits| - 1] == 0
        invariant TrimDigits(digits) == TrimDigits(old(digits))
        invariant sign == old(sign)
      {
        digits := digits[..|digits| - 1];
      }
      if |digits| == 1 && digits[0] == 0 {
        sign := Positive;
      }
    }

    /** Flips the sign, even of zero. */
    method Negate()
      modifies this
      ensures Value() == Negated(old(Value()))
    {
      sign := if sign == Positive then Negative else Positive;
    }
  }
}
