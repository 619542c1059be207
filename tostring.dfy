/**
 * `toString`: repeated `divide_quo_rem` by ten, one character per division,
 * then a '-' for a negative value and a reversal. The division is the one
 * modelled in module Division, as it is written; its quotient always shrinks,
 * so the loop ends, but only the last division's remainder is a real decimal
 * digit.
 */
module Conversion {
  import opened Limbs
  import opened Representation
  import opened Results
  import opened Construct
  import opened Additive
  import opened Multiplicative
  import opened Division

  /** `SuperLong(10LL)`. */
  function Ten(): (r: SuperLong)
    ensures r == SuperLong(Positive, [10])
  {
    FromInt64Small(10);
    FromInt64(10)
  }

  /** The character for a remainder limb: the limb plus '0', taken modulo 256 as an 8-bit `char` holds it. */
  function LimbChar(d: Limb): char
  {
    ((d + '0' as int) % 256) as char
  }

  // ---------------------------------------------------------------------------
  // The low limb of the additive results

  /** The seed limb `[0]` of `addAbs` and `subtractAbs` survives normalisation as the low limb. */
  lemma SeededLowLimb(rest: seq<Limb>)
    ensures Trim(SuperLong(Positive, [0] + rest)).digits[0] == 0
  {
    var x := SuperLong(Positive, [0] + rest);
    TrimCanonical(x);
    TrimKeepsLowLimbs(x, 0);
  }

  /** `add` returns `addAbs`, `subtractAbs` or `SuperLong()`, each with low limb 0. */
  lemma AddLowLimb(a: SuperLong, b: SuperLong)
    ensures Add(a, b).digits[0] == 0
  {
    SeededLowLimb(AddLoop(a.digits, b.digits, 0));
    SeededLowLimb(SubLoop(a.digits, b.digits));
    SeededLowLimb(SubLoop(b.digits, a.digits));
  }

  /** `subtract` likewise. */
  lemma SubtractLowLimb(a: SuperLong, b: SuperLong)
    ensures Subtract(a, b).digits[0] == 0
  {
    SeededLowLimb(AddLoop(a.digits, b.digits, 0));
    SeededLowLimb(SubLoop(a.digits, b.digits));
    SeededLowLimb(SubLoop(b.digits, a.digits));
  }

  /** After at least one step of the long division the remainder has low limb 0. */
  lemma LongDivisionLowLimb(ds: seq<Limb>, divisor: SuperLong, k: nat)
    requires 1 <= k <= |ds|
    ensures LongDivision(ds, divisor, k).remainder.digits[0] == 0
  {
    var st := LongDivision(ds, divisor, k - 1);
    var rem := BringDown(st.remainder, ds[|ds| - k]);
    AddLowLimb(Multi256n(st.remainder, 1), FromInt64(ds[|ds| - k]));
    if AbsCmp(rem, divisor) >= 0 {
      var best := SearchDigit(FitTable(divisor, rem), 1, 255, 0);
      SubtractLowLimb(rem, Product(divisor, best));
    }
  }

  /** The first quotient digit is fixed by the first step and kept by every later one. */
  lemma {:induction false} LongDivisionFirstDigit(ds: seq<Limb>, divisor: SuperLong, k: nat)
    requires 1 <= k <= |ds|
    ensures LongDivision(ds, divisor, k).quotient[0] == LongDivision(ds, divisor, 1).quotient[0]
  {
    if k > 1 {
      LongDivisionFirstDigit(ds, divisor, k - 1);
      var st := LongDivision(ds, divisor, k - 1);
      assert DivStep(st, ds[|ds| - k], divisor).quotient[..|st.quotient|] == st.quotient;
    }
  }

  // ---------------------------------------------------------------------------
  // One division by ten

  /** a <= b * c when product facts are stated on plain integers. */
  lemma FirstDigitArith(d: int, top: int)
    requires 0 <= d && 1 <= top && (d >= 1 ==> 256 * 10 * d <= 256 * top)
    ensures d < top
  {
  }

  /** The first limb brought down onto the default remainder: `addAbs` scales it by 256. */
  lemma BringDownFirst(top: Limb)
    ensures Val(BringDown(Zero(), top).digits) == 256 * top
  {
    assert Multi256n(Zero(), 1) == Zero();
    FromInt64Small(top);
    AddAbsScaled(Zero(), FromInt64(top));
    ValSingle(0);
    ValSingle(top);
  }

  /** `divisor * m` for the divisor ten. */
  lemma ProductTen(m: nat)
    requires m < 256
    ensures Val(Product(Ten(), m).digits) == 256 * 10 * m
  {
    ProductValue(Ten(), m);
    assert DigitSum([10]) == 10;
    assert Pow256(1) == 256;
  }

  /** The first digit of dividing by ten is below the dividend's top limb. */
  lemma FirstDigitBelowTop(ds: seq<Limb>)
    requires |ds| >= 1 && ds[|ds| - 1] >= 1
    ensures LongDivision(ds, Ten(), 1).quotient[0] < ds[|ds| - 1]
  {
    var top := ds[|ds| - 1];
    var st := DivState([], Zero());
    assert LongDivision(ds, Ten(), 1) == DivStep(st, top, Ten());
    var d := DivStep(st, top, Ten()).quotient[0];
    DivStepDigit(st, top, Ten());
    BringDownFirst(top);
    if d >= 1 {
      ProductTen(d);
    }
    FirstDigitArith(d, top);
  }

  lemma TopArith(v0: int, d: int, p: int)
    requires 0 <= v0 < p && d >= 0
    ensures p * d <= v0 + d * p < p * (d + 1)
  {
  }

  /** The top limb bounds a value: 256^(n-1) * top <= Val < 256^(n-1) * (top + 1). */
  lemma TopLimbBounds(s: seq<Limb>)
    requires |s| >= 1
    ensures Pow256(|s| - 1) * s[|s| - 1] <= Val(s) < Pow256(|s| - 1) * (s[|s| - 1] as int + 1)
  {
    var n := |s| - 1;
    assert s == s[..n] + [s[n]];
    ValSnoc(s[..n], s[n]);
    ValBound(s[..n]);
    TopArith(Val(s[..n]), s[n], Pow256(n));
  }

  /** Of two vectors of the same length, the one with the smaller top limb has the smaller value. */
  lemma TopLimbDecidesBelow(qs: seq<Limb>, ds: seq<Limb>)
    requires |qs| == |ds| >= 1 && qs[|qs| - 1] < ds[|ds| - 1]
    ensures Val(qs) < Val(ds)
  {
    var n := |ds|;
    TopLimbBounds(qs);
    TopLimbBounds(ds);
    ShrinkArith(Pow256(n - 1), qs[n - 1], ds[n - 1], Val(qs), Val(ds));
  }

  lemma ShrinkArith(p: int, q: int, top: int, vq: int, vt: int)
    requires p >= 1 && 0 <= q < top
    requires vq < p * (q + 1) && p * top <= vt
    ensures vq < vt
  {
    MulMono3(p, 1, q + 1, top);
  }

  /** From ten on, dividing a Positive value by ten takes the long-division path. */
  lemma DivTenLong(temp: SuperLong)
    requires Normalised(temp.digits) && temp.sign == Positive && Val(temp.digits) >= 10
    ensures var st := LongDivision(temp.digits, Ten(), |temp.digits|);
      DivideQuoRem(temp, Ten())
      == Success((Trim(SuperLong(Positive, Reverse(st.quotient))), Trim(st.remainder).(sign := Positive)))
  {
    var ten := Ten();
    assert !IsZero(temp) by {
      ValSingle(0);
    }
    assert AbsCmp(temp, ten) >= 0 by {
      ValSingle(10);
      AbsCmpByValue(temp, ten);
    }
    assert temp.(sign := Positive) == temp && ten.(sign := Positive) == ten;
    var st := LongDivision(temp.digits, ten, |temp.digits|);
    var q := Trim(SuperLong(Positive, Reverse(st.quotient)));
    assert q.(sign := Positive) == q;
  }

  /** The first digit collected, which ends up on top, is below the dividend's top limb. */
  lemma QuotientTopBelow(ds: seq<Limb>)
    requires Normalised(ds) && Val(ds) >= 10
    ensures LongDivision(ds, Ten(), |ds|).quotient[0] < ds[|ds| - 1]
  {
    assert ds[|ds| - 1] >= 1 by {
      if |ds| == 1 {
        ValSingle(ds[0]);
      }
    }
    LongDivisionFirstDigit(ds, Ten(), |ds|);
    FirstDigitBelowTop(ds);
  }

  /** Digits collected most significant first, with a first digit below the top limb of ds, denote less than ds. */
  lemma ReversedBelow(qs: seq<Limb>, ds: seq<Limb>)
    requires |qs| == |ds| >= 1 && qs[0] < ds[|ds| - 1]
    ensures Val(Reverse(qs)) < Val(ds)
  {
    var rs := Reverse(qs);
    assert rs[|rs| - 1] == qs[0];
    TopLimbDecidesBelow(rs, ds);
  }

  /** The long-division quotient by ten, read least-significant first, is below the dividend. */
  lemma ReversedQuotientBelow(ds: seq<Limb>)
    requires Normalised(ds) && Val(ds) >= 10
    ensures Val(Reverse(LongDivision(ds, Ten(), |ds|).quotient)) < Val(ds)
  {
    QuotientTopBelow(ds);
    ReversedBelow(LongDivision(ds, Ten(), |ds|).quotient, ds);
  }

  /** The long-division quotient by ten is normalised and below the dividend; the remainder's low limb is 0. */
  lemma DivTenLongFacts(ds: seq<Limb>)
    requires Normalised(ds) && Val(ds) >= 10
    ensures var st := LongDivision(ds, Ten(), |ds|);
      var q := Trim(SuperLong(Positive, Reverse(st.quotient)));
      var rem := Trim(st.remainder);
      Normalised(q.digits) && q.sign == Positive && Val(q.digits) < Val(ds)
      && Normalised(rem.digits) && rem.digits[0] == 0
  {
    var st := LongDivision(ds, Ten(), |ds|);
    BringDownNormalised(ds, Ten(), |ds|);
    LongDivisionLowLimb(ds, Ten(), |ds|);
    TrimCanonical(st.remainder);
    TrimKeepsLowLimbs(st.remainder, 0);
    TrimCanonical(SuperLong(Positive, Reverse(st.quotient)));
    ReversedQuotientBelow(ds);
  }

  /**
   * Dividing a non-zero normalised magnitude by ten as written: the quotient
   * is a Positive normalised value strictly smaller than the dividend. Below
   * ten the dividend itself comes back as the remainder; from ten on, the
   * remainder's low limb is 0.
   */
  lemma DivTenFacts(temp: SuperLong)
    requires Normalised(temp.digits) && temp.sign == Positive && !IsZero(temp)
    ensures DivideQuoRem(temp, Ten()).Success?
    ensures var (q, rem) := DivideQuoRem(temp, Ten()).value;
      Normalised(q.digits) && q.sign == Positive && Val(q.digits) < Val(temp.digits)
      && Normalised(rem.digits)
      && (Val(temp.digits) < 10 ==> q == Zero() && rem == temp)
      && (Val(temp.digits) >= 10 ==> rem.digits[0] == 0)
  {
    NormalisedNonZero(temp.digits);
    if Val(temp.digits) < 10 {
      ValSingle(10);
      DivideSmallDividend(temp, Ten());
      ValSingle(0);
    } else {
      DivTenLong(temp);
      DivTenLongFacts(temp.digits);
    }
  }

  // ---------------------------------------------------------------------------
  // toString

  /** The quotient and remainder of one turn of the loop. */
  function DivTen(temp: SuperLong): (r: (SuperLong, SuperLong))
    requires Normalised(temp.digits) && temp.sign == Positive && !IsZero(temp)
    ensures Normalised(r.0.digits) && r.0.sign == Positive && Val(r.0.digits) < Val(temp.digits)
    ensures Normalised(r.1.digits)
    ensures Val(temp.digits) < 10 ==> r.0 == Zero() && r.1 == temp
    ensures Val(temp.digits) >= 10 ==> r.1.digits[0] == 0
  {
    DivTenFacts(temp);
    DivideQuoRem(temp, Ten()).value
  }

  /** The characters `toString` appends, in the order it appends them. */
  function PushedChars(temp: SuperLong): (r: string)
    requires Normalised(temp.digits) && temp.sign == Positive
    decreases Val(temp.digits)
    ensures |r| == 0 <==> IsZero(temp)
  {
    if IsZero(temp) then []
    else
      var (q, rem) := DivTen(temp);
      [LimbChar(rem.digits[0])] + PushedChars(q)
  }

  /** `toString`. The source relies on its values being normalised; a value with top zero limbs is not modelled. */
  function ToString(x: SuperLong): (r: string)
    requires Normalised(x.digits)
    ensures |r| > 0
    ensures x.sign == Negative && !IsZero(x) ==> r[0] == '-'
  {
    if IsZero(x) then "0"
    else
      var pushed := PushedChars(x.(sign := Positive));
      Reverse(if x.sign == Negative then pushed + "-" else pushed)
  }

  /** `toString`, as its code runs: the characters pushed by the loop, a '-' when Negative, then `std::reverse`. */
  method ComputeToString(x: SuperLong) returns (r: string)
    requires Normalised(x.digits)
    ensures r == ToString(x)
  {
    if IsZero(x) {
      return "0";
    }
    var result := ComputePushedChars(x.(sign := Positive));
    if x.sign == Negative {
      result := result + "-";
    }
    r := Reverse(result);
  }

  /** The loop of `toString`, which runs until temp is zero. */
  method ComputePushedChars(t: SuperLong) returns (result: string)
    requires Normalised(t.digits) && t.sign == Positive
    ensures result == PushedChars(t)
  {
    result := "";
    var temp := t;
    while !IsZero(temp)
      invariant Normalised(temp.digits) && temp.sign == Positive
      invariant result + PushedChars(temp) == PushedChars(t)
      decreases Val(temp.digits)
    {
      var quotient, remainder := ComputeDivTen(temp);
      var c := LimbChar(remainder.digits[0]);
      PushedStep(temp);
      assert quotient == DivTen(temp).0 && remainder == DivTen(temp).1;
      ghost var rest := PushedChars(quotient);
      assert PushedChars(temp) == [c] + rest;
      AppendAssoc(result, [c], rest);
      temp := quotient;
      result := result + [c];
    }
    assert result + [] == result;
  }

  /** One division of temp by ten, by the loops of module Division. */
  method ComputeDivTen(temp: SuperLong) returns (quotient: SuperLong, remainder: SuperLong)
    requires Normalised(temp.digits) && temp.sign == Positive && !IsZero(temp)
    ensures (quotient, remainder) == DivTen(temp)
  {
    var qr := ComputeDivideQuoRem(temp, Ten());
    DivTenFacts(temp);
    quotient, remainder := qr.value.0, qr.value.1;
  }

  // ---------------------------------------------------------------------------
  // What toString promises

  /** A normalised value below 256 is a single limb. */
  lemma SmallIsOneLimb(ds: seq<Limb>)
    requires Normalised(ds) && Val(ds) < 256
    ensures |ds| == 1 && Val(ds) == ds[0]
  {
    LongIsLarge(ds);
    ValSingle(ds[0]);
  }

  /** A normalised vector of two limbs or more denotes at least 256. */
  lemma LongIsLarge(ds: seq<Limb>)
    requires Normalised(ds)
    ensures |ds| > 1 ==> Val(ds) >= 256
  {
    if |ds| > 1 {
      ValTopNonZero(ds);
      PowMonotone(1, |ds| - 1);
    }
  }

  lemma LimbCharDigit(d: Limb)
    requires d <= 9
    ensures LimbChar(d) == DigitChar(d)
  {
  }

  /** The character one turn appends is a decimal digit: the digit itself below ten, '0' from ten on. */
  lemma PushedCharIsDigit(temp: SuperLong)
    requires Normalised(temp.digits) && temp.sign == Positive && !IsZero(temp)
    ensures IsDigit(LimbChar(DivTen(temp).1.digits[0]))
  {
    var rem := DivTen(temp).1;
    if Val(temp.digits) < 10 {
      SmallIsOneLimb(temp.digits);
      assert rem.digits[0] == temp.digits[0] <= 9;
      LimbCharDigit(rem.digits[0]);
    } else {
      assert rem.digits[0] == 0;
      LimbCharDigit(0);
    }
  }

  /** One turn of the loop of `toString`. */
  lemma PushedStep(temp: SuperLong)
    requires Normalised(temp.digits) && temp.sign == Positive && !IsZero(temp)
    ensures PushedChars(temp) == [LimbChar(DivTen(temp).1.digits[0])] + PushedChars(DivTen(temp).0)
  {
  }

  /** Every character the loop appends is a decimal digit, and a non-zero value appends at least one. */
  lemma {:induction false} PushedDigits(temp: SuperLong)
    requires Normalised(temp.digits) && temp.sign == Positive
    ensures AllDigits(PushedChars(temp))
    ensures !IsZero(temp) ==> |PushedChars(temp)| >= 1
    decreases Val(temp.digits)
  {
    if !IsZero(temp) {
      var q := DivTen(temp).0;
      var c := LimbChar(DivTen(temp).1.digits[0]);
      PushedDigits(q);
      PushedCharIsDigit(temp);
      PushedStep(temp);
      AllDigitsCons(c, PushedChars(q));
    }
  }

  lemma AllDigitsCons(c: char, s: string)
    requires IsDigit(c) && AllDigits(s)
    ensures AllDigits([c] + s)
  {
  }

  /** From ten on, the first character appended is '0', whatever the value's last decimal digit. */
  lemma PushedFirstZero(temp: SuperLong)
    requires Normalised(temp.digits) && temp.sign == Positive && Val(temp.digits) >= 10
    ensures |PushedChars(temp)| >= 1 && PushedChars(temp)[0] == '0'
  {
    assert !IsZero(temp) by {
      ValSingle(0);
    }
    PushedStep(temp);
    assert DivTen(temp).1.digits[0] == 0;
    LimbCharDigit(0);
  }

  lemma AppendAssoc<T>(a: seq<T>, b: seq<T>, c: seq<T>)
    ensures (a + b) + c == a + (b + c)
  {
  }

  lemma ReverseSnoc<T>(p: seq<T>, c: T)
    ensures Reverse(p + [c]) == [c] + Reverse(p)
  {
    assert (p + [c])[..|p|] == p;
  }

  lemma ReverseDigits(p: string)
    requires AllDigits(p)
    ensures AllDigits(Reverse(p))
  {
  }

  /**
   * The result is an optional '-' and at least one digit: '-' leads exactly
   * when the value is Negative and not `isZero`, so the parser accepts every
   * string `toString` makes.
   */
  lemma ToStringShape(x: SuperLong)
    requires Normalised(x.digits)
    ensures |ToString(x)| >= 1
    ensures ToString(x)[0] == '-' <==> x.sign == Negative && !IsZero(x)
    ensures WellFormed(ToString(x)) && (ToString(x)[0] != '-' ==> AllDigits(ToString(x)))
    ensures Parse(ToString(x)).Success?
  {
    var r := ToString(x);
    if !IsZero(x) {
      var t := x.(sign := Positive);
      PushedDigits(t);
      var p := PushedChars(t);
      ReverseDigits(p);
      if x.sign == Negative {
        ReverseSnoc(p, '-');
        assert r == "-" + Reverse(p);
        assert DigitPart(r) == Reverse(p);
      } else {
        assert r == Reverse(p);
        assert DigitPart(r) == r;
      }
    } else {
      assert DigitPart(r) == r;
    }
    ParseErrors(r);
  }

  /** A value from ten on is printed with a last character '0', so 11 prints as "10". */
  lemma ToStringEndsInZero(x: SuperLong)
    requires Normalised(x.digits) && Val(x.digits) >= 10
    ensures |ToString(x)| >= 1 && ToString(x)[|ToString(x)| - 1] == '0'
  {
    ValSingle(0);
    var t := x.(sign := Positive);
    PushedFirstZero(t);
    var p := PushedChars(t);
    var s := if x.sign == Negative then p + "-" else p;
    assert ToString(x) == Reverse(s);
    assert s[0] == '0';
  }

  /** A magnitude from 1 to 9 is printed correctly: its digit, after a '-' when Negative. */
  lemma ToStringSmall(x: SuperLong)
    requires Normalised(x.digits) && 1 <= Val(x.digits) <= 9
    ensures ToString(x) == (if x.sign == Negative then "-" else "") + [DigitChar(Val(x.digits))]
  {
    ValSingle(0);
    var t := x.(sign := Positive);
    SmallIsOneLimb(t.digits);
    LimbCharDigit(t.digits[0]);
    var (q, rem) := DivTen(t);
    assert PushedChars(t) == [DigitChar(Val(x.digits))] + PushedChars(Zero());
    assert PushedChars(t) == [DigitChar(Val(x.digits))];
    if x.sign == Negative {
      ReverseSnoc(PushedChars(t), '-');
    }
  }
}
