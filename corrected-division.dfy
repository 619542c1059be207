/**
 * `divide_quo_rem` as written does not satisfy a == b * q + r: the remainder
 * it brings down and the products it compares go through the scaled `add`
 * and `multiply_simple`. It also gives a zero remainder of a Negative
 * dividend the sign Negative. This module exhibits both, then defines the
 * same long division over the fixed `add`, `subtract` and `multiply` and
 * proves that it is truncated division.
 */
module CorrectedDivision {
  import opened Limbs
  import opened Representation
  import opened Results
  import opened Construct
  import opened Additive
  import opened Multiplicative
  import opened Division
  import opened Conversion
  import opened Corrected

  // ---------------------------------------------------------------------------
  // What the division as written computes

  /** As written, 11 / 10 and 11 % 10 miss 11 == 10 * q + r: the remainder of the long path has low limb 0. */
  lemma DivideElevenByTen()
    ensures DivideQuoRem(FromInt64(11), Ten()).Success?
    ensures var (q, r) := DivideQuoRem(FromInt64(11), Ten()).value;
      ToInt(Ten()) * ToInt(q) + ToInt(r) != 11
  {
    var x := FromInt64(11);
    FromInt64Small(11);
    ValSingle(11);
    ValSingle(10);
    DivTenFacts(x);
    AbsCmpByValue(x, Ten());
    DivideSigns(x, Ten());
    var (q, r) := DivideQuoRem(x, Ten()).value;
    assert x.sign == Positive && Val(x.digits) == 11;
    assert r.sign == Positive;
    assert r.digits[0] == 0;
    ValRest(r.digits);
    var high: int := Val(Rest(r.digits));
    assert ToInt(r) == 256 * high;
    assert ToInt(q) == Val(q.digits) < 11;
    assert ToInt(Ten()) == 10;
    assert ToInt(Ten()) * ToInt(q) == 10 * ToInt(q);
    NotEleven(ToInt(q), high);
  }

  /** 11 is odd, so no multiple of 10 below 110 plus a multiple of 256 gives it. */
  lemma NotEleven(q: int, high: int)
    requires 0 <= q < 11 && high >= 0
    ensures 10 * q + 256 * high != 11
  {
  }

  /**
   * As written, (-1) / 1 gives the quotient -1 and the remainder
   * `Negated(Zero())`, the Negative `[0]` of `NegatedZero`: the remainder
   * takes a's sign even when it is zero.
   */
  lemma NegativeZeroRemainder()
    ensures DivideQuoRem(SuperLong(Negative, [1]), SuperLong(Positive, [1]))
      == Success((SuperLong(Negative, [1]), Negated(Zero())))
  {
    MinusOneLongDivision();
  }

  /** As written, the loop of (-1) / 1 collects the digit 1 and leaves the remainder `[0]`. */
  lemma MinusOneLongDivision()
    ensures LongDivision([1], SuperLong(Positive, [1]), 1) == DivState([1], Zero())
  {
    MinusOneStep();
  }

  /** Bringing the limb 1 down onto a zero remainder gives 256, by the scaled `add`. */
  lemma BringDownOne()
    ensures BringDown(Zero(), 1).sign == Positive && Val(BringDown(Zero(), 1).digits) == 256
  {
    var one := SuperLong(Positive, [1]);
    ValSingle(1);
    ValSingle(0);
    assert BringDown(Zero(), 1) == Add(Zero(), one) by {
      FromInt64Small(1);
    }
    AddSameSignScaled(Zero(), one);
  }

  /** As written, the product of `[1]` and a digit m has magnitude 256 * m. */
  lemma ProductOfOne(m: nat)
    requires m < 256
    ensures Val(Product(SuperLong(Positive, [1]), m).digits) == 256 * m
  {
    assert DigitSum([1]) == 1 by {
      assert [1][..0] == [];
    }
    ProductValue(SuperLong(Positive, [1]), m);
    assert Pow256(1) == 256;
  }

  /** Dividing the brought-down 256 by 1, the search picks the digit 1: 256 * 2 exceeds it. */
  lemma MinusOneDigit()
    ensures BringDown(Zero(), 1).sign == Positive && Val(BringDown(Zero(), 1).digits) == 256
    ensures DivStep(DivState([], Zero()), 1, SuperLong(Positive, [1])).quotient[0] == 1
  {
    var one := SuperLong(Positive, [1]);
    ValSingle(1);
    ValSingle(0);
    BringDownOne();
    DivStepDigit(DivState([], Zero()), 1, one);
    var d := DivStep(DivState([], Zero()), 1, one).quotient[0];
    ProductOfOne(1);
    ProductOfOne(d);
  }

  /** As written, the one turn of (-1) / 1 leaves the digit 1 and the remainder `[0]`. */
  lemma MinusOneStep()
    ensures DivStep(DivState([], Zero()), 1, SuperLong(Positive, [1])) == DivState([1], Zero())
  {
    var one := SuperLong(Positive, [1]);
    ValSingle(1);
    MinusOneDigit();
    var rem := BringDown(Zero(), 1);
    AbsCmpAtLeast(rem, one);
    var p := Product(one, 1);
    ProductOfOne(1);
    FromInt64Small(1);
    assert p.sign == Positive;
    AbsCmpByValue(rem, p);
    assert Minus(rem, p) == Zero();
  }

  // ---------------------------------------------------------------------------
  // The products and the search over the fixed operations

  /** `divisor * m` by the fixed `multiply`: exact and canonical. */
  function FixedProduct(divisor: SuperLong, m: nat): (r: SuperLong)
    requires Normalised(divisor.digits) && m < 256
    ensures Canonical(r) && ToInt(r) == ToInt(divisor) * m
  {
    FromInt64Exact(m);
    FixedMultiply(divisor, FromInt64(m))
  }

  /** One probe of the search: is divisor * m at most the remainder, by `abscmp`. */
  predicate FixedFits(divisor: SuperLong, rem: SuperLong, m: nat)
    requires Normalised(divisor.digits) && m < 256
  {
    AbsCmp(FixedProduct(divisor, m), rem) <= 0
  }

  /** The outcome of every probe the search can make. */
  function FixedFitTable(divisor: SuperLong, rem: SuperLong): (t: seq<bool>)
    requires Normalised(divisor.digits)
    ensures IsTable(t)
  {
    seq(256, m requires 0 <= m < 256 => FixedFits(divisor, rem, m))
  }

  /** The table holds the probe of each digit. */
  lemma FixedFitTableAt(divisor: SuperLong, rem: SuperLong, m: nat)
    requires Normalised(divisor.digits) && m < 256
    ensures FixedFitTable(divisor, rem)[m] == FixedFits(divisor, rem, m)
  {
  }

  /** With a canonical Positive divisor and a normalised remainder, digit m fits iff divisor * m <= rem. */
  lemma FixedFitsIff(divisor: SuperLong, rem: SuperLong, m: nat)
    requires Canonical(divisor) && divisor.sign == Positive && Normalised(rem.digits) && m < 256
    ensures FixedFits(divisor, rem, m) <==> Val(divisor.digits) * m <= Val(rem.digits)
  {
    var p := FixedProduct(divisor, m);
    ProductNonNegative(divisor, p, m);
    AbsCmpAtMost(p, rem);
    assert FixedFits(divisor, rem, m) == (AbsCmp(p, rem) <= 0);
  }

  /** `abscmp(x, y) >= 0` holds exactly when x's magnitude is at least y's. */
  lemma AbsCmpAtLeast(x: SuperLong, y: SuperLong)
    requires Normalised(x.digits) && Normalised(y.digits)
    ensures AbsCmp(x, y) >= 0 <==> Val(x.digits) >= Val(y.digits)
  {
    AbsCmpByValue(x, y);
  }

  /** `abscmp(x, y) <= 0` holds exactly when x's magnitude is at most y's. */
  lemma AbsCmpAtMost(x: SuperLong, y: SuperLong)
    requires Normalised(x.digits) && Normalised(y.digits)
    ensures AbsCmp(x, y) <= 0 <==> Val(x.digits) <= Val(y.digits)
  {
    AbsCmpByValue(x, y);
  }

  /** A product of a Positive divisor and a digit is the Positive magnitude divisor * m. */
  lemma ProductNonNegative(divisor: SuperLong, p: SuperLong, m: nat)
    requires divisor.sign == Positive && Canonical(p) && ToInt(p) == ToInt(divisor) * m
    ensures p.sign == Positive && Val(p.digits) == Val(divisor.digits) * m
  {
    MulMono(Val(divisor.digits), 0, m);
    CanonicalNonNegative(p);
  }

  /** The fixed test is monotone, so the search finds the largest fitting digit. */
  lemma FixedFitsMonotone(divisor: SuperLong, rem: SuperLong)
    requires Canonical(divisor) && divisor.sign == Positive && Canonical(rem)
    ensures Monotone(FixedFitTable(divisor, rem))
  {
    var t := FixedFitTable(divisor, rem);
    forall m, n | 1 <= m <= n <= 255 && t[n]
      ensures t[m]
    {
      FixedFitTableAt(divisor, rem, m);
      FixedFitTableAt(divisor, rem, n);
      FixedFitsIff(divisor, rem, m);
      FixedFitsIff(divisor, rem, n);
      MulMono(Val(divisor.digits), m, n);
    }
  }

  /** For divisor <= rem < 256 * divisor the search answers the d with divisor * d <= rem < divisor * (d + 1). */
  lemma FixedDigitBounds(divisor: SuperLong, rem: SuperLong)
    requires Canonical(divisor) && divisor.sign == Positive && Canonical(rem)
    requires Val(divisor.digits) <= Val(rem.digits) < 256 * Val(divisor.digits)
    ensures var d := SearchDigit(FixedFitTable(divisor, rem), 1, 255, 0);
      1 <= d <= 255 && Val(divisor.digits) * d <= Val(rem.digits) < Val(divisor.digits) * (d + 1)
  {
    var t := FixedFitTable(divisor, rem);
    var d := SearchDigit(t, 1, 255, 0);
    FixedFitsMonotone(divisor, rem);
    SearchDigitFindsLargest(t);
    FixedFitTableAt(divisor, rem, 1);
    FixedFitsIff(divisor, rem, 1);
    FixedFitTableAt(divisor, rem, d);
    FixedFitsIff(divisor, rem, d);
    if d < 255 {
      FixedFitTableAt(divisor, rem, d + 1);
      FixedFitsIff(divisor, rem, d + 1);
    }
  }

  // ---------------------------------------------------------------------------
  // The long division loop over the fixed operations

  /** The remainder after bringing down one limb, by the fixed `add`. */
  function FixedBringDown(rem: SuperLong, limb: Limb): (r: SuperLong)
    ensures Normalised(r.digits)
  {
    FixedAdd(Multi256n(rem, 1), FromInt64(limb))
  }

  /** Bringing down a limb shifts the remainder up one limb and adds the limb, exactly. */
  lemma FixedBringDownValue(rem: SuperLong, limb: Limb)
    requires Canonical(rem) && rem.sign == Positive
    ensures var r := FixedBringDown(rem, limb);
      Canonical(r) && r.sign == Positive && Val(r.digits) == 256 * Val(rem.digits) + limb
  {
    var s := Multi256n(rem, 1);
    ShiftCanonical(rem, 1);
    FromInt64Exact(limb);
    FixedAddValue(s, FromInt64(limb));
    CanonicalNonNegative(FixedBringDown(rem, limb));
  }

  /**
   * The digit a brought-down remainder yields and what is left of it: when the
   * remainder reaches the divisor, the digit the search finds and the remainder
   * less that multiple of the divisor; otherwise the digit 0 and the remainder.
   */
  function FixedTurn(divisor: SuperLong, rem: SuperLong): (Limb, SuperLong)
    requires Normalised(divisor.digits)
  {
    if AbsCmp(rem, divisor) >= 0 then
      var best := SearchDigit(FixedFitTable(divisor, rem), 1, 255, 0);
      (best, FixedSubtract(rem, FixedProduct(divisor, best)))
    else
      (0, rem)
  }

  /** One turn of the outer loop, over the fixed operations. */
  function FixedDivStep(st: DivState, limb: Limb, divisor: SuperLong): (r: DivState)
    requires Normalised(divisor.digits)
    ensures |r.quotient| == |st.quotient| + 1 && r.quotient == st.quotient + [r.quotient[|st.quotient|]]
  {
    var turn := FixedTurn(divisor, FixedBringDown(st.remainder, limb));
    DivState(st.quotient + [turn.0], turn.1)
  }

  /**
   * One turn divides 256 * rem + limb by the divisor: the collected digit d
   * and the new remainder rem' satisfy 256 * rem + limb == divisor * d + rem'
   * with rem' canonical, Positive and below the divisor.
   */
  lemma FixedDivStepValue(st: DivState, limb: Limb, divisor: SuperLong)
    requires Canonical(divisor) && divisor.sign == Positive && !IsZero(divisor)
    requires Canonical(st.remainder) && st.remainder.sign == Positive
    requires Val(st.remainder.digits) < Val(divisor.digits)
    ensures var r := FixedDivStep(st, limb, divisor);
      Canonical(r.remainder) && r.remainder.sign == Positive && Val(r.remainder.digits) < Val(divisor.digits)
      && 256 * Val(st.remainder.digits) + limb == Val(divisor.digits) * r.quotient[|st.quotient|] + Val(r.remainder.digits)
  {
    var rem := FixedBringDown(st.remainder, limb);
    FixedBringDownValue(st.remainder, limb);
    var turn := FixedTurn(divisor, rem);
    var r := FixedDivStep(st, limb, divisor);
    assert r == DivState(st.quotient + [turn.0], turn.1);
    assert r.quotient[|st.quotient|] == turn.0;
    TurnValue(divisor, rem);
  }

  /** A remainder below 256 * divisor is cut below the divisor, and what the turn takes is the digit times the divisor. */
  lemma TurnValue(divisor: SuperLong, rem: SuperLong)
    requires Canonical(divisor) && divisor.sign == Positive && Canonical(rem) && rem.sign == Positive
    requires Val(rem.digits) < 256 * Val(divisor.digits)
    ensures var (d, left) := FixedTurn(divisor, rem);
      Canonical(left) && left.sign == Positive && Val(left.digits) < Val(divisor.digits)
      && Val(rem.digits) == Val(divisor.digits) * d + Val(left.digits)
  {
    AbsCmpAtLeast(rem, divisor);
    if AbsCmp(rem, divisor) >= 0 {
      DigitTurn(divisor, rem);
    } else {
      assert Val(divisor.digits) * 0 == 0;
    }
  }

  /** A remainder with divisor <= rem < 256 * divisor is cut below the divisor by the digit the search finds. */
  lemma DigitTurn(divisor: SuperLong, rem: SuperLong)
    requires Canonical(divisor) && divisor.sign == Positive && Canonical(rem) && rem.sign == Positive
    requires Val(divisor.digits) <= Val(rem.digits) < 256 * Val(divisor.digits)
    ensures var best := SearchDigit(FixedFitTable(divisor, rem), 1, 255, 0);
      var left := FixedSubtract(rem, FixedProduct(divisor, best));
      Canonical(left) && left.sign == Positive && Val(left.digits) < Val(divisor.digits)
      && Val(rem.digits) == Val(divisor.digits) * best + Val(left.digits)
  {
    var best := SearchDigit(FixedFitTable(divisor, rem), 1, 255, 0);
    FixedDigitBounds(divisor, rem);
    var p := FixedProduct(divisor, best);
    ProductNonNegative(divisor, p, best);
    var left := FixedSubtract(rem, p);
    FixedSubtractValue(rem, p);
    CanonicalNonNegative(left);
  }

  /** The state after the top k limbs of ds, from no digits and a zero remainder. */
  function FixedLongDivision(ds: seq<Limb>, divisor: SuperLong, k: nat): (r: DivState)
    requires k <= |ds| && Normalised(divisor.digits)
    ensures |r.quotient| == k
  {
    if k == 0 then DivState([], Zero())
    else FixedDivStep(FixedLongDivision(ds, divisor, k - 1), ds[|ds| - k], divisor)
  }

  /** A limb in front of a vector counts once, the vector 256 times. */
  lemma ValCons(d: Limb, s: seq<Limb>)
    ensures Val([d] + s) == d + 256 * Val(s)
  {
    ValRest([d] + s);
    assert ([d] + s)[1..] == s;
  }

  /** The next digit collected becomes the least significant limb of the reversed quotient. */
  lemma ValReverseSnoc(ds: seq<Limb>, d: Limb)
    ensures Val(Reverse(ds + [d])) == d + 256 * Val(Reverse(ds))
  {
    ReverseSnoc(ds, d);
    ValCons(d, Reverse(ds));
  }

  /** The top k limbs are the limb at |ds| - k below the top k' == k - 1 limbs. */
  lemma ValSuffix(ds: seq<Limb>, k: nat, k': nat)
    requires 1 <= k <= |ds| && k' == k - 1
    ensures Val(ds[|ds| - k..]) == ds[|ds| - k] + 256 * Val(ds[|ds| - k'..])
  {
    assert ds[|ds| - k..] == [ds[|ds| - k]] + ds[|ds| - k'..];
    ValCons(ds[|ds| - k], ds[|ds| - k'..]);
  }

  /** whole == v * q + rem, kept as one fact so that the long division's induction carries it unchanged. */
  predicate DividesAs(whole: int, v: int, q: int, rem: int)
  {
    whole == v * q + rem
  }

  /** The identity of one turn carried over the digits collected so far. */
  lemma DivisionArith(v: int, q: int, rem: int, limb: int, d: int, rem': int, whole: int, prevWhole: int, newQ: int)
    requires whole == limb + 256 * prevWhole && DividesAs(prevWhole, v, q, rem)
    requires 256 * rem + limb == v * d + rem' && newQ == d + 256 * q
    ensures DividesAs(whole, v, newQ, rem')
  {
    assert v * (d + 256 * q) == v * d + 256 * (v * q);
  }

  /** The invariant of the long division after some turns: the remainder is canonical, Positive and below the divisor. */
  predicate RemainderBelow(st: DivState, divisor: SuperLong)
  {
    Canonical(st.remainder) && st.remainder.sign == Positive && Val(st.remainder.digits) < Val(divisor.digits)
  }

  /** A divisor the long division can work with: canonical, Positive and not zero. */
  predicate DivisorOk(divisor: SuperLong)
  {
    Canonical(divisor) && divisor.sign == Positive && !IsZero(divisor)
  }

  /**
   * The invariant after the top k limbs of ds: the digits collected (most
   * significant first) and the remainder divide those limbs by the divisor,
   * with the remainder canonical, Positive and below the divisor.
   */
  predicate LongInv(ds: seq<Limb>, divisor: SuperLong, k: nat, st: DivState)
    requires k <= |ds|
  {
    RemainderBelow(st, divisor)
    && DividesAs(Val(ds[|ds| - k..]), Val(divisor.digits), Val(Reverse(st.quotient)), Val(st.remainder.digits))
  }

  /** Every turn of the fixed long division keeps its invariant. */
  lemma {:induction false} FixedLongDivisionValue(ds: seq<Limb>, divisor: SuperLong, k: nat)
    requires k <= |ds| && DivisorOk(divisor)
    ensures LongInv(ds, divisor, k, FixedLongDivision(ds, divisor, k))
  {
    if k == 0 {
      LongStart(ds, divisor);
    } else {
      var k' := k - 1;
      FixedLongDivisionValue(ds, divisor, k');
      LongStep(ds, divisor, k, k', FixedLongDivision(ds, divisor, k'));
    }
  }

  /** Before the first turn, no digits and the zero remainder divide the empty top of ds. */
  lemma LongStart(ds: seq<Limb>, divisor: SuperLong)
    requires DivisorOk(divisor)
    ensures LongInv(ds, divisor, 0, DivState([], Zero()))
  {
    NormalisedNonZero(divisor.digits);
    ValSingle(0);
    assert ds[|ds|..] == [];
  }

  /** One turn on the next limb keeps the invariant. */
  lemma LongStep(ds: seq<Limb>, divisor: SuperLong, k: nat, k': nat, prev: DivState)
    requires 1 <= k <= |ds| && k' == k - 1 && DivisorOk(divisor) && LongInv(ds, divisor, k', prev)
    ensures LongInv(ds, divisor, k, FixedDivStep(prev, ds[|ds| - k], divisor))
  {
    FixedDivStepValue(prev, ds[|ds| - k], divisor);
    LongTurn(ds, k, k', Val(divisor.digits), prev, FixedDivStep(prev, ds[|ds| - k], divisor));
  }

  /**
   * The inductive step of the division, on the states alone: one more turn
   * that divides 256 * rem + limb by v extends the division of the top k'
   * limbs to the top k limbs.
   */
  lemma LongTurn(ds: seq<Limb>, k: nat, k': nat, v: nat, prev: DivState, st: DivState)
    requires 1 <= k <= |ds| && k' == k - 1
    requires DividesAs(Val(ds[|ds| - k'..]), v, Val(Reverse(prev.quotient)), Val(prev.remainder.digits))
    requires |st.quotient| == |prev.quotient| + 1 && st.quotient == prev.quotient + [st.quotient[|prev.quotient|]]
    requires 256 * Val(prev.remainder.digits) + ds[|ds| - k] == v * st.quotient[|prev.quotient|] + Val(st.remainder.digits)
    ensures DividesAs(Val(ds[|ds| - k..]), v, Val(Reverse(st.quotient)), Val(st.remainder.digits))
  {
    var d := st.quotient[|prev.quotient|];
    ValReverseSnoc(prev.quotient, d);
    ValSuffix(ds, k, k');
    DivisionArith(v, Val(Reverse(prev.quotient)), Val(prev.remainder.digits), ds[|ds| - k], d,
      Val(st.remainder.digits), Val(ds[|ds| - k..]), Val(ds[|ds| - k'..]), Val(Reverse(st.quotient)));
  }

  // ---------------------------------------------------------------------------
  // divide_quo_rem

  /**
   * `divide_quo_rem` over the fixed operations, with a zero remainder left
   * Positive instead of taking a's sign.
   */
  function FixedDivideQuoRem(a: SuperLong, b: SuperLong): (r: Result<(SuperLong, SuperLong), DivError>)
    requires Normalised(a.digits) && Normalised(b.digits)
    ensures r.Failure? <==> IsZero(b)
  {
    if IsZero(b) then Failure(DivisionByZero)
    else if IsZero(a) then Success((Zero(), Zero()))
    else if AbsCmp(a.(sign := Positive), b.(sign := Positive)) < 0 then Success((Zero(), a))
    else Success(FixedDivideLong(a, b))
  }

  /** The long path of `divide_quo_rem`: the outer loop over every limb of |a|, then the signs. */
  function FixedDivideLong(a: SuperLong, b: SuperLong): (r: (SuperLong, SuperLong))
    requires Normalised(b.digits)
  {
    FinishDivision(a, b, FixedLongDivision(a.digits, b.(sign := Positive), |a.digits|))
  }

  /** After the loop: the digits reversed and trimmed, the remainder trimmed, then the signs. */
  function FinishDivision(a: SuperLong, b: SuperLong, st: DivState): (r: (SuperLong, SuperLong))
  {
    var quotient := Trim(SuperLong(Positive, Reverse(st.quotient)));
    var remainder := Trim(st.remainder);
    (quotient.(sign := if a.sign == b.sign then Positive else Negative),
     if IsZero(remainder) then remainder else remainder.(sign := a.sign))
  }

  /** The signs of truncated division: |a| == |b| * q + r gives a == b * (+-q) + (+-r). */
  lemma SignedDivisionArith(va: int, vb: int, q: int, rem: int, negA: bool, negB: bool, ia: int, ib: int, iq: int, ir: int)
    requires va == vb * q + rem
    requires ia == (if negA then -va else va) && ib == (if negB then -vb else vb)
    requires iq == (if negA == negB then q else -q) && ir == (if negA then -rem else rem)
    ensures ia == ib * iq + ir
  {
    NegatedFactors(vb, q);
  }

  /**
   * From a loop state that divides |a| by |b| (with |a| >= |b|), the
   * trimmed and signed results are canonical and satisfy a == b * q + r,
   * |r| < |b|, with r zero or of a's sign.
   */
  lemma FinishDivisionValue(a: SuperLong, b: SuperLong, st: DivState)
    requires Canonical(a) && RemainderBelow(st, b) && |st.quotient| >= 1
    requires DividesAs(Val(a.digits), Val(b.digits), Val(Reverse(st.quotient)), Val(st.remainder.digits))
    requires Val(a.digits) >= Val(b.digits)
    ensures var (q, r) := FinishDivision(a, b, st);
      Canonical(q) && Canonical(r)
      && ToInt(a) == ToInt(b) * ToInt(q) + ToInt(r)
      && Val(r.digits) < Val(b.digits)
      && (a.sign == Positive ==> ToInt(r) >= 0) && (a.sign == Negative ==> ToInt(r) <= 0)
  {
    var bigQ: int := Val(Reverse(st.quotient));
    var rem: int := Val(st.remainder.digits);
    assert Val(b.digits) * bigQ > 0;
    assert bigQ >= 1;
    var x := SuperLong(Positive, Reverse(st.quotient));
    TrimCanonical(x);
    var qt := Trim(x);
    MagnitudeZero(qt);
    TrimCanonicalFixed(st.remainder);
    MagnitudeZero(st.remainder);
    var q := qt.(sign := if a.sign == b.sign then Positive else Negative);
    var r := if IsZero(st.remainder) then st.remainder else st.remainder.(sign := a.sign);
    assert FinishDivision(a, b, st) == (q, r);
    assert ToInt(q) == (if a.sign == b.sign then bigQ else -bigQ);
    assert ToInt(r) == (if a.sign == Negative then -rem else rem);
    SignedDivisionArith(Val(a.digits), Val(b.digits), bigQ, rem, a.sign == Negative, b.sign == Negative,
      ToInt(a), ToInt(b), ToInt(q), ToInt(r));
  }

  /** The long path gives canonical q and r with a == b * q + r, |r| < |b|, and r zero or of a's sign. */
  lemma FixedLongQuoRem(a: SuperLong, b: SuperLong)
    requires Canonical(a) && Canonical(b) && !IsZero(b)
    requires Val(a.digits) >= Val(b.digits)
    ensures var (q, r) := FixedDivideLong(a, b);
      Canonical(q) && Canonical(r)
      && ToInt(a) == ToInt(b) * ToInt(q) + ToInt(r)
      && Val(r.digits) < Val(b.digits)
      && (a.sign == Positive ==> ToInt(r) >= 0) && (a.sign == Negative ==> ToInt(r) <= 0)
  {
    var divisor := b.(sign := Positive);
    FixedLongDivisionValue(a.digits, divisor, |a.digits|);
    assert a.digits[|a.digits| - |a.digits|..] == a.digits;
    FinishDivisionValue(a, b, FixedLongDivision(a.digits, divisor, |a.digits|));
  }

  /**
   * The fixed division is truncated division: it fails exactly on a zero
   * divisor, and otherwise gives canonical q and r with a == b * q + r,
   * |r| < |b|, and r zero or of a's sign.
   */
  lemma FixedDivideValue(a: SuperLong, b: SuperLong)
    requires Canonical(a) && Canonical(b)
    ensures FixedDivideQuoRem(a, b).Failure? <==> IsZero(b)
    ensures !IsZero(b) ==> var (q, r) := FixedDivideQuoRem(a, b).value;
      Canonical(q) && Canonical(r)
      && ToInt(a) == ToInt(b) * ToInt(q) + ToInt(r)
      && Val(r.digits) < Val(b.digits)
      && (ToInt(a) >= 0 ==> ToInt(r) >= 0) && (ToInt(a) <= 0 ==> ToInt(r) <= 0)
  {
    if !IsZero(b) {
      NormalisedNonZero(b.digits);
      ValSingle(0);
      if IsZero(a) {
        assert FixedDivideQuoRem(a, b) == Success((Zero(), Zero()));
      } else {
        NormalisedNonZero(a.digits);
        AbsCmpAtLeast(a.(sign := Positive), b.(sign := Positive));
        if Val(a.digits) < Val(b.digits) {
          assert FixedDivideQuoRem(a, b) == Success((Zero(), a));
        } else {
          FixedLongQuoRem(a, b);
        }
      }
    }
  }
}
