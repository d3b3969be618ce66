/** A division that rounds to the nearest whole number, and the balance at which it gives ten to the 21. */
module Rounding {
  import opened Wrappers
  import opened NatMath
  import opened Strings
  import opened Decimals
  import opened AmountStrings
  import opened RawUnits
  import opened BalanceTexts
  import opened BalanceBounds
  import opened Funds

  // ------------------------------------------------------------------ rounding to the nearest

  /** 0.d1d2...dk times ten to the 21, a half going up. */
  function NearestWhole(n: nat, k: nat): nat {
    HalfUp(Product(n, TenTo(PLAIN_DIGITS)), TenTo(k))
  }

  function Nearest(x: Dec): nat {
    if IsDec(x) then NearestWhole(Int(x.digits), |x.digits|) else 0
  }

  lemma {:induction false} HalfUpWhole(q: nat, t: nat)
    requires t > 0
    ensures HalfUp(Product(q, t), t) == q
  {
    var n := Product(q, t);
    Distribute(q, 1, t + t);
    QuotientIs(n + n + t, t + t, q);
  }

  lemma {:induction false} HalfUpBounds(n: nat, t: nat, low: nat, high: nat)
    requires t > 0 && Product(low, t) <= n <= Product(high, t)
    ensures low <= HalfUp(n, t) <= high
  {
    HalfUpWhole(low, t);
    HalfUpWhole(high, t);
    var l, h := Product(low, t), Product(high, t);
    QuotientMonotone(l + l + t, n + n + t, t + t);
    QuotientMonotone(n + n + t, h + h + t, t + t);
  }

  lemma {:induction false} NearestRange(n: nat, k: nat)
    requires k > 0 && TenTo(k - 1) <= n < TenTo(k)
    ensures TenTo(20) <= NearestWhole(n, k) <= TenTo(21)
  {
    TimesMonotone(TenTo(k - 1), n, TenTo(21));
    TimesMonotone(n, TenTo(k), TenTo(21));
    TenToAdd(k - 1, 21);
    TenToAdd(20, k);
    Commutes(TenTo(k), TenTo(21));
    HalfUpBounds(Product(n, TenTo(21)), TenTo(k), TenTo(20), TenTo(21));
  }

  lemma Commutes(a: nat, b: nat)
    ensures Product(a, b) == Product(b, a)
  {
  }

  lemma {:induction false} NearestExact(n: nat, k: nat)
    requires k <= PLAIN_DIGITS
    ensures NearestWhole(n, k) == Pad(n, PLAIN_DIGITS - k)
  {
    PadIs(n, PLAIN_DIGITS - k);
    ScaleTwice(n, PLAIN_DIGITS - k, k);
    HalfUpWhole(Product(n, TenTo(PLAIN_DIGITS - k)), TenTo(k));
  }

  lemma {:induction false} HalfUpCross(n: nat, t: nat, m: nat, u: nat)
    requires t > 0 && u > 0 && Product(n, u) <= Product(m, t)
    ensures HalfUp(n, t) <= HalfUp(m, u)
  {
    var q, r := HalfUp(n, t), HalfUp(m, u);
    if q > r {
      TimesMonotone(r + 1, q, t + t);
      assert (r + 1) * (t + t) <= n + n + t;
      CrossedHalves(n, t, m, u, r + 1);
    }
  }

  lemma CrossedHalves(n: nat, t: nat, m: nat, u: nat, q: nat)
    requires t > 0 && u > 0 && Product(n, u) <= Product(m, t)
    requires q * (t + t) <= n + n + t
    ensures q * (u + u) <= m + m + u
  {
    TimesMonotone(q * (t + t), n + n + t, u);
    assert q * (t + t) * u == q * (u + u) * t;
    assert (n + n + t) * u == n * u + n * u + t * u;
    assert (m + m + u) * t == m * t + m * t + t * u;
    if m + m + u < q * (u + u) {
      LessScaled(m + m + u, q * (u + u), t);
    }
  }

  lemma {:induction false} NearestMonotone(a: nat, k: nat, b: nat, l: nat)
    requires Pad(a, l) <= Pad(b, k)
    ensures NearestWhole(a, k) <= NearestWhole(b, l)
  {
    PadIs(a, l);
    PadIs(b, k);
    ScaleTwice(a, l, PLAIN_DIGITS);
    ScaleTwice(a, PLAIN_DIGITS, l);
    ScaleTwice(b, k, PLAIN_DIGITS);
    ScaleTwice(b, PLAIN_DIGITS, k);
    TimesMonotone(a * TenTo(l), b * TenTo(k), TenTo(PLAIN_DIGITS));
    HalfUpCross(Product(a, TenTo(PLAIN_DIGITS)), TenTo(k), Product(b, TenTo(PLAIN_DIGITS)), TenTo(l));
  }

  /** Rounding to the nearest whole number is such a division. */
  lemma {:induction false} NearestIsDivision()
    ensures IsDivision(Nearest)
  {
    PlainLimit();
    assert TenTo(21) == 10 * TenTo(20);
    forall x | IsDec(x) && IsLarge(x) ensures PLAIN_LIMIT <= 10 * Nearest(x) <= 10 * PLAIN_LIMIT {
      LeadingDigit(x.digits);
      NearestRange(Int(x.digits), |x.digits|);
    }
    forall x | IsDec(x) && IsLarge(x) && |x.digits| <= PLAIN_DIGITS
      ensures Nearest(x) == Pad(Int(x.digits), PLAIN_DIGITS - |x.digits|)
    {
      NearestExact(Int(x.digits), |x.digits|);
    }
    forall x, y | IsDec(x) && IsDec(y) && MantissaAtMost(x, y) ensures Nearest(x) <= Nearest(y) {
      NearestMonotone(Int(x.digits), |x.digits|, Int(y.digits), |y.digits|);
    }
  }

  // ------------------------------------------------------------------ the balance below ten to the 22

  const TOP: nat := 9_999_999_999_999_999_999_999

  lemma {:induction false} TopDigits(raw: nat)
    requires raw == TOP
    ensures raw + 1 == TenTo(22)
  {
    PlainLimit();
  }

  lemma {:induction false} CutBelow(raw: nat, cut: nat, k: nat)
    requires HasMagnitude(raw, 20 + cut + k) && cut >= 1 && raw < TenTo(22 + k)
    ensures cut == 1
  {
    if cut > 1 {
      TenToMonotone(22 + k, 20 + cut + k);
    }
  }

  /** Of a balance with 22 digits before the point one is divided off. */
  lemma {:induction false} CutOnce(raw: nat, decimals: nat)
    requires decimals <= DIVISION_PLACES && TenTo(PLAIN_DIGITS + decimals) <= raw < TenTo(22 + decimals)
    ensures IsLargeBalance(raw, decimals) && Cut(raw, decimals) == 1
  {
    LargeIff(raw, decimals);
    Magnitude(raw, decimals);
    CutBelow(raw, Cut(raw, decimals), decimals);
  }

  lemma {:induction false} TopCut(raw: nat)
    requires raw + 1 == TenTo(22)
    ensures IsLargeBalance(raw, 0) && Cut(raw, 0) == 1
  {
    CutOnce(raw, 0);
  }

  lemma {:induction false} OnePadded(digits: string, k: nat)
    requires digits == "1"
    ensures AllDigits(digits) && Pad(Int(digits), k) == TenTo(k)
  {
    IntOfOne();
    PadIs(1, k);
  }

  lemma {:induction false} PowerQuotient(divide: Division, x: Dec, k: nat)
    requires IsDivision(divide) && x == Dec("1", x.point) && x.point > PLAIN_DIGITS && k == PLAIN_DIGITS - 1
    ensures divide(x) == TenTo(k)
  {
    OnePadded(x.digits, k);
  }

  lemma {:induction false} OverflowShownAs(divide: Division, x: Dec)
    requires Overflows(divide, x)
    ensures Truncated(divide, x, BALANCE_DECIMAL_PLACES) == "1e+21" + Zeros(Excess(x))
  {
    OverflowTruncated(divide, x, BALANCE_DECIMAL_PLACES);
    OverflowText(divide(x), Excess(x));
  }

  lemma {:induction false} OverflowRoundsUp(divide: Division, raw: nat, decimals: nat)
    requires IsLargeBalance(raw, decimals) && divide(DecOf(raw, decimals)) == PLAIN_LIMIT
    ensures RoundsUp(divide, raw, decimals)
  {
    Magnitude(raw, decimals);
    RestoredLimit(divide(DecOf(raw, decimals)), Cut(raw, decimals), raw, decimals);
  }

  /** A balance whose quotient comes out as ten to the 21 is overstated by its text. */
  lemma {:induction false} OverflowOverstates(divide: Division, raw: nat, decimals: nat)
    requires IsLargeBalance(raw, decimals) && divide(DecOf(raw, decimals)) == PLAIN_LIMIT
    ensures TokenBalance(divide, raw, decimals) == "1e+21" + Zeros(Cut(raw, decimals))
    ensures RoundsUp(divide, raw, decimals)
  {
    OverflowShownAs(divide, DecOf(raw, decimals));
    OverflowRoundsUp(divide, raw, decimals);
  }

  lemma LengthenedOnce()
    ensures "1e+21" + Zeros(1) == "1e+210" && Lengthened(1) == 210
  {
    assert TenTo(1) == 10;
  }

  /** Where the quotient of 10^22 - 1 units comes out as 10^21, the text is "1e+210", and one unit more is
      shown as less. */
  lemma {:induction false} TopOverstated(divide: Division, raw: nat)
    requires IsDivision(divide) && raw == TOP && divide(DecOf(raw, 0)) == PLAIN_LIMIT
    ensures TokenBalance(divide, raw, 0) == "1e+210"
    ensures RoundsUp(divide, raw, 0) && ShowsLess(divide, raw, raw + 1, 0)
  {
    TopDigits(raw);
    TopCut(raw);
    LengthenedOnce();
    OverflowOverstates(divide, raw, 0);
    NextSmaller(divide, raw + 1, PLAIN_DIGITS - 1);
  }

  lemma {:induction false} PowerShown(divide: Division, raw: nat, x: Dec, n: nat)
    requires x == DecOf(raw, 0) && IsLarge(x) && Excess(x) == 2 && divide(x) == n && n != PLAIN_LIMIT
    ensures Cut(raw, 0) == 2 && IsLargeBalance(raw, 0) && Shown(divide, raw, 0) == Product(n, TenTo(8))
  {
  }

  lemma {:induction false} NextSmaller(divide: Division, raw: nat, k: nat)
    requires IsDivision(divide) && raw == TenTo(22) && k == PLAIN_DIGITS - 1
    ensures Cut(raw, 0) == 2 && divide(DecOf(raw, 0)) == TenTo(k) != PLAIN_LIMIT && IsLargeBalance(raw, 0)
    ensures Shown(divide, raw, 0) == TenTo(k + 8)
  {
    PlainLimit();
    DecOfPower(22);
    PowerQuotient(divide, DecOf(raw, 0), k);
    PowerShown(divide, raw, DecOf(raw, 0), TenTo(k));
    TenToAdd(k, 8);
  }

  lemma {:induction false} TopShown(divide: Division, raw: nat)
    requires Cut(raw, 0) == 1 && IsLargeBalance(raw, 0) && divide(DecOf(raw, 0)) == PLAIN_LIMIT
    ensures Shown(divide, raw, 0) >= TenTo(29)
  {
    LengthenedOnce();
    TenToMonotone(29, 216);
  }

  lemma {:induction false} TopMantissa(x: Dec, raw: nat)
    requires IsDec(x) && x.point == 22 && FractionDigits(x) == 0 && Units(x, 0) == raw
    ensures Nearest(x) == HalfUp(raw, 10)
  {
    var a, k := Int(x.digits), |x.digits|;
    ScaleTwice(a, 22 - k, k);
    ScaleTwice(a, PLAIN_DIGITS, 1);
    assert TenTo(1) == 10;
    HalfUpCross(Product(a, TenTo(PLAIN_DIGITS)), TenTo(k), raw, 10);
    HalfUpCross(raw, 10, Product(a, TenTo(PLAIN_DIGITS)), TenTo(k));
  }

  lemma TopHalf(raw: nat)
    requires raw == TOP
    ensures HalfUp(raw, 10) == PLAIN_LIMIT
  {
    QuotientIs(raw + raw + 10, 20, PLAIN_LIMIT);
  }

  /** Rounding to the nearest gives that quotient. */
  lemma {:induction false} NearestOverflows(raw: nat)
    requires raw == TOP
    ensures Nearest(DecOf(raw, 0)) == PLAIN_LIMIT
  {
    TopDigits(raw);
    TopCut(raw);
    BalanceUnits(raw, 0);
    TopMantissa(DecOf(raw, 0), raw);
    TopHalf(raw);
  }

  // ------------------------------------------------------------------ and so do double-precision Numbers

  function TwoTo(k: nat): nat {
    if k == 0 then 1 else 2 * TwoTo(k - 1)
  }

  function Binary(m: nat, k: nat): nat {
    m * TwoTo(k)
  }

  /** The whole Numbers, whose significand has at most 53 bits. */
  ghost predicate IsNumber(n: nat) {
    exists m: nat, k: nat :: m < 0x20_0000_0000_0000 && n == Binary(m, k)
  }

  lemma EvenBinary(m: nat, k: nat)
    requires k > 0
    ensures Binary(m, k) == 2 * Binary(m, k - 1)
  {
    Doubled(m, TwoTo(k - 1));
  }

  lemma Doubled(m: nat, t: nat)
    ensures m * (2 * t) == 2 * (m * t)
  {
  }

  lemma {:induction false} OddNumber(n: nat)
    requires n % 2 == 1 && IsNumber(n)
    ensures n < 0x20_0000_0000_0000
  {
    var m: nat, k: nat :| m < 0x20_0000_0000_0000 && n == Binary(m, k);
    if k > 0 {
      EvenBinary(m, k);
    }
  }

  lemma {:induction false} HalfNumber(n: nat)
    requires IsNumber(2 * n)
    ensures IsNumber(n) || n < 0x20_0000_0000_0000
  {
    var m: nat, k: nat :| m < 0x20_0000_0000_0000 && 2 * n == Binary(m, k);
    if k > 0 {
      EvenBinary(m, k);
    }
  }

  lemma PowerOfTenNumber(n: nat, m: nat, j: nat)
    requires j <= 22 && m < 0x20_0000_0000_0000 && n == Binary(m, j)
    ensures IsNumber(n)
  {
  }

  /** The Number nearest to 10^22 - 1 is 10^22, whose tenth is a Number, too: every other whole Number is
      farther off. */
  lemma {:induction false} TopNumber(n: nat)
    ensures IsNumber(TOP + 1) && TOP + 1 == 10 * PLAIN_LIMIT && IsNumber(PLAIN_LIMIT)
    ensures IsNumber(n) && n != TOP + 1 ==> n + 1 < TOP || TOP + 1 < n
  {
    assert TwoTo(10) == 1024;
    assert TwoTo(20) == 1048576;
    PowerOfTenNumber(TOP + 1, 2384185791015625, 22);
    PowerOfTenNumber(PLAIN_LIMIT, 476837158203125, 21);
    if IsNumber(TOP) {
      OddNumber(TOP);
    }
    if IsNumber(TOP - 1) {
      HalfNumber(4999999999999999999999);
      OddNumber(4999999999999999999999);
    }
  }

  // ------------------------------------------------------------------ what that balance pays for

  lemma TopAmounts(shown: nat, next: nat)
    requires shown >= TenTo(29) && next == TenTo(28)
    ensures (TOP + 2) as real <= shown as real / MILLION && next as real / MILLION == (TOP + 1) as real
  {
    PlainLimit();
    assert TenTo(7) == 10000000;
    TenToAdd(21, 7);
  }

  /** Where the quotient of 10^22 - 1 units comes out as 10^21, these units pay for one unit and for two
      units more than they are, and one unit more no longer pays for the latter. */
  lemma {:induction false} TopPaysTooMuch(divide: Division, c: Check)
    requires IsDivision(divide) && IsFeeCovered(c) && IsOtherToken(c)
    requires c.token.value.rawBalance == TOP && c.token.value.decimals == 0 && divide(DecOf(TOP, 0)) == PLAIN_LIMIT
    ensures IsSufficient(divide, Asking(c, (TOP + 1) as real)) && !IsTrulyAffordable(Asking(c, (TOP + 1) as real))
    ensures IsSufficient(divide, Asking(c, (TOP + 2) as real))
    ensures !IsSufficient(divide, Asking(Holding(c, TOP + 1), (TOP + 2) as real))
  {
    TopPays(divide, c, Holding(c, TOP + 1), c.token.value.rawBalance);
  }

  lemma {:induction false} TopPays(divide: Division, c: Check, d: Check, raw: nat)
    requires IsDivision(divide) && IsFeeCovered(c) && IsOtherToken(c)
    requires raw == TOP && c.token.value.rawBalance == raw && c.token.value.decimals == 0 && d == Holding(c, raw + 1)
    requires divide(DecOf(raw, 0)) == PLAIN_LIMIT
    ensures IsSufficient(divide, Asking(c, (TOP + 1) as real)) && !IsTrulyAffordable(Asking(c, (TOP + 1) as real))
    ensures IsSufficient(divide, Asking(c, (TOP + 2) as real))
    ensures !IsSufficient(divide, Asking(d, (TOP + 2) as real))
  {
    TopDigits(raw);
    TopCut(raw);
    TopShown(divide, raw);
    NextSmaller(divide, raw + 1, PLAIN_DIGITS - 1);
    TopAmounts(Shown(divide, raw, 0), Shown(divide, raw + 1, 0));
    HoldingAlike(c, raw + 1);
    AskingOther(divide, c, (TOP + 1) as real);
    AskingOther(divide, c, (TOP + 2) as real);
    AskingOther(divide, d, (TOP + 2) as real);
  }
}
