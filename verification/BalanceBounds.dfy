/** How far the balance that a text shows is from the true one, and when a larger balance shows more. */
module BalanceBounds {
  import opened NatMath
  import opened Strings
  import opened Decimals
  import opened AmountStrings
  import opened RawUnits
  import opened BalanceTexts

  // ------------------------------------------------------------------ orders of magnitude

  lemma {:induction false} PointOf(raw: nat, decimals: nat)
    requires raw > 0
    ensures |DecOf(raw, decimals).digits| > 0 && DecOf(raw, decimals).point == |PrintNat(raw)| - decimals
  {
    PrintNatDenotes(raw);
    StripBackInt(PrintNat(raw));
    assert StripFront(PrintNat(raw)) == PrintNat(raw);
    assert Int("") == 0;
  }

  lemma {:induction false} PointOfZero(decimals: nat)
    ensures !IsLarge(DecOf(0, decimals))
  {
    assert PrintNat(0) == "0";
    assert StripFront("0") == "";
  }

  /** The large balances are those of ten to the 21 coins or more. */
  lemma {:induction false} LargeIff(raw: nat, decimals: nat)
    ensures IsLarge(DecOf(raw, decimals)) <==> raw >= TenTo(PLAIN_DIGITS + decimals)
  {
    if raw == 0 {
      PointOfZero(decimals);
    } else {
      PointOf(raw, decimals);
      PrintedLength(raw);
      if |PrintNat(raw)| > PLAIN_DIGITS + decimals {
        TenToMonotone(PLAIN_DIGITS + decimals, |PrintNat(raw)| - 1);
      } else {
        TenToMonotone(|PrintNat(raw)|, PLAIN_DIGITS + decimals);
      }
    }
  }

  /** How many digits of a large balance are divided off. */
  function Cut(raw: nat, decimals: nat): nat {
    Excess(DecOf(raw, decimals))
  }

  predicate HasMagnitude(n: nat, k: nat) {
    TenTo(k) <= n < TenTo(k + 1)
  }

  lemma {:induction false} Magnitude(raw: nat, decimals: nat)
    requires IsLarge(DecOf(raw, decimals))
    ensures Cut(raw, decimals) >= 1 && HasMagnitude(raw, 20 + Cut(raw, decimals) + decimals)
  {
    if raw == 0 {
      PointOfZero(decimals);
    } else {
      PointOf(raw, decimals);
      PrintedLength(raw);
    }
  }

  lemma MagnitudeGrows(n: nat, j: nat, m: nat, k: nat)
    requires n <= m && HasMagnitude(n, j) && HasMagnitude(m, k)
    ensures j <= k
  {
    if k < j {
      TenToMonotone(k + 1, j);
    }
  }

  // ------------------------------------------------------------------ readings and true balances

  /** The quotient of a large balance, multiplied back to raw units. */
  function Restored(n: nat, cut: nat, decimals: nat): nat {
    Product(n, TenTo(cut + decimals))
  }

  /** A large balance whose quotient came out above the exact one. */
  predicate RoundsUp(divide: Division, raw: nat, decimals: nat) {
    IsLargeBalance(raw, decimals) && Restored(divide(DecOf(raw, decimals)), Cut(raw, decimals), decimals) > raw
  }

  /** A balance that loses more than a millionth: with more than 20 decimals every balance above one, else
      a large balance whose quotient came out so far below the exact one. */
  predicate DropsMillionth(divide: Division, raw: nat, decimals: nat) {
    if decimals > DIVISION_PLACES then TenTo(decimals) < Product(raw, TenTo(6))
    else
      IsLargeBalance(raw, decimals) &&
      Product(Restored(divide(DecOf(raw, decimals)), Cut(raw, decimals), decimals), TenTo(6)) + TenTo(decimals) <
      Product(raw, TenTo(6))
  }

  /** `q` millionths are no more than the balance. */
  predicate AtMost(q: nat, raw: nat, decimals: nat) {
    Product(q, TenTo(decimals)) <= Product(raw, TenTo(6))
  }

  /** One millionth more would reach it. */
  predicate WithinMillionth(q: nat, raw: nat, decimals: nat) {
    Product(raw, TenTo(6)) <= Product(q + 1, TenTo(decimals))
  }

  lemma {:induction false} ModestBounds(raw: nat, decimals: nat)
    ensures AtMost(FormatPoint(raw, decimals), raw, decimals)
    ensures WithinMillionth(FormatPoint(raw, decimals), raw, decimals)
  {
    if decimals >= 6 {
      FineBounds(FormatPoint(raw, decimals), raw, decimals - 6);
    } else {
      ScaleTwice(raw, 6 - decimals, decimals);
      Distribute(FormatPoint(raw, decimals), 1, TenTo(decimals));
    }
  }

  lemma {:induction false} FineBounds(q: nat, raw: nat, k: nat)
    requires q * TenTo(k) <= raw < (q + 1) * TenTo(k)
    ensures AtMost(q, raw, k + 6) && WithinMillionth(q, raw, k + 6)
  {
    TimesMonotone(q * TenTo(k), raw, TenTo(6));
    TimesMonotone(raw, (q + 1) * TenTo(k), TenTo(6));
    ScaleTwice(q, k, 6);
    ScaleTwice(q + 1, k, 6);
  }

  lemma {:induction false} ScaledQuotient(n: nat, cut: nat, decimals: nat)
    ensures Product(Product(n, TenTo(cut + 6)), TenTo(decimals)) == Product(Restored(n, cut, decimals), TenTo(6))
  {
    ScaleTwice(n, cut + 6, decimals);
    ScaleTwice(n, cut + decimals, 6);
  }

  lemma CancelTimes(a: nat, b: nat, t: nat)
    requires t > 0
    ensures Product(a, t) <= Product(b, t) <==> a <= b
  {
    if a <= b {
      TimesMonotone(a, b, t);
    } else {
      LessScaled(b, a, t);
    }
  }

  lemma {:induction false} FittingBounds(n: nat, cut: nat, raw: nat, decimals: nat)
    requires n != PLAIN_LIMIT
    ensures AtMost(ShownQuotient(n, cut), raw, decimals) <==> Restored(n, cut, decimals) <= raw
    ensures WithinMillionth(ShownQuotient(n, cut), raw, decimals) <==>
            Product(raw, TenTo(6)) <= Product(Restored(n, cut, decimals), TenTo(6)) + TenTo(decimals)
  {
    ScaledQuotient(n, cut, decimals);
    CancelTimes(Restored(n, cut, decimals), raw, TenTo(6));
    Distribute(ShownQuotient(n, cut), 1, TenTo(decimals));
  }

  /** 21 times ten to the k is at least 21 + k. */
  lemma LengthenedGrows(k: nat)
    ensures Lengthened(k) >= PLAIN_DIGITS + k
  {
    TenToGrows(k);
  }

  lemma {:induction false} OverflowExceeds(cut: nat, raw: nat, decimals: nat)
    requires HasMagnitude(raw, 20 + cut + decimals)
    ensures Product(raw, TenTo(6)) < Product(TenTo(Lengthened(cut) + 6), TenTo(decimals))
  {
    LessScaled(raw, TenTo(21 + cut + decimals), TenTo(6));
    TenToAdd(21 + cut + decimals, 6);
    LengthenedGrows(cut);
    TenToAdd(Lengthened(cut) + 6, decimals);
    TenToMonotone(27 + cut + decimals, Lengthened(cut) + 6 + decimals);
  }

  lemma {:induction false} RestoredLimit(n: nat, cut: nat, raw: nat, decimals: nat)
    requires n == PLAIN_LIMIT && HasMagnitude(raw, 20 + cut + decimals)
    ensures Restored(n, cut, decimals) > raw
  {
    PlainLimit();
    TenToAdd(PLAIN_DIGITS, cut + decimals);
  }

  lemma {:induction false} OverflowBounds(n: nat, cut: nat, raw: nat, decimals: nat)
    requires n == PLAIN_LIMIT && HasMagnitude(raw, 20 + cut + decimals)
    ensures Restored(n, cut, decimals) > raw
    ensures !AtMost(ShownQuotient(n, cut), raw, decimals) && WithinMillionth(ShownQuotient(n, cut), raw, decimals)
  {
    RestoredLimit(n, cut, raw, decimals);
    OverflowExceeds(cut, raw, decimals);
    Distribute(ShownQuotient(n, cut), 1, TenTo(decimals));
  }

  lemma {:induction false} LargeBounds(n: nat, cut: nat, raw: nat, decimals: nat)
    requires HasMagnitude(raw, 20 + cut + decimals)
    ensures AtMost(ShownQuotient(n, cut), raw, decimals) <==> Restored(n, cut, decimals) <= raw
    ensures WithinMillionth(ShownQuotient(n, cut), raw, decimals) <==>
            Product(raw, TenTo(6)) <= Product(Restored(n, cut, decimals), TenTo(6)) + TenTo(decimals)
  {
    if n == PLAIN_LIMIT {
      OverflowBounds(n, cut, raw, decimals);
      CancelTimes(Restored(n, cut, decimals), raw, TenTo(6));
    } else {
      FittingBounds(n, cut, raw, decimals);
    }
  }

  lemma {:induction false} NothingShown(raw: nat, decimals: nat)
    ensures AtMost(0, raw, decimals)
    ensures WithinMillionth(0, raw, decimals) <==> Product(raw, TenTo(6)) <= TenTo(decimals)
  {
  }

  /** The text shows more than the balance exactly when its quotient is rounded up, and less by over a
      millionth exactly for the balances that drop one. */
  lemma {:induction false} ShownBounds(divide: Division, raw: nat, decimals: nat)
    ensures AtMost(Shown(divide, raw, decimals), raw, decimals) <==> !RoundsUp(divide, raw, decimals)
    ensures WithinMillionth(Shown(divide, raw, decimals), raw, decimals) <==> !DropsMillionth(divide, raw, decimals)
  {
    if decimals > DIVISION_PLACES {
      NothingShown(raw, decimals);
    } else if IsLargeBalance(raw, decimals) {
      Magnitude(raw, decimals);
      LargeBounds(divide(DecOf(raw, decimals)), Cut(raw, decimals), raw, decimals);
    } else {
      ModestBounds(raw, decimals);
    }
  }

  // ------------------------------------------------------------------ larger balances

  /** The text of a balance whose quotient is rounded up to ten to the 21 shows that power with a longer
      exponent; a larger balance whose quotient is not, and that is short of that power, shows less. */
  predicate ShowsLess(divide: Division, raw: nat, more: nat, decimals: nat) {
    && IsLargeBalance(raw, decimals) && divide(DecOf(raw, decimals)) == PLAIN_LIMIT
    && divide(DecOf(more, decimals)) != PLAIN_LIMIT
    && PLAIN_DIGITS - 1 + Cut(more, decimals) < Lengthened(Cut(raw, decimals))
  }

  lemma {:induction false} FittingMagnitude(n: nat, cut: nat)
    requires TenTo(20) <= n < TenTo(21)
    ensures HasMagnitude(ShownQuotient(n, cut), 26 + cut)
  {
    PlainLimit();
    TenToAdd(20, cut + 6);
    TenToAdd(21, cut + 6);
    TimesMonotone(TenTo(20), n, TenTo(cut + 6));
    LessScaled(n, TenTo(21), TenTo(cut + 6));
  }

  lemma OverflowMagnitude(n: nat, cut: nat)
    requires n == PLAIN_LIMIT
    ensures HasMagnitude(ShownQuotient(n, cut), Lengthened(cut) + 6)
  {
  }

  lemma {:induction false} ByMagnitude(m: nat, j: nat, n: nat, k: nat)
    requires HasMagnitude(m, j) && HasMagnitude(n, k)
    ensures j < k ==> m <= n
    ensures k < j ==> n < m
  {
    if j < k {
      TenToMonotone(j + 1, k);
    } else if k < j {
      TenToMonotone(k + 1, j);
    }
  }

  lemma {:induction false} LengthenedMonotone(a: nat, b: nat)
    requires a <= b
    ensures Lengthened(a) <= Lengthened(b) && TenTo(Lengthened(a) + 6) <= TenTo(Lengthened(b) + 6)
  {
    TenToMonotone(a, b);
    TenToMonotone(Lengthened(a) + 6, Lengthened(b) + 6);
  }

  predicate IsQuotient(n: nat) {
    TenTo(20) <= n <= PLAIN_LIMIT
  }

  lemma {:induction false} QuotientInRange(divide: Division, x: Dec)
    requires IsDivision(divide) && IsDec(x) && IsLarge(x)
    ensures IsQuotient(divide(x))
  {
    PlainLimit();
    assert TenTo(21) == 10 * TenTo(20);
  }

  lemma {:induction false} FittingOrdered(n: nat, c: nat, m: nat, e: nat)
    requires IsQuotient(n) && IsQuotient(m) && n != PLAIN_LIMIT && c <= e && (c == e ==> n <= m)
    ensures ShownQuotient(n, c) <= ShownQuotient(m, e)
  {
    PlainLimit();
    FittingMagnitude(n, c);
    if m == PLAIN_LIMIT {
      OverflowMagnitude(m, e);
      LengthenedGrows(e);
      ByMagnitude(ShownQuotient(n, c), 26 + c, ShownQuotient(m, e), Lengthened(e) + 6);
    } else if c == e {
      TimesMonotone(n, m, TenTo(c + 6));
    } else {
      FittingMagnitude(m, e);
      ByMagnitude(ShownQuotient(n, c), 26 + c, ShownQuotient(m, e), 26 + e);
    }
  }

  lemma {:induction false} OverflowOrdered(n: nat, c: nat, m: nat, e: nat)
    requires n == PLAIN_LIMIT && IsQuotient(m) && c <= e
    ensures ShownQuotient(n, c) <= ShownQuotient(m, e) <==> !(m != PLAIN_LIMIT && 20 + e < Lengthened(c))
  {
    OverflowMagnitude(n, c);
    if m == PLAIN_LIMIT {
      LengthenedMonotone(c, e);
    } else {
      PlainLimit();
      FittingMagnitude(m, e);
      ByMagnitude(ShownQuotient(n, c), Lengthened(c) + 6, ShownQuotient(m, e), 26 + e);
    }
  }

  lemma {:induction false} CancelMantissas(a: nat, k: nat, b: nat, l: nat, n: nat)
    requires k <= n && l <= n && a * TenTo(n - k) <= b * TenTo(n - l)
    ensures Pad(a, l) <= Pad(b, k)
  {
    PadIs(a, l);
    PadIs(b, k);
    TimesMonotone(a * TenTo(n - k), b * TenTo(n - l), TenTo(k + l));
    ScaleTwice(a, n - k, k + l);
    ScaleTwice(b, n - l, k + l);
    ScaleTwice(a, l, n);
    ScaleTwice(b, k, n);
    CancelTimes(a * TenTo(l), b * TenTo(k), TenTo(n));
  }

  lemma {:induction false} MantissaOrder(x: Dec, raw: nat, y: Dec, more: nat, decimals: nat)
    requires IsDec(x) && IsDec(y) && x.point == y.point && 0 <= x.point && raw <= more
    requires FractionDigits(x) <= decimals && Units(x, decimals) == raw
    requires FractionDigits(y) <= decimals && Units(y, decimals) == more
    ensures MantissaAtMost(x, y)
  {
    CancelMantissas(Int(x.digits), |x.digits|, Int(y.digits), |y.digits|, decimals + x.point);
  }

  lemma {:induction false} BalanceUnits(raw: nat, decimals: nat)
    ensures FractionDigits(DecOf(raw, decimals)) <= decimals && Units(DecOf(raw, decimals), decimals) == raw
  {
    DecOfUnits(raw, decimals, decimals);
  }

  lemma {:induction false} QuotientMonotoneAt(divide: Division, raw: nat, more: nat, decimals: nat)
    requires IsDivision(divide) && IsLarge(DecOf(raw, decimals)) && IsLarge(DecOf(more, decimals)) && raw <= more
    requires Cut(raw, decimals) == Cut(more, decimals)
    ensures divide(DecOf(raw, decimals)) <= divide(DecOf(more, decimals))
  {
    BalanceUnits(raw, decimals);
    BalanceUnits(more, decimals);
    MantissaOrder(DecOf(raw, decimals), raw, DecOf(more, decimals), more, decimals);
  }

  lemma {:induction false} LargeOrdered(divide: Division, raw: nat, more: nat, decimals: nat)
    requires IsDivision(divide) && IsLargeBalance(raw, decimals) && IsLargeBalance(more, decimals) && raw <= more
    ensures Shown(divide, raw, decimals) <= Shown(divide, more, decimals) <==> !ShowsLess(divide, raw, more, decimals)
  {
    Magnitude(raw, decimals);
    Magnitude(more, decimals);
    MagnitudeGrows(raw, 20 + Cut(raw, decimals) + decimals, more, 20 + Cut(more, decimals) + decimals);
    QuotientInRange(divide, DecOf(raw, decimals));
    QuotientInRange(divide, DecOf(more, decimals));
    if Cut(raw, decimals) == Cut(more, decimals) {
      QuotientMonotoneAt(divide, raw, more, decimals);
    }
    QuotientsOrdered(divide(DecOf(raw, decimals)), Cut(raw, decimals), divide(DecOf(more, decimals)),
                     Cut(more, decimals));
  }

  lemma {:induction false} QuotientsOrdered(n: nat, c: nat, m: nat, e: nat)
    requires IsQuotient(n) && IsQuotient(m) && c <= e && (c == e ==> n <= m)
    ensures ShownQuotient(n, c) <= ShownQuotient(m, e) <==>
            !(n == PLAIN_LIMIT && m != PLAIN_LIMIT && 20 + e < Lengthened(c))
  {
    if n == PLAIN_LIMIT {
      OverflowOrdered(n, c, m, e);
    } else {
      FittingOrdered(n, c, m, e);
    }
  }

  lemma FormatPointMonotone(raw: nat, more: nat, decimals: nat)
    requires raw <= more
    ensures FormatPoint(raw, decimals) <= FormatPoint(more, decimals)
  {
    if decimals >= 6 {
      QuotientMonotone(raw, more, TenTo(decimals - 6));
    } else {
      TimesMonotone(raw, more, TenTo(6 - decimals));
    }
  }

  lemma {:induction false} ModestBelow(raw: nat, decimals: nat)
    requires raw < TenTo(PLAIN_DIGITS + decimals)
    ensures FormatPoint(raw, decimals) < TenTo(27)
  {
    ModestBounds(raw, decimals);
    LessScaled(raw, TenTo(21 + decimals), TenTo(6));
    TenToAdd(21 + decimals, 6);
    TenToAdd(27, decimals);
    CancelTimes(TenTo(27), FormatPoint(raw, decimals), TenTo(decimals));
  }

  lemma {:induction false} LargeAbove(n: nat, cut: nat)
    requires IsQuotient(n) && cut >= 1
    ensures ShownQuotient(n, cut) >= TenTo(27)
  {
    PlainLimit();
    if n == PLAIN_LIMIT {
      LengthenedGrows(cut);
      TenToMonotone(27, Lengthened(cut) + 6);
    } else {
      FittingMagnitude(n, cut);
      TenToMonotone(27, 26 + cut);
    }
  }

  lemma {:induction false} CrossOrdered(divide: Division, raw: nat, more: nat, decimals: nat)
    requires IsDivision(divide) && IsLargeBalance(more, decimals) && !IsLargeBalance(raw, decimals)
    ensures Shown(divide, raw, decimals) <= Shown(divide, more, decimals)
  {
    LargeIff(raw, decimals);
    ModestBelow(raw, decimals);
    Magnitude(more, decimals);
    QuotientInRange(divide, DecOf(more, decimals));
    LargeAbove(divide(DecOf(more, decimals)), Cut(more, decimals));
  }

  /** A larger balance shows at least as much, except exactly in the case of `ShowsLess`. */
  lemma {:induction false} ShownMonotoneIff(divide: Division, raw: nat, more: nat, decimals: nat)
    requires IsDivision(divide) && raw <= more
    ensures Shown(divide, raw, decimals) <= Shown(divide, more, decimals) <==> !ShowsLess(divide, raw, more, decimals)
  {
    if decimals <= DIVISION_PLACES {
      LargeIff(raw, decimals);
      LargeIff(more, decimals);
      if IsLargeBalance(raw, decimals) {
        LargeOrdered(divide, raw, more, decimals);
      } else if IsLargeBalance(more, decimals) {
        CrossOrdered(divide, raw, more, decimals);
      } else {
        FormatPointMonotone(raw, more, decimals);
      }
    }
  }
}
