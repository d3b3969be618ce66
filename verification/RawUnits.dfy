/** Conversions between amounts and raw token units. */
module RawUnits {
  import opened NatMath
  import opened Strings
  import opened Decimals
  import opened AmountStrings

  // ------------------------------------------------------------------ padding to raw units

  function PadTo(fraction: string, decimals: nat): (r: string)
    ensures |r| >= decimals && fraction <= r
  {
    if |fraction| < decimals then fraction + Zeros(decimals - |fraction|) else fraction
  }

  /** The part before the first point and the zero-padded part after it. */
  function Padding(number: string, decimals: nat): string {
    var parts := SplitOn(number, ".");
    parts[0] + PadTo(if |parts| > 1 then parts[1] else "", decimals)
  }

  /** `setDecimals`, whose loop appends one zero at a time. */
  method SetDecimals(number: string, decimals: nat) returns (raw: string)
    ensures raw == Padding(number, decimals)
  {
    var parts := SplitOn(number, ".");
    var numberAbs := parts[0];
    var numberDecimals := if |parts| > 1 then parts[1] else "";
    ghost var fraction := numberDecimals;
    while |numberDecimals| < decimals
      invariant |fraction| <= |numberDecimals| && numberDecimals == fraction + Zeros(|numberDecimals| - |fraction|)
      invariant |numberDecimals| <= decimals || numberDecimals == fraction
    {
      numberDecimals := numberDecimals + "0";
    }
    raw := numberAbs + numberDecimals;
  }

  /** The padded text denotes the amount times ten to `decimals` exactly when the amount has no more
      fraction digits than that, or is zero. */
  lemma {:induction false} SetDecimalsIff(number: string, decimals: nat, p: nat)
    requires IsPlain(number) && |FractionPart(number)| <= p && decimals <= p
    ensures var raw := Padding(number, decimals);
            && AllDigits(raw)
            && (Int(raw) * TenTo(p - decimals) == PlainUnits(number, p) <==>
                 |FractionPart(number)| <= decimals || PlainUnits(number, p) == 0)
  {
    var w, f := WholePart(number), FractionPart(number);
    if |f| <= decimals {
      PaddedUnits(w, f, decimals);
      ScaleTwice(Int(w + f), decimals - |f|, p - decimals);
    } else {
      OverlongUnits(Int(w + f), p - decimals, p - |f|);
    }
  }

  /** A number printed with an exponent is not padded to digits at all. */
  lemma {:induction false} ScientificPadding(x: Dec, sign: char, n: nat, decimals: nat)
    requires IsDec(x) && |x.digits| > 0 && sign in {'+', '-'}
    ensures 'e' in Padding(Mantissa(x.digits) + ("e" + [sign] + PrintNat(n)), decimals)
  {
    var tail := "e" + [sign] + PrintNat(n);
    assert tail[0] == 'e' && '.' !in tail && '.' !in x.digits;
    if |x.digits| == 1 {
      var s := x.digits + tail;
      assert s[1] == 'e';
      SplitAbsent(s, ".");
    } else {
      var a, b := x.digits[..1], x.digits[1..] + tail;
      assert Mantissa(x.digits) + tail == a + "." + b;
      assert b[|x.digits| - 1] == 'e';
      SplitFirst(a, ".", b);
      SplitAbsent(b, ".");
    }
  }

  lemma {:induction false} PlainPadding(x: Dec, decimals: nat, p: nat)
    requires IsDec(x) && FractionDigits(x) <= p && decimals <= p
    ensures AllDigits(Padding(Plain(x), decimals))
    ensures Int(Padding(Plain(x), decimals)) * TenTo(p - decimals) == Units(x, p) <==>
            |x.digits| == 0 || FractionDigits(x) <= decimals
  {
    PlainDenotes(x, p);
    SetDecimalsIff(Plain(x), decimals, p);
    ZeroUnits(x, p);
  }

  lemma {:induction false} PrintsExponent(x: Dec, sign: char, n: nat)
    requires IsDec(x) && |x.digits| > 0
    requires (sign == '+' && x.point > PLAIN_DIGITS && n == x.point - 1) ||
             (sign == '-' && x.point <= -6 && n == 1 - x.point)
    ensures Print(x) == Mantissa(x.digits) + ("e" + [sign] + PrintNat(n))
  {
    assert "e" + ['+'] == "e+" && "e" + ['-'] == "e-";
    assert Mantissa(x.digits) + ("e" + [sign] + PrintNat(n)) == Mantissa(x.digits) + ("e" + [sign]) + PrintNat(n);
  }

  lemma {:induction false} ExponentPadding(x: Dec, sign: char, n: nat, decimals: nat)
    requires IsDec(x) && |x.digits| > 0
    requires (sign == '+' && x.point > PLAIN_DIGITS && n == x.point - 1) ||
             (sign == '-' && x.point <= -6 && n == 1 - x.point)
    ensures !AllDigits(Padding(Print(x), decimals))
  {
    PrintsExponent(x, sign, n);
    ScientificPadding(x, sign, n, decimals);
  }

  /** For a number as it is printed: the padded text denotes it times ten to `decimals` exactly when it is
      zero, or is printed without an exponent and has no more fraction digits than that. */
  lemma {:induction false} PrintedPaddingIff(x: Dec, decimals: nat, p: nat)
    requires IsDec(x) && FractionDigits(x) <= p && decimals <= p
    ensures var raw := Padding(Print(x), decimals);
            AllDigits(raw) && Int(raw) * TenTo(p - decimals) == Units(x, p) <==>
              |x.digits| == 0 || (-6 < x.point <= PLAIN_DIGITS && FractionDigits(x) <= decimals)
  {
    if |x.digits| > 0 && x.point > PLAIN_DIGITS {
      ExponentPadding(x, '+', x.point - 1, decimals);
    } else if |x.digits| > 0 && x.point <= -6 {
      ExponentPadding(x, '-', 1 - x.point, decimals);
    } else {
      PlainPadding(x, decimals, p);
    }
  }

  lemma {:induction false} ZeroUnits(x: Dec, p: nat)
    requires IsDec(x) && FractionDigits(x) <= p
    ensures Units(x, p) == 0 <==> |x.digits| == 0
  {
    if |x.digits| > 0 {
      LeadingDigit(x.digits);
      TimesPositive(Int(x.digits), TenTo(p + x.point - |x.digits|));
    }
  }

  lemma {:induction false} PaddedUnits(w: string, f: string, decimals: nat)
    requires AllDigits(w) && AllDigits(f) && |f| <= decimals
    ensures AllDigits(w + PadTo(f, decimals)) && AllDigits(w + f)
    ensures Int(w + PadTo(f, decimals)) == Int(w + f) * TenTo(decimals - |f|)
  {
    var n: nat := decimals - |f|;
    IntAppend(w, f);
    IntTrailingZeros(w + f, n);
    assert f + Zeros(0) == f;
    assert w + PadTo(f, decimals) == w + f + Zeros(n);
  }

  lemma OverlongUnits(m: nat, a: nat, b: nat)
    requires a > b
    ensures m * TenTo(a) == m * TenTo(b) <==> m * TenTo(b) == 0
  {
    ScaleTwice(m, b, a - b);
    if m > 0 {
      TimesPositive(m, TenTo(b));
      Shrinks(m * TenTo(b), TenTo(a - b));
    }
  }

  // ------------------------------------------------------------------ raw amounts in transaction rows

  /** `calcRawAmountOfTransaction`: the product with ten to `decimals`, which is exact, as text. */
  function CalcRaw(amount: string, decimals: nat): string
    requires IsDec(Parse(amount))
  {
    Print(Shift(Parse(amount), decimals))
  }

  const DIVISION_PLACES: nat := 20

  /** The multiple of `unit` nearest to `n`, in units, a half going up. */
  function HalfUp(n: nat, unit: nat): nat
    requires unit > 0
  {
    Quotient(n + n + unit, unit + unit)
  }

  lemma HalfUpNearest(n: nat, unit: nat)
    requires unit > 0
    ensures n + n < HalfUp(n, unit) * (unit + unit) + unit
    ensures HalfUp(n, unit) * (unit + unit) <= n + n + unit
  {
    Distribute(HalfUp(n, unit), 1, unit + unit);
  }

  /** A quotient with more than 20 fraction digits is rounded half up to 20. */
  function RoundHalfUp(x: Dec): (r: Dec)
    requires IsDec(x)
    ensures IsDec(r)
  {
    var n := FractionDigits(x);
    if n <= DIVISION_PLACES then x else DecOf(HalfUp(Units(x, n), TenTo(n - DIVISION_PLACES)), DIVISION_PLACES)
  }

  /** `calcAmountOfTransaction`: the quotient by ten to `decimals`, as text. */
  function CalcAmount(rawAmount: string, decimals: nat): string
    requires IsDec(Parse(rawAmount))
  {
    Print(RoundHalfUp(Shift(Parse(rawAmount), 0 - decimals)))
  }

  lemma {:induction false} RoundedPlaces(x: Dec)
    requires IsDec(x)
    ensures FractionDigits(RoundHalfUp(x)) <= DIVISION_PLACES
  {
    var n := FractionDigits(x);
    if n > DIVISION_PLACES {
      DecOfUnits(HalfUp(Units(x, n), TenTo(n - DIVISION_PLACES)), DIVISION_PLACES, DIVISION_PLACES);
    }
  }

  /** It is the multiple of ten to the -20 nearest to the quotient, a half going up; up to 20 fraction digits
      nothing is rounded. */
  lemma {:induction false} RoundHalfUpNearest(x: Dec, n: nat)
    requires IsDec(x) && n == FractionDigits(x)
    ensures n <= 20 ==> RoundHalfUp(x) == x
    ensures n > 20 ==>
              && FractionDigits(RoundHalfUp(x)) <= 20
              && Units(RoundHalfUp(x), 20) == HalfUp(Units(x, n), TenTo(n - 20))
  {
    if n > 20 {
      DecOfUnits(HalfUp(Units(x, n), TenTo(n - 20)), 20, 20);
    }
  }

  lemma {:induction false} CalcRawReads(amount: string, decimals: nat)
    requires IsDec(Parse(amount))
    ensures Parse(CalcRaw(amount, decimals)) == Shift(Parse(amount), decimals)
  {
    ParsePrint(Shift(Parse(amount), decimals));
  }

  lemma {:induction false} CalcAmountReads(rawAmount: string, x: Dec, decimals: nat)
    requires IsDec(x) && Parse(rawAmount) == Shift(x, decimals)
    ensures Parse(CalcAmount(rawAmount, decimals)) == RoundHalfUp(x)
  {
    assert Shift(Parse(rawAmount), 0 - decimals) == x;
    ParsePrint(RoundHalfUp(x));
  }

  /** Whatever text the amount is given as: converting it to raw units and back, through the printed texts,
      returns the same number exactly when that has at most 20 fraction digits; the number of token
      decimals does not matter. */
  lemma {:induction false} RawRoundTripIff(amount: string, decimals: nat)
    requires IsDec(Parse(amount))
    ensures IsDec(Parse(CalcRaw(amount, decimals)))
    ensures Parse(CalcAmount(CalcRaw(amount, decimals), decimals)) == Parse(amount) <==>
            FractionDigits(Parse(amount)) <= 20
  {
    CalcRawReads(amount, decimals);
    CalcAmountReads(CalcRaw(amount, decimals), Parse(amount), decimals);
    RoundedPlaces(Parse(amount));
  }

  // ------------------------------------------------------------------ display of raw amounts

  /** `formatPoint` in exact arithmetic: the whole millionths of raw / 10^decimals. */
  function FormatPoint(raw: nat, decimals: nat): nat {
    if decimals >= BALANCE_DECIMAL_PLACES then Quotient(raw, TenTo(decimals - BALANCE_DECIMAL_PLACES))
    else Product(raw, TenTo(BALANCE_DECIMAL_PLACES - decimals))
  }

  /** At any precision, the whole millionths are the quotient. */
  lemma FormatPointScaled(raw: nat, decimals: nat, p: nat)
    requires decimals <= p && BALANCE_DECIMAL_PLACES <= p
    ensures Quotient(Product(raw, TenTo(p - decimals)), TenTo(p - BALANCE_DECIMAL_PLACES)) == FormatPoint(raw, decimals)
  {
    if decimals >= BALANCE_DECIMAL_PLACES {
      QuotientPadded(raw, decimals - BALANCE_DECIMAL_PLACES, p - decimals);
    } else {
      QuotientOfPadded(raw, BALANCE_DECIMAL_PLACES - decimals, p - BALANCE_DECIMAL_PLACES);
    }
  }

  lemma {:induction false} FormatPointFloor(number: string, decimals: nat, p: nat)
    requires IsPlain(number) && |FractionPart(number)| <= decimals <= p && BALANCE_DECIMAL_PLACES <= p
    ensures AllDigits(Padding(number, decimals))
    ensures FormatPoint(Int(Padding(number, decimals)), decimals) ==
            Quotient(PlainUnits(number, p), TenTo(p - BALANCE_DECIMAL_PLACES))
  {
    SetDecimalsIff(number, decimals, p);
    FormatPointScaled(Int(Padding(number, decimals)), decimals, p);
  }

  /** For an amount with no more fraction digits than the token: the displayed millionths of its raw
      value are those that `getFixed` keeps, so they are below the amount by less than one millionth. */
  lemma {:induction false} FormatPointAgrees(number: string, decimals: nat, p: nat)
    requires IsPlain(number) && |FractionPart(number)| <= decimals <= p && BALANCE_DECIMAL_PLACES <= p
    ensures AllDigits(Padding(number, decimals)) && IsPlain(GetFixed(number, BALANCE_DECIMAL_PLACES))
    ensures |FractionPart(GetFixed(number, BALANCE_DECIMAL_PLACES))| <= BALANCE_DECIMAL_PLACES
    ensures Brackets(FormatPoint(Int(Padding(number, decimals)), decimals), PlainUnits(number, p),
                     TenTo(p - BALANCE_DECIMAL_PLACES))
    ensures FormatPoint(Int(Padding(number, decimals)), decimals) ==
            PlainUnits(GetFixed(number, BALANCE_DECIMAL_PLACES), BALANCE_DECIMAL_PLACES)
  {
    FormatPointFloor(number, decimals, p);
    TruncationIsFloor(number, BALANCE_DECIMAL_PLACES, p);
    QuotientBrackets(PlainUnits(number, p), TenTo(p - BALANCE_DECIMAL_PLACES));
  }

  /** So many whole units are in `n`, and not one more. */
  predicate Brackets(q: nat, n: nat, unit: nat) {
    q * unit <= n < (q + 1) * unit
  }

  lemma QuotientBrackets(n: nat, unit: nat)
    requires unit > 0
    ensures Brackets(Quotient(n, unit), n, unit)
  {
  }
}
