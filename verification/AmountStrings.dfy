/** Expansion, truncation and padding of decimal strings, as the balance and price code uses them. */
module AmountStrings {
  import opened Wrappers
  import opened NatMath
  import opened Strings
  import opened Decimals

  const BALANCE_DECIMAL_PLACES: nat := 6
  /** Numbers from ten to the 21 on are printed in scientific notation. */
  const PLAIN_DIGITS: nat := 21
  const PLAIN_LIMIT: nat := 1_000_000_000_000_000_000_000

  lemma PlainLimit()
    ensures TenTo(PLAIN_DIGITS) == PLAIN_LIMIT
  {
    assert TenTo(7) == 10_000_000;
    TenToAdd(7, 7);
    TenToAdd(14, 7);
  }

  // ------------------------------------------------------------------ expansion of scientific notation

  /** `parseInt(text.split(mark)[1])`. */
  function ExponentIn(text: string, mark: string): Option<nat>
    requires |mark| > 0
  {
    var parts := SplitOn(text, mark);
    if |parts| == 1 then None else ParseInt(parts[1])
  }

  /** `substring(n)`. */
  function From(s: string, n: nat): string {
    if n <= |s| then s[n..] else ""
  }

  /** A printed 0.d1d2... behind a point and `n` zeros. */
  function BehindZeros(n: nat, y: Dec): string {
    "0." + Zeros(n) + From(Print(y), 2)
  }

  /** A printed whole number in front of `n` zeros. */
  function BeforeZeros(whole: nat, n: nat): string {
    Print(DecOf(whole, 0)) + Zeros(n)
  }

  lemma {:induction false} ExponentRead(a: string, mark: string, n: nat)
    requires |mark| > 0 && mark[0] !in a && !IsDigit(mark[0])
    ensures ExponentIn(a + mark + PrintNat(n), mark) == Some(n)
  {
    SplitFirst(a, mark, PrintNat(n));
    assert mark[0] !in PrintNat(n);
    SplitAbsent(PrintNat(n), mark);
    ParsePrinted(n);
  }

  lemma {:induction false} NoExponent(a: string, mark: string)
    requires |mark| > 0 && mark[0] !in a
    ensures ExponentIn(a, mark) == None
  {
    SplitAbsent(a, mark);
  }

  lemma {:induction false} SmallExponent(x: Dec)
    requires IsDec(x) && |x.digits| > 0 && x.point <= -6
    ensures ExponentIn(Print(x), "e-") == Some(1 - x.point)
  {
    var a := Mantissa(x.digits);
    assert "e-"[0] !in a by { PlainCharacters(x, 'e'); }
    ExponentRead(a, "e-", 1 - x.point);
  }

  lemma {:induction false} SmallText(x: Dec, n: nat)
    requires IsDec(x) && |x.digits| > 0 && x.point + n == 0 && n >= 6
    ensures BehindZeros(n, Shift(x, n)) == Plain(x)
  {
    assert Print(Shift(x, n)) == "0." + (Zeros(0) + x.digits);
    assert From(Print(Shift(x, n)), 2) == x.digits;
    assert "0." + Zeros(n) + x.digits == "0." + (Zeros(n) + x.digits);
  }

  lemma SplitMark(m: string, t: string)
    ensures m + "e+" + t == m + "e" + "+" + t
  {
    assert "e+" == "e" + "+";
  }

  lemma {:induction false} LargeExponent(x: Dec)
    requires IsDec(x) && |x.digits| > 0 && x.point > PLAIN_DIGITS
    ensures ExponentIn(Print(x), "+") == Some(x.point - 1)
  {
    var a := Mantissa(x.digits) + "e";
    assert "+"[0] !in a by { PlainCharacters(x, '+'); }
    SplitMark(Mantissa(x.digits), PrintNat(x.point - 1));
    ExponentRead(a, "+", x.point - 1);
  }

  lemma {:induction false} ModestExponent(x: Dec)
    requires IsDec(x) && (|x.digits| == 0 || -6 < x.point <= PLAIN_DIGITS)
    ensures ExponentIn(Print(x), "e-") == None && ExponentIn(Print(x), "+") == None
  {
    PlainCharacters(x, 'e');
    PlainCharacters(x, '+');
    NoExponent(Plain(x), "e-");
    NoExponent(Plain(x), "+");
  }

  // ------------------------------------------------------------------ what the expansion is

  predicate IsLarge(x: Dec) {
    x.point > PLAIN_DIGITS && |x.digits| > 0
  }

  /** How many digits are divided off. */
  function Excess(x: Dec): nat {
    if x.point > PLAIN_DIGITS then x.point - PLAIN_DIGITS else 0
  }

  /** Dividing a large number down to 21 digits before the point: the Number that comes out for it, as it is
      printed. It is whole, because from 2^53 on every Number is. */
  type Division = Dec -> nat

  /** 0.d1d2... of the one is at most that of the other. */
  predicate MantissaAtMost(x: Dec, y: Dec)
    requires IsDec(x) && IsDec(y)
  {
    Pad(Int(x.digits), |y.digits|) <= Pad(Int(y.digits), |x.digits|)
  }

  /** What is used of it: the quotient stays between the powers of ten around it, comes out as it is when
      it is whole, and for a larger dividend of the same magnitude never comes out smaller. */
  ghost predicate IsDivision(divide: Division) {
    && (forall x :: IsDec(x) && IsLarge(x) ==> PLAIN_LIMIT <= 10 * divide(x) <= 10 * PLAIN_LIMIT)
    && (forall x :: IsDec(x) && IsLarge(x) && |x.digits| <= PLAIN_DIGITS ==>
        divide(x) == Pad(Int(x.digits), PLAIN_DIGITS - |x.digits|))
    && (forall x, y {:trigger divide(x), divide(y)} ::
          IsDec(x) && IsLarge(x) && IsDec(y) && IsLarge(y) && x.point == y.point && MantissaAtMost(x, y) ==>
            divide(x) <= divide(y))
  }

  /** What `toFixed` returns: plain notation, which a large number reaches by way of a quotient of 21 digits
      and as many zeros as digits were divided off. */
  function Expand(divide: Division, x: Dec): string {
    if IsLarge(x) then BeforeZeros(divide(x), Excess(x)) else Plain(x)
  }

  /** The exponent that is parsed from the printed number on either side of one. */
  lemma {:induction false} ExponentFound(x: Dec)
    requires IsDec(x)
    ensures x.point <= 0 ==>
              ExponentIn(Print(x), "e-") == if |x.digits| > 0 && x.point <= -6 then Some(1 - x.point) else None
    ensures x.point > 0 ==> ExponentIn(Print(x), "+") == if IsLarge(x) then Some(x.point - 1) else None
  {
    if |x.digits| == 0 || -6 < x.point <= PLAIN_DIGITS {
      ModestExponent(x);
    } else if x.point <= -6 {
      SmallExponent(x);
    } else {
      LargeExponent(x);
    }
  }

  /** `toFixed`, which overwrites its argument with the scaled number and then with the text: an exponent
      of -e is undone by e - 1 zeros behind the point, an exponent of e above 20 by dividing by ten to the
      e - 20 and appending e - 20 zeros. */
  method ToFixed(divide: Division, x: Dec) returns (text: string)
    requires IsDec(x)
    ensures text == Expand(divide, x)
  {
    text := Print(x);
    ExponentFound(x);
    if x.point <= 0 {
      var e := ExponentIn(text, "e-");
      if e.Some? && e.value != 0 {
        var y := Shift(x, e.value - 1);
        SmallText(x, -x.point);
        text := BehindZeros(e.value - 1, y);
      }
    } else {
      var e := ExponentIn(text, "+");
      if e.Some? && e.value > 20 {
        var rest := e.value - 20;
        var quotient := divide(x);
        text := BeforeZeros(quotient, rest);
      }
    }
  }

  // ------------------------------------------------------------------ the text of a large number

  /** Padding a whole number with zeros multiplies it. */
  lemma {:induction false} PadWhole(z: Dec, rest: nat)
    requires IsDec(z) && |z.digits| > 0 && FractionDigits(z) == 0
    ensures Plain(z) + Zeros(rest) == Plain(Shift(z, rest))
  {
    var n: nat := z.point - |z.digits|;
    assert Zeros(n) + Zeros(rest) == Zeros(n + rest);
  }

  lemma {:induction false} WholeDec(n: nat)
    requires n > 0
    ensures |DecOf(n, 0).digits| > 0 && FractionDigits(DecOf(n, 0)) == 0
    ensures |DecOf(n, 0).digits| <= DecOf(n, 0).point == |PrintNat(n)|
  {
    var digits := PrintNat(n);
    PrintNatDenotes(n);
    StripBackInt(digits);
    assert StripFront(digits) == digits;
    assert Int("") == 0;
    DecOfPlaces(n, 0);
  }

  lemma {:induction false} FewDigits(n: nat, k: nat)
    requires 0 < n < TenTo(k)
    ensures |PrintNat(n)| <= k
  {
    PrintedLength(n);
    if |PrintNat(n)| > k {
      TenToMonotone(k, |PrintNat(n)| - 1);
    }
  }

  /** A quotient below ten to the 21 is printed plainly, and the zeros continue it. */
  lemma {:induction false} InflateFits(n: nat, rest: nat)
    requires 0 < n < PLAIN_LIMIT
    ensures BeforeZeros(n, rest) == Plain(Shift(DecOf(n, 0), rest))
  {
    WholeDec(n);
    PlainLimit();
    FewDigits(n, PLAIN_DIGITS);
    PadWhole(DecOf(n, 0), rest);
  }

  lemma {:induction false} DecOfPower(k: nat)
    ensures DecOf(TenTo(k), 0) == Dec("1", k + 1)
  {
    PrintPower(k);
    var s := "1" + Zeros(k);
    StripBackZeros("1", k);
    assert StripFront(s) == s;
  }

  lemma PrintedOne()
    ensures Print(Dec("1", 22)) == "1e+21"
  {
    assert PrintNat(2) == "2";
    assert PrintNat(21) == "21";
  }

  /** Ten to the 21 is printed with an exponent, and the zeros lengthen that. */
  lemma {:induction false} PrintedLimit()
    ensures Print(DecOf(PLAIN_LIMIT, 0)) == "1e+21"
  {
    assert DecOf(PLAIN_LIMIT, 0) == Dec("1", 22) by {
      PlainLimit();
      DecOfPower(PLAIN_DIGITS);
    }
    PrintedOne();
  }

  lemma {:induction false} InflateOverflows(rest: nat)
    ensures BeforeZeros(PLAIN_LIMIT, rest) == "1e+21" + Zeros(rest)
  {
    PrintedLimit();
  }

  /** An exponent of 21 with `rest` zeros behind it. */
  function Lengthened(rest: nat): nat {
    21 * TenTo(rest)
  }

  /** The exponent of a lengthened "1e+21" is 21 times a power of ten. */
  lemma {:induction false} ParseOverflow(rest: nat)
    ensures Parse("1e+21" + Zeros(rest)) == Dec("1", 1 + Lengthened(rest))
  {
    var t := "+21" + Zeros(rest);
    assert "1e+21" + Zeros(rest) == "1" + "e" + t;
    assert 'e' !in t;
    SplitFirst("1", "e", t);
    SplitAbsent(t, "e");
    SignedTwentyOne(rest);
    ReadScientific(Dec("1", 1));
  }

  lemma {:induction false} SignedTwentyOne(rest: nat)
    ensures Signed("+21" + Zeros(rest)) == Lengthened(rest)
  {
    var t, digits := "+21" + Zeros(rest), "21" + Zeros(rest);
    assert t[1..] == digits;
    AllDigitPrefix(digits);
    IntTrailingZeros("21", rest);
    TwentyOne();
  }

  lemma TwentyOne()
    ensures Int("21") == 21
  {
    assert "21"[..1] == "2" && "2"[..0] == "";
  }

  // ------------------------------------------------------------------ what expansion preserves

  /** At most 21 digits before the point, or at most 21 significant digits in all. */
  predicate IsKept(x: Dec) {
    x.point <= PLAIN_DIGITS || |x.digits| <= PLAIN_DIGITS
  }

  /** The quotient of a large number comes out as ten to the 21. */
  predicate Overflows(divide: Division, x: Dec) {
    IsLarge(x) && divide(x) == PLAIN_LIMIT
  }

  /** What a whole number in front of zeros denotes: padding multiplies it, save for ten to the 21, whose
      own exponent is lengthened. */
  function Padded(n: nat, rest: nat): (r: Dec)
    ensures IsDec(r)
  {
    if n == PLAIN_LIMIT then Dec("1", 1 + Lengthened(rest)) else Shift(DecOf(n, 0), rest)
  }

  /** What the expanded text denotes. */
  function Expanded(divide: Division, x: Dec): (r: Dec)
    requires IsDec(x)
    ensures IsDec(r)
  {
    if IsLarge(x) then Padded(divide(x), Excess(x)) else x
  }

  lemma {:induction false} LargeReads(divide: Division, x: Dec)
    requires IsLarge(x) && 0 < divide(x) <= PLAIN_LIMIT
    ensures Parse(Expand(divide, x)) == Padded(divide(x), Excess(x))
  {
    PaddedReads(divide(x), Excess(x));
  }

  /** The text reads as that number. */
  lemma {:induction false} ExpandReads(divide: Division, x: Dec)
    requires IsDivision(divide) && IsDec(x)
    ensures Parse(Expand(divide, x)) == Expanded(divide, x)
  {
    if IsLarge(x) {
      LargeReads(divide, x);
    } else {
      ParsePlain(x);
    }
  }

  lemma {:induction false} PaddedReads(n: nat, rest: nat)
    requires 0 < n <= PLAIN_LIMIT
    ensures Parse(BeforeZeros(n, rest)) == Padded(n, rest)
  {
    if n == PLAIN_LIMIT {
      OverflowText(n, rest);
    } else {
      FittingText(n, rest);
    }
  }

  lemma {:induction false} OverflowText(n: nat, rest: nat)
    requires n == PLAIN_LIMIT
    ensures BeforeZeros(n, rest) == "1e+21" + Zeros(rest)
    ensures Parse(BeforeZeros(n, rest)) == Dec("1", 1 + Lengthened(rest))
  {
    InflateOverflows(rest);
    ParseOverflow(rest);
  }

  lemma {:induction false} FittingText(n: nat, rest: nat)
    requires 0 < n < PLAIN_LIMIT
    ensures BeforeZeros(n, rest) == Plain(Shift(DecOf(n, 0), rest))
    ensures Parse(BeforeZeros(n, rest)) == Shift(DecOf(n, 0), rest)
  {
    InflateFits(n, rest);
    ParsePlain(Shift(DecOf(n, 0), rest));
  }

  /** Expansion preserves the number exactly when that has at most 21 digits before the point or at most
      21 significant digits, however other quotients are rounded. */
  lemma {:induction false} ExpandPreservesIff(divide: Division, x: Dec)
    requires IsDivision(divide) && IsDec(x)
    ensures Parse(Expand(divide, x)) == x <==> IsKept(x)
  {
    ExpandReads(divide, x);
    if IsKept(x) {
      KeptExpanded(divide, x);
    } else {
      LostDigits(divide, x);
    }
  }

  lemma {:induction false} KeptExpanded(divide: Division, x: Dec)
    requires IsDivision(divide) && IsDec(x) && IsKept(x)
    ensures !Overflows(divide, x) && Expanded(divide, x) == x
  {
    if IsLarge(x) {
      WholeQuotient(x.digits, x.(point := PLAIN_DIGITS));
    }
  }

  /** Up to 21 significant digits the quotient is whole. */
  lemma {:induction false} WholeQuotient(digits: string, y: Dec)
    requires IsDec(y) && y.digits == digits && 0 < |digits| <= PLAIN_DIGITS == y.point
    ensures var n := Pad(Int(digits), PLAIN_DIGITS - |digits|); n < PLAIN_LIMIT && DecOf(n, 0) == y
  {
    var k := |digits|;
    var pad: nat := PLAIN_DIGITS - k;
    PadIs(Int(digits), pad);
    DecOfWhole(y);
    LeadingDigit(digits);
    PadBelow(Int(digits), k, pad);
    PlainLimit();
  }

  lemma {:induction false} PadBelow(n: nat, k: nat, pad: nat)
    requires n < TenTo(k)
    ensures Pad(n, pad) < TenTo(k + pad)
  {
    if pad > 0 {
      PadBelow(n, k, pad - 1);
    }
  }

  /** With more, some of them are beyond the quotient. */
  lemma {:induction false} LostDigits(divide: Division, x: Dec)
    requires IsDivision(divide) && IsDec(x) && IsLarge(x) && |x.digits| > PLAIN_DIGITS
    ensures Expanded(divide, x) != x
  {
    if divide(x) < PLAIN_LIMIT {
      WholeDec(divide(x));
      PlainLimit();
      FewDigits(divide(x), PLAIN_DIGITS);
    }
  }

  // ------------------------------------------------------------------ truncation

  /** `getFixed`. */
  function GetFixed(number: string, decimals: nat): string {
    var parts := SplitOn(number, ".");
    if |parts| == 1 then parts[0]
    else if |parts[1]| < decimals then parts[0] + "." + parts[1]
    else parts[0] + "." + parts[1][..decimals]
  }

  lemma {:induction false} TruncationShape(s: string, d: nat)
    requires IsPlain(s)
    ensures var f := FractionPart(s);
            && IsPlain(GetFixed(s, d)) && WholePart(GetFixed(s, d)) == WholePart(s)
            && FractionPart(GetFixed(s, d)) == if |f| < d then f else f[..d]
  {
    var parts := SplitOn(s, ".");
    if |parts| == 1 {
      WholeIsPlain(parts[0]);
    } else if |parts[1]| < d {
      PointIsPlain(parts[0], parts[1]);
    } else {
      PointIsPlain(parts[0], parts[1][..d]);
    }
  }

  /** Truncation to `d` places gives the greatest multiple of ten to the -d not above the value. */
  lemma {:induction false} TruncationIsFloor(s: string, d: nat, p: nat)
    requires IsPlain(s) && |FractionPart(s)| <= p && d <= p
    ensures IsPlain(GetFixed(s, d)) && |FractionPart(GetFixed(s, d))| <= d
    ensures PlainUnits(GetFixed(s, d), d) == Quotient(PlainUnits(s, p), TenTo(p - d))
  {
    TruncationShape(s, d);
    if |FractionPart(s)| < d {
      UnitsOfShort(s, GetFixed(s, d), d, p);
    } else {
      UnitsOfLong(s, GetFixed(s, d), d, p);
    }
  }

  lemma {:induction false} UnitsOfShort(s: string, t: string, d: nat, p: nat)
    requires IsPlain(s) && IsPlain(t) && |FractionPart(s)| < d <= p
    requires WholePart(t) == WholePart(s) && FractionPart(t) == FractionPart(s)
    ensures PlainUnits(t, d) == Quotient(PlainUnits(s, p), TenTo(p - d))
  {
    var f := FractionPart(s);
    QuotientOfPadded(Int(WholePart(s) + f), d - |f|, p - d);
  }

  lemma {:induction false} CutInt(w: string, f: string, d: nat)
    requires AllDigits(w) && AllDigits(f) && d <= |f|
    ensures AllDigits(w + f) && AllDigits(w + f[..d])
    ensures Quotient(Int(w + f), TenTo(|f| - d)) == Int(w + f[..d])
  {
    var head, tail := w + f[..d], f[d..];
    assert w + f == head + tail;
    IntAppend(head, tail);
    QuotientOfAppended(Int(head), Int(tail), |tail|);
  }

  lemma {:induction false} UnitsOfLong(s: string, t: string, d: nat, p: nat)
    requires IsPlain(s) && IsPlain(t) && d <= |FractionPart(s)| <= p
    requires WholePart(t) == WholePart(s) && FractionPart(t) == FractionPart(s)[..d]
    ensures PlainUnits(t, d) == Quotient(PlainUnits(s, p), TenTo(p - d))
  {
    var f := FractionPart(s);
    CutInt(WholePart(s), f, d);
    QuotientPadded(Int(WholePart(s) + f), |f| - d, p - |f|);
  }

  lemma {:induction false} TruncationIdempotent(s: string, d: nat)
    requires IsPlain(s)
    ensures GetFixed(GetFixed(s, d), d) == GetFixed(s, d)
  {
    var parts := SplitOn(s, ".");
    if |parts| == 1 {
      WholeIsPlain(parts[0]);
    } else if |parts[1]| < d {
      PointIsPlain(parts[0], parts[1]);
    } else {
      PointIsPlain(parts[0], parts[1][..d]);
      assert parts[1][..d][..d] == parts[1][..d];
    }
  }

  // ------------------------------------------------------------------ expansion, then truncation

  function Truncated(divide: Division, x: Dec, d: nat): string {
    GetFixed(Expand(divide, x), d)
  }

  /** A plain text reads as the value it denotes. */
  lemma {:induction false} PlainReads(s: string, p: nat)
    requires IsPlain(s) && |FractionPart(s)| <= p
    ensures IsDec(Parse(s)) && FractionDigits(Parse(s)) <= p && Units(Parse(s), p) == PlainUnits(s, p)
  {
    CanonicalUnits(WholePart(s) + FractionPart(s), |WholePart(s)|, p);
    if 'e' in s {
      SplitCovers(s, ".", 'e');
    }
    SplitAbsent(s, "e");
  }

  lemma {:induction false} PlainTruncated(z: Dec, d: nat, p: nat)
    requires IsDec(z) && FractionDigits(z) <= p && d <= p
    ensures IsFloorText(GetFixed(Plain(z), d), z, d, p)
    ensures GetFixed(GetFixed(Plain(z), d), d) == GetFixed(Plain(z), d)
  {
    PlainDenotes(z, p);
    TruncationIsFloor(Plain(z), d, p);
    TruncationIdempotent(Plain(z), d);
  }

  /** A plain text with at most d places that denotes the floor of z at d places. */
  predicate IsFloorText(s: string, z: Dec, d: nat, p: nat)
    requires IsDec(z) && FractionDigits(z) <= p && d <= p
  {
    IsPlain(s) && |FractionPart(s)| <= d && PlainUnits(s, d) == Quotient(Units(z, p), TenTo(p - d))
  }

  /** A quotient of ten to the 21 leaves a text without a point, which truncation does not shorten. */
  lemma {:induction false} OverflowTruncated(divide: Division, x: Dec, d: nat)
    requires Overflows(divide, x)
    ensures Truncated(divide, x, d) == Expand(divide, x)
  {
    OverflowText(divide(x), Excess(x));
    OverflowFixed(Excess(x), d);
  }

  lemma {:induction false} OverflowFixed(rest: nat, d: nat)
    ensures GetFixed("1e+21" + Zeros(rest), d) == "1e+21" + Zeros(rest)
  {
    SplitAbsent("1e+21" + Zeros(rest), ".");
  }

  lemma {:induction false} PaddedTruncated(n: nat, rest: nat, d: nat, p: nat)
    requires 0 < n < PLAIN_LIMIT && d <= p
    ensures FractionDigits(Padded(n, rest)) <= p
    ensures IsFloorText(GetFixed(BeforeZeros(n, rest), d), Padded(n, rest), d, p)
    ensures GetFixed(GetFixed(BeforeZeros(n, rest), d), d) == GetFixed(BeforeZeros(n, rest), d)
  {
    FittingText(n, rest);
    WholeDec(n);
    PlainTruncated(Shift(DecOf(n, 0), rest), d, p);
  }

  lemma {:induction false} LargeTruncated(divide: Division, x: Dec, d: nat, p: nat)
    requires IsLarge(x) && 0 < divide(x) < PLAIN_LIMIT && d <= p
    ensures FractionDigits(Padded(divide(x), Excess(x))) <= p
    ensures IsFloorText(Truncated(divide, x, d), Padded(divide(x), Excess(x)), d, p)
    ensures GetFixed(Truncated(divide, x, d), d) == Truncated(divide, x, d)
  {
    PaddedTruncated(divide(x), Excess(x), d, p);
  }

  /** Otherwise the two together give the greatest multiple of ten to the -d not above the number that the
      expansion denotes, and truncating again changes nothing. */
  lemma {:induction false} TruncatedIsFloor(divide: Division, x: Dec, d: nat, p: nat)
    requires IsDivision(divide) && IsDec(x) && !Overflows(divide, x)
    requires FractionDigits(Expanded(divide, x)) <= p && d <= p
    ensures IsFloorText(Truncated(divide, x, d), Expanded(divide, x), d, p)
    ensures GetFixed(Truncated(divide, x, d), d) == Truncated(divide, x, d)
  {
    if IsLarge(x) {
      LargeTruncated(divide, x, d, p);
    } else {
      PlainTruncated(x, d, p);
    }
  }

  /** Within range that number is the one expanded. */
  lemma {:induction false} KeptTruncated(divide: Division, x: Dec, d: nat, p: nat)
    requires IsDivision(divide) && IsDec(x) && IsKept(x) && FractionDigits(x) <= p && d <= p
    ensures IsFloorText(Truncated(divide, x, d), x, d, p)
  {
    KeptExpanded(divide, x);
    TruncatedIsFloor(divide, x, d, p);
  }
}
