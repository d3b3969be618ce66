/** The balance text that a raw balance is turned into, what it reads as, and how far that is from the
    balance. Everything is stated in integers: readings in millionths, balances in raw units. */
module BalanceTexts {
  import opened NatMath
  import opened Strings
  import opened Decimals
  import opened AmountStrings
  import opened RawUnits

  /** `getBalanceToken`: the raw balance times ten to the -decimals, a power that is itself rounded to
      20 places and so vanishes beyond them, expanded and truncated to six places. */
  function TokenBalance(divide: Division, raw: nat, decimals: nat): string {
    Truncated(divide, if decimals <= DIVISION_PLACES then DecOf(raw, decimals) else ZERO, BALANCE_DECIMAL_PLACES)
  }

  /** A balance of ten to the 21 or more, of a token with at most 20 decimals. */
  predicate IsLargeBalance(raw: nat, decimals: nat) {
    decimals <= DIVISION_PLACES && IsLarge(DecOf(raw, decimals))
  }

  /** What a whole quotient in front of `rest` zeros shows, in millionths. */
  function ShownQuotient(n: nat, rest: nat): nat {
    if n == PLAIN_LIMIT then TenTo(Lengthened(rest) + BALANCE_DECIMAL_PLACES)
    else Product(n, TenTo(rest + BALANCE_DECIMAL_PLACES))
  }

  /** The balance that the text shows, in millionths: nothing beyond 20 decimals, every whole millionth
      below ten to the 21, and from there on the rounded quotient with its zeros, unless that overflows. */
  function Shown(divide: Division, raw: nat, decimals: nat): nat {
    var x := DecOf(raw, decimals);
    if decimals > DIVISION_PLACES then 0
    else if !IsLarge(x) then FormatPoint(raw, decimals)
    else ShownQuotient(divide(x), Excess(x))
  }

  /** The text reads as so many millionths. */
  predicate ReadsAs(text: string, millionths: nat) {
    IsDec(Parse(text)) && DenotesMillionths(Parse(text), millionths)
  }

  predicate DenotesMillionths(z: Dec, millionths: nat)
    requires IsDec(z)
  {
    FractionDigits(z) <= BALANCE_DECIMAL_PLACES && Units(z, BALANCE_DECIMAL_PLACES) == millionths
  }

  // ------------------------------------------------------------------ what the text reads as

  lemma {:induction false} FloorReads(s: string, z: Dec, p: nat)
    requires IsDec(z) && FractionDigits(z) <= p && BALANCE_DECIMAL_PLACES <= p
    requires IsFloorText(s, z, BALANCE_DECIMAL_PLACES, p)
    ensures ReadsAs(s, Quotient(Units(z, p), TenTo(p - BALANCE_DECIMAL_PLACES)))
  {
    PlainReads(s, BALANCE_DECIMAL_PLACES);
  }

  lemma {:induction false} ZeroText(s: string, d: nat)
    requires s == Plain(ZERO)
    ensures GetFixed(s, d) == s && Parse(s) == ZERO
  {
    SplitAbsent(s, ".");
    ParsePlain(ZERO);
  }

  lemma {:induction false} ZeroReads(s: string)
    requires Parse(s) == ZERO
    ensures ReadsAs(s, 0)
  {
    ZeroUnits(ZERO, BALANCE_DECIMAL_PLACES);
  }

  lemma {:induction false} ZeroShown(divide: Division)
    ensures ReadsAs(Truncated(divide, ZERO, BALANCE_DECIMAL_PLACES), 0)
  {
    ZeroText(Expand(divide, ZERO), BALANCE_DECIMAL_PLACES);
    ZeroReads(Expand(divide, ZERO));
  }

  lemma {:induction false} ModestShown(divide: Division, raw: nat, decimals: nat)
    requires decimals <= DIVISION_PLACES && !IsLarge(DecOf(raw, decimals))
    ensures ReadsAs(Truncated(divide, DecOf(raw, decimals), BALANCE_DECIMAL_PLACES), FormatPoint(raw, decimals))
  {
    DecOfUnits(raw, decimals, DIVISION_PLACES);
    PlainTruncated(DecOf(raw, decimals), BALANCE_DECIMAL_PLACES, DIVISION_PLACES);
    FloorReads(Truncated(divide, DecOf(raw, decimals), BALANCE_DECIMAL_PLACES), DecOf(raw, decimals), DIVISION_PLACES);
    FormatPointScaled(raw, decimals, DIVISION_PLACES);
  }

  lemma {:induction false} WholeUnits(n: nat, rest: nat)
    requires n > 0
    ensures FractionDigits(Shift(DecOf(n, 0), rest)) == 0
    ensures Units(Shift(DecOf(n, 0), rest), BALANCE_DECIMAL_PLACES) == Product(n, TenTo(rest + BALANCE_DECIMAL_PLACES))
  {
    WholeDec(n);
    DecOfUnits(n, 0, rest + BALANCE_DECIMAL_PLACES);
  }

  lemma QuotientByOne(n: nat)
    ensures Quotient(n, TenTo(0)) == n
  {
  }

  lemma {:induction false} FittingShown(n: nat, rest: nat)
    requires 0 < n < PLAIN_LIMIT
    ensures ReadsAs(GetFixed(BeforeZeros(n, rest), BALANCE_DECIMAL_PLACES), ShownQuotient(n, rest))
  {
    WholeUnits(n, rest);
    PaddedTruncated(n, rest, BALANCE_DECIMAL_PLACES, BALANCE_DECIMAL_PLACES);
    FloorReads(GetFixed(BeforeZeros(n, rest), BALANCE_DECIMAL_PLACES), Padded(n, rest), BALANCE_DECIMAL_PLACES);
    QuotientByOne(Product(n, TenTo(rest + BALANCE_DECIMAL_PLACES)));
  }

  lemma IntOfOne()
    ensures Int("1") == 1
  {
    assert "1"[..0] == "";
  }

  lemma OneUnits(z: Dec, k: nat)
    requires z == Dec("1", 1 + k)
    ensures IsDec(z) && DenotesMillionths(z, TenTo(k + BALANCE_DECIMAL_PLACES))
  {
    IntOfOne();
  }

  lemma {:induction false} OneReads(s: string, k: nat)
    requires Parse(s) == Dec("1", 1 + k)
    ensures ReadsAs(s, TenTo(k + BALANCE_DECIMAL_PLACES))
  {
    OneUnits(Parse(s), k);
  }

  lemma {:induction false} LengthenedShown(s: string, rest: nat)
    requires s == "1e+21" + Zeros(rest) && Parse(s) == Dec("1", 1 + Lengthened(rest))
    ensures ReadsAs(GetFixed(s, BALANCE_DECIMAL_PLACES), TenTo(Lengthened(rest) + BALANCE_DECIMAL_PLACES))
  {
    OverflowFixed(rest, BALANCE_DECIMAL_PLACES);
    OneReads(s, Lengthened(rest));
  }

  lemma {:induction false} QuotientShown(n: nat, rest: nat)
    requires 0 < n <= PLAIN_LIMIT
    ensures ReadsAs(GetFixed(BeforeZeros(n, rest), BALANCE_DECIMAL_PLACES), ShownQuotient(n, rest))
  {
    if n == PLAIN_LIMIT {
      OverflowText(n, rest);
      LengthenedShown(BeforeZeros(n, rest), rest);
    } else {
      FittingShown(n, rest);
    }
  }

  lemma {:induction false} LargeShown(divide: Division, x: Dec)
    requires IsLarge(x) && 0 < divide(x) <= PLAIN_LIMIT
    ensures ReadsAs(Truncated(divide, x, BALANCE_DECIMAL_PLACES), ShownQuotient(divide(x), Excess(x)))
  {
    QuotientShown(divide(x), Excess(x));
  }

  /** The text of every balance reads as what `Shown` says. */
  lemma {:induction false} BalanceShown(divide: Division, raw: nat, decimals: nat)
    requires IsDivision(divide)
    ensures ReadsAs(TokenBalance(divide, raw, decimals), Shown(divide, raw, decimals))
  {
    if decimals > DIVISION_PLACES {
      ZeroShown(divide);
    } else if IsLargeBalance(raw, decimals) {
      LargeShown(divide, DecOf(raw, decimals));
    } else {
      ModestShown(divide, raw, decimals);
    }
  }
}
