/** The funds check before a transaction: the verdict, what it guarantees and when it refuses. Amounts,
    balances and fees are exact reals; the token balance is the number that its text reads as. */
module Funds {
  import opened Wrappers
  import opened NatMath
  import opened Strings
  import opened Decimals
  import opened AmountStrings
  import opened RawUnits
  import opened BalanceTexts
  import opened BalanceBounds

  const MIN_REMAINING_TOKEN_AMOUNT := 0.01
  const MAX_MESSAGE_LENGTH: nat := 20000
  const MILLION := 1000000.0
  const WEI_PER_COIN := 1000000000000000000.0
  const GWEI_PER_COIN := 1000000000.0

  /** What the chain and the request say. `token` is the symbol, if any, with its raw balance and
      decimals; `estimatedGas` is missing when encoding or estimating fails. */
  datatype Token = Token(symbol: string, rawBalance: nat, decimals: nat)
  datatype Check = Check(
    wei: nat,
    token: Option<Token>,
    amount: real,
    estimatedGas: Option<nat>,
    feeAmount: Option<real>,
    multiply: Option<nat>,
    networkDefaultToken: string)

  datatype Message = NoMessage | InsufficientBalance | Failure
  datatype Verdict = Verdict(isSufficient: bool, fee: real, hasError: bool, message: Message)

  // ------------------------------------------------------------------ the pieces of the check

  /** `Math.ceil(estimatedGas * 1.5)`. */
  function GasLimit(estimatedGas: nat): nat {
    (3 * estimatedGas + 1) / 2
  }

  /** `multiply || 1`: no parts count as one. */
  function Parts(multiply: Option<nat>): nat {
    if multiply.None? || multiply.value == 0 then 1 else multiply.value
  }

  function TransactionFee(c: Check): real
    requires c.estimatedGas.Some?
  {
    var feeAmount := if c.feeAmount.None? then 0.0 else c.feeAmount.value;
    GasLimit(c.estimatedGas.value) as real * feeAmount / GWEI_PER_COIN * Parts(c.multiply) as real
  }

  /** What gas is charged for: the estimate and half of it, rounded up. */
  predicate IsGasLimit(estimatedGas: nat, limit: nat) {
    3 * estimatedGas <= 2 * limit < 3 * estimatedGas + 2
  }

  /** At least one part; as many as are named, or one for none or a missing count. */
  predicate IsPartCount(multiply: Option<nat>, parts: nat) {
    parts >= 1 && if multiply.None? then parts == 1 else parts == if multiply.value == 0 then 1 else multiply.value
  }

  predicate IsCharge(c: Check, fee: real, limit: nat, parts: nat)
    requires c.estimatedGas.Some?
  {
    && IsGasLimit(c.estimatedGas.value, limit) && IsPartCount(c.multiply, parts)
    && match c.feeAmount {
         case None => fee == 0.0
         case Some(price) => fee * 1000000000.0 == limit as real * price * parts as real
       }
  }

  /** The fee of the request in coins: the gas limit at the price in billionths of a coin, for each part. */
  ghost predicate IsFee(c: Check, fee: real) {
    c.estimatedGas.Some? && exists limit: nat, parts: nat :: IsCharge(c, fee, limit, parts)
  }

  lemma {:induction false} FeeIsCharged(c: Check)
    requires c.estimatedGas.Some?
    ensures IsFee(c, TransactionFee(c))
  {
    var g, p := GasLimit(c.estimatedGas.value), Parts(c.multiply);
    if c.feeAmount.Some? {
      Charged(g as real, c.feeAmount.value, p as real);
    }
    assert IsCharge(c, TransactionFee(c), g, p);
  }

  lemma Charged(g: real, price: real, p: real)
    ensures g * price / GWEI_PER_COIN * p * GWEI_PER_COIN == g * price * p
  {
    var x := g * price / GWEI_PER_COIN;
    assert x * GWEI_PER_COIN == g * price;
    assert x * p * GWEI_PER_COIN == x * GWEI_PER_COIN * p;
  }

  /** There is no other. */
  lemma FeeUnique(c: Check, fee: real)
    requires IsFee(c, fee)
    ensures fee == TransactionFee(c)
  {
    var limit: nat, parts: nat :| IsCharge(c, fee, limit, parts);
    assert limit == GasLimit(c.estimatedGas.value) && parts == Parts(c.multiply);
    if c.feeAmount.Some? {
      Charged(limit as real, c.feeAmount.value, parts as real);
    }
  }

  function NativeBalance(wei: nat): real {
    wei as real / WEI_PER_COIN
  }

  /** The number that a text denotes. */
  function RealOf(z: Dec): real
    requires IsDec(z)
  {
    Units(z, FractionDigits(z)) as real / TenTo(FractionDigits(z)) as real
  }

  /** The token balance as the check reads it. */
  function ReadBalance(divide: Division, t: Token): real {
    Shown(divide, t.rawBalance, t.decimals) as real / MILLION
  }

  function TrueBalance(t: Token): real {
    t.rawBalance as real / TenTo(t.decimals) as real
  }

  predicate HasToken(c: Check) {
    c.token.Some? && |c.token.value.symbol| > 0
  }

  predicate IsNative(c: Check) {
    c.token.Some? && Lower(c.token.value.symbol) == Lower(c.networkDefaultToken)
  }

  function Max(x: real, y: real): real {
    if x < y then y else x
  }

  /** The condition under which the check answers yes, over the balance it reads. */
  predicate IsSufficient(divide: Division, c: Check) {
    c.estimatedGas.Some? &&
    var fee, native := TransactionFee(c), NativeBalance(c.wei);
    if !HasToken(c) then native >= fee
    else if IsNative(c) then c.amount + Max(MIN_REMAINING_TOKEN_AMOUNT, fee) <= native
    else ReadBalance(divide, c.token.value) >= c.amount && native >= fee
  }

  /** What the answer to a priced request says: the coins cover the fee; the coins cover the amount with the
      fee and with a hundredth of a coin; or the coins cover the fee and the token's text the amount. */
  ghost predicate IsAnswer(divide: Division, c: Check, fee: real, isSufficient: bool) {
    if c.token.None? || c.token.value.symbol == "" then isSufficient <==> fee * 1000000000000000000.0 <= c.wei as real
    else if Lower(c.token.value.symbol) == Lower(c.networkDefaultToken) then
      isSufficient <==> (c.amount + fee) * 1000000000000000000.0 <= c.wei as real &&
                        (c.amount + 0.01) * 1000000000000000000.0 <= c.wei as real
    else
      forall m: nat :: ReadsAs(TokenBalance(divide, c.token.value.rawBalance, c.token.value.decimals), m) ==>
        (isSufficient <==> fee * 1000000000000000000.0 <= c.wei as real && c.amount * 1000000.0 <= m as real)
  }

  lemma {:induction false} SufficientAnswers(divide: Division, c: Check)
    requires IsDivision(divide) && c.estimatedGas.Some?
    ensures IsAnswer(divide, c, TransactionFee(c), IsSufficient(divide, c))
  {
    if IsOtherToken(c) {
      BalanceShown(divide, c.token.value.rawBalance, c.token.value.decimals);
    }
  }

  /** `isEnoughBalance`, which reads the token balance from its text, and whose verdict is first about the
      fee and then overwritten for tokens. */
  method IsEnoughBalance(divide: Division, c: Check) returns (v: Verdict)
    requires IsDivision(divide)
    ensures v.isSufficient <==> IsSufficient(divide, c)
    ensures v.hasError <==> c.estimatedGas.None?
    ensures if c.estimatedGas.Some? then IsFee(c, v.fee) else v.fee == 0.0
    ensures !v.hasError ==> IsAnswer(divide, c, v.fee, v.isSufficient)
    ensures v.isSufficient && c.amount >= 0.0 ==> v.message == NoMessage
    ensures !v.isSufficient ==> v.message == if v.hasError then Failure else InsufficientBalance
  {
    var network := NativeBalance(c.wei);
    var tokenBalance := network;
    if c.token.Some? && |c.token.value.symbol| > 0 {
      tokenBalance := GetTokenBalance(divide, c.token.value);
    }
    if c.estimatedGas.None? {
      return Verdict(false, 0.0, true, Failure);
    }
    var total := TransactionFee(c);
    FeeIsCharged(c);
    SufficientAnswers(divide, c);
    var isSufficient := network >= total;
    var message := if isSufficient then NoMessage else InsufficientBalance;
    if c.token.Some? && |c.token.value.symbol| > 0 {
      if IsNative(c) {
        var maxSendTokenAmount := network - Max(MIN_REMAINING_TOKEN_AMOUNT, total);
        isSufficient := c.amount <= maxSendTokenAmount;
      } else {
        isSufficient := tokenBalance >= c.amount && network >= total;
      }
      if !isSufficient {
        message := InsufficientBalance;
      }
    }
    return Verdict(isSufficient, total, false, message);
  }

  method GetTokenBalance(divide: Division, t: Token) returns (balance: real)
    requires IsDivision(divide)
    ensures balance == ReadBalance(divide, t)
  {
    BalanceShown(divide, t.rawBalance, t.decimals);
    var z := Parse(TokenBalance(divide, t.rawBalance, t.decimals));
    balance := RealOf(z);
    MillionthsValue(z, Shown(divide, t.rawBalance, t.decimals));
  }

  /** The true balances cover the amount and such a fee. */
  predicate Covers(c: Check, fee: real) {
    if !HasToken(c) then fee * 1000000000000000000.0 <= c.wei as real
    else if IsNative(c) then (c.amount + fee) * 1000000000000000000.0 <= c.wei as real
    else c.amount <= TrueBalance(c.token.value) && fee * 1000000000000000000.0 <= c.wei as real
  }

  /** What a user would call enough. */
  ghost predicate IsTrulyAffordable(c: Check) {
    exists fee: real :: IsFee(c, fee) && Covers(c, fee)
  }

  lemma {:induction false} AffordableIff(c: Check)
    requires c.estimatedGas.Some?
    ensures IsTrulyAffordable(c) <==> Covers(c, TransactionFee(c))
  {
    FeeIsCharged(c);
    if IsTrulyAffordable(c) {
      var fee: real :| IsFee(c, fee) && Covers(c, fee);
      FeeUnique(c, fee);
    }
  }

  // ------------------------------------------------------------------ readings and true balances

  lemma CancelReal(a: real, b: real, t: real)
    requires t > 0.0
    ensures a * t <= b * t ==> a <= b
    ensures a * t < b * t ==> a < b
  {
  }

  lemma ProductAsReal(a: nat, b: nat)
    ensures Product(a, b) as real == a as real * b as real
  {
  }

  lemma Ratio(n: real, t: real)
    requires t > 0.0
    ensures n / t * t == n
  {
  }

  lemma AssocReal(x: real, y: real, z: real)
    ensures x * y * z == x * (y * z)
  {
  }

  lemma PaddedRatio(n: real, u: real, d: real)
    requires d > 0.0 && d * u == MILLION
    ensures n * u / MILLION == n / d
  {
    var x := n / d;
    Ratio(n, d);
    AssocReal(x, d, u);
    assert n * u == x * MILLION;
  }

  lemma PowersMeet(p: nat)
    requires p <= 6
    ensures TenTo(p) as real * TenTo(6 - p) as real == MILLION
  {
    assert TenTo(6) == 1000000;
    TenToAdd(p, 6 - p);
    ProductAsReal(TenTo(p), TenTo(6 - p));
  }

  lemma PaddedProduct(n: nat, u: nat, d: nat, q: nat)
    requires d > 0 && d as real * u as real == MILLION && q == Product(n, u)
    ensures q as real / MILLION == n as real / d as real
  {
    ProductAsReal(n, u);
    PaddedRatio(n as real, u as real, d as real);
  }

  lemma {:induction false} MillionthsValue(z: Dec, q: nat)
    requires IsDec(z) && DenotesMillionths(z, q)
    ensures RealOf(z) == q as real / MILLION
  {
    var p := FractionDigits(z);
    UnitsScaled(z, p, 6 - p);
    PowersMeet(p);
    PaddedProduct(Units(z, p), TenTo(6 - p), TenTo(p), q);
  }

  lemma {:induction false} UnitsScaled(z: Dec, p: nat, n: nat)
    requires IsDec(z) && FractionDigits(z) <= p
    ensures Units(z, p + n) == Product(Units(z, p), TenTo(n))
  {
    ScaleTwice(Int(z.digits), p + z.point - |z.digits|, n);
  }

  /** Comparing ratios crosswise. */
  lemma CrossReal(a: real, u: real, b: real, t: real)
    requires u > 0.0 && t > 0.0
    ensures a / u <= b / t <==> a * t <= b * u
  {
    var x, y := a / u, b / t;
    Ratio(a, u);
    Ratio(b, t);
    AssocReal(x, u, t);
    AssocReal(y, t, u);
    assert a * t == x * (u * t) && b * u == y * (u * t);
    CancelReal(x, y, u * t);
    CancelReal(y, x, u * t);
  }

  lemma CrossNat(a: nat, u: nat, b: nat, t: nat)
    requires u > 0 && t > 0
    ensures a as real / u as real <= b as real / t as real <==> Product(a, t) <= Product(b, u)
  {
    ProductAsReal(a, t);
    ProductAsReal(b, u);
    CrossReal(a as real, u as real, b as real, t as real);
  }

  lemma OverMillion(x: nat, y: nat)
    ensures x as real / MILLION <= y as real / MILLION <==> x <= y
  {
  }

  lemma NextMillionth(q: nat)
    ensures (q + 1) as real / MILLION == q as real / MILLION + 1.0 / MILLION
  {
  }

  /** The reading is at most the true balance unless the quotient is rounded up, and at most one millionth
      short of it unless one is dropped. */
  lemma {:induction false} ReadingBounds(divide: Division, t: Token)
    ensures ReadBalance(divide, t) <= TrueBalance(t) <==> !RoundsUp(divide, t.rawBalance, t.decimals)
    ensures TrueBalance(t) <= ReadBalance(divide, t) + 1.0 / MILLION <==>
            !DropsMillionth(divide, t.rawBalance, t.decimals)
  {
    var q := Shown(divide, t.rawBalance, t.decimals);
    assert TenTo(6) == 1000000;
    ShownBounds(divide, t.rawBalance, t.decimals);
    CrossNat(q, TenTo(6), t.rawBalance, TenTo(t.decimals));
    CrossNat(t.rawBalance, TenTo(t.decimals), q + 1, TenTo(6));
    NextMillionth(q);
  }

  // ------------------------------------------------------------------ soundness and near completeness

  /** The same request for another amount. */
  function Asking(c: Check, amount: real): Check {
    c.(amount := amount)
  }

  predicate IsOtherToken(c: Check) {
    HasToken(c) && !IsNative(c)
  }

  /** A sufficient verdict is true of the true balances, unless the token's text overstates its balance. */
  lemma {:induction false} SufficientIsTrue(divide: Division, c: Check)
    requires c.estimatedGas.Some?
    requires IsOtherToken(c) ==> !RoundsUp(divide, c.token.value.rawBalance, c.token.value.decimals)
    ensures IsSufficient(divide, c) ==> IsTrulyAffordable(c)
  {
    AffordableIff(c);
    if IsOtherToken(c) {
      ReadingBounds(divide, c.token.value);
    }
  }

  predicate IsFeeCovered(c: Check) {
    c.estimatedGas.Some? && NativeBalance(c.wei) >= TransactionFee(c)
  }

  lemma {:induction false} AskingOther(divide: Division, c: Check, a: real)
    requires c.estimatedGas.Some? && IsOtherToken(c)
    ensures IsSufficient(divide, Asking(c, a)) <==> IsFeeCovered(c) && a <= ReadBalance(divide, c.token.value)
    ensures IsTrulyAffordable(Asking(c, a)) <==> IsFeeCovered(c) && a <= TrueBalance(c.token.value)
  {
    assert TransactionFee(Asking(c, a)) == TransactionFee(c);
    AffordableIff(Asking(c, a));
  }

  /** Whatever is asked of the token, sufficient means affordable: exactly when the fee is not covered
      anyway or the quotient of the token's balance is not rounded up. */
  lemma {:induction false} SoundIff(divide: Division, c: Check)
    requires c.estimatedGas.Some? && IsOtherToken(c)
    ensures (forall a: real :: IsSufficient(divide, Asking(c, a)) ==> IsTrulyAffordable(Asking(c, a))) <==>
            !IsFeeCovered(c) || !RoundsUp(divide, c.token.value.rawBalance, c.token.value.decimals)
  {
    ReadingBounds(divide, c.token.value);
    SoundWithin(divide, c, ReadBalance(divide, c.token.value), TrueBalance(c.token.value));
  }

  lemma {:induction false} SoundWithin(divide: Division, c: Check, shown: real, held: real)
    requires c.estimatedGas.Some? && IsOtherToken(c)
    requires shown == ReadBalance(divide, c.token.value) && held == TrueBalance(c.token.value)
    ensures (forall a: real :: IsSufficient(divide, Asking(c, a)) ==> IsTrulyAffordable(Asking(c, a))) <==>
            !IsFeeCovered(c) || shown <= held
  {
    AskingOther(divide, c, shown);
    forall a: real ensures IsSufficient(divide, Asking(c, a)) && shown <= held ==> IsTrulyAffordable(Asking(c, a)) {
      AskingOther(divide, c, a);
    }
    if !IsFeeCovered(c) {
      forall a: real ensures !IsSufficient(divide, Asking(c, a)) {
        AskingOther(divide, c, a);
      }
    }
  }

  /** With the fee covered, one millionth of slack in the token is always enough: exactly when its text
      drops no more than that. */
  lemma {:induction false} SlackIff(divide: Division, c: Check)
    requires IsFeeCovered(c) && IsOtherToken(c)
    ensures (forall a: real :: a + 1.0 / MILLION <= TrueBalance(c.token.value) ==>
             IsSufficient(divide, Asking(c, a))) <==>
            !DropsMillionth(divide, c.token.value.rawBalance, c.token.value.decimals)
  {
    ReadingBounds(divide, c.token.value);
    SlackWithin(divide, c, ReadBalance(divide, c.token.value), TrueBalance(c.token.value));
  }

  lemma {:induction false} SlackWithin(divide: Division, c: Check, shown: real, held: real)
    requires IsFeeCovered(c) && IsOtherToken(c) && shown == ReadBalance(divide, c.token.value)
    ensures (forall a: real :: a + 1.0 / MILLION <= held ==> IsSufficient(divide, Asking(c, a))) <==>
            held <= shown + 1.0 / MILLION
  {
    AskingOther(divide, c, held - 1.0 / MILLION);
    forall a: real ensures IsSufficient(divide, Asking(c, a)) <==> a <= shown {
      AskingOther(divide, c, a);
    }
  }

  // ------------------------------------------------------------------ monotonicity

  /** Less gas, a lower price or fewer parts. */
  predicate CheaperFee(c: Check, d: Check)
    requires c.estimatedGas.Some? && d.estimatedGas.Some?
  {
    && c.estimatedGas.value <= d.estimatedGas.value
    && (if c.feeAmount.None? then 0.0 else c.feeAmount.value) <= (if d.feeAmount.None? then 0.0 else d.feeAmount.value)
    && Parts(c.multiply) <= Parts(d.multiply)
  }

  lemma ProductMonotone(a: real, b: real, x: real, y: real)
    requires 0.0 <= a <= b && 0.0 <= x <= y
    ensures 0.0 <= a * x <= b * y
  {
    assert a * x <= a * y <= b * y;
  }

  lemma FeeMonotone(c: Check, d: Check)
    requires c.estimatedGas.Some? && d.estimatedGas.Some? && CheaperFee(c, d)
    requires c.feeAmount.Some? ==> c.feeAmount.value >= 0.0
    ensures 0.0 <= TransactionFee(c) <= TransactionFee(d)
  {
    var p := if c.feeAmount.None? then 0.0 else c.feeAmount.value;
    var q := if d.feeAmount.None? then 0.0 else d.feeAmount.value;
    var g, h := GasLimit(c.estimatedGas.value) as real, GasLimit(d.estimatedGas.value) as real;
    ProductMonotone(g, h, p, q);
    ProductMonotone(g * p / GWEI_PER_COIN, h * q / GWEI_PER_COIN, Parts(c.multiply) as real, Parts(d.multiply) as real);
  }

  /** The request `d` has balances at least those of `c` and asks for no more; a larger token balance must
      not be shown as less. */
  predicate NoWorse(divide: Division, c: Check, d: Check)
    requires c.estimatedGas.Some? && d.estimatedGas.Some?
  {
    && c.wei <= d.wei && d.amount <= c.amount && CheaperFee(d, c) && c.networkDefaultToken == d.networkDefaultToken
    && (d.feeAmount.Some? ==> d.feeAmount.value >= 0.0)
    && match (c.token, d.token) {
         case (None, None) => true
         case (Some(t), Some(u)) =>
           && t.symbol == u.symbol && t.decimals == u.decimals && t.rawBalance <= u.rawBalance
           && !ShowsLess(divide, t.rawBalance, u.rawBalance, t.decimals)
         case _ => false
       }
  }

  lemma {:induction false} ReadingMonotoneIff(divide: Division, t: Token, u: Token)
    requires IsDivision(divide) && t.decimals == u.decimals && t.rawBalance <= u.rawBalance
    ensures ReadBalance(divide, t) <= ReadBalance(divide, u) <==>
            !ShowsLess(divide, t.rawBalance, u.rawBalance, t.decimals)
  {
    ShownMonotoneIff(divide, t.rawBalance, u.rawBalance, t.decimals);
    OverMillion(Shown(divide, t.rawBalance, t.decimals), Shown(divide, u.rawBalance, u.decimals));
  }

  /** More balance, a smaller amount, a lower fee or fewer parts never turn sufficient into insufficient. */
  lemma {:induction false} VerdictMonotone(divide: Division, c: Check, d: Check)
    requires IsDivision(divide) && c.estimatedGas.Some? && d.estimatedGas.Some?
    ensures NoWorse(divide, c, d) && IsSufficient(divide, c) ==> IsSufficient(divide, d)
  {
    if NoWorse(divide, c, d) {
      FeeMonotone(d, c);
      if c.token.Some? {
        ReadingMonotoneIff(divide, c.token.value, d.token.value);
      }
      assert NativeBalance(c.wei) <= NativeBalance(d.wei);
    }
  }

  /** The same request of a holder of `more` of the token. */
  function Holding(c: Check, more: nat): Check
    requires c.token.Some?
  {
    c.(token := Some(c.token.value.(rawBalance := more)))
  }

  lemma HoldingAlike(c: Check, more: nat)
    requires c.token.Some?
    ensures IsFeeCovered(Holding(c, more)) == IsFeeCovered(c) && IsOtherToken(Holding(c, more)) == IsOtherToken(c)
  {
  }

  /** With the fee covered, whatever a balance pays for a larger one pays for too: exactly unless the larger
      one is shown as less. */
  lemma {:induction false} MorePaysIff(divide: Division, c: Check, more: nat)
    requires IsDivision(divide) && IsFeeCovered(c) && IsOtherToken(c) && c.token.value.rawBalance <= more
    ensures (forall a: real :: IsSufficient(divide, Asking(c, a)) ==>
             IsSufficient(divide, Asking(Holding(c, more), a))) <==>
            !ShowsLess(divide, c.token.value.rawBalance, more, c.token.value.decimals)
  {
    ReadingMonotoneIff(divide, c.token.value, Holding(c, more).token.value);
    HoldingAlike(c, more);
    BothPay(divide, c, Holding(c, more));
  }

  lemma {:induction false} BothPay(divide: Division, c: Check, d: Check)
    requires IsFeeCovered(c) && IsOtherToken(c) && IsFeeCovered(d) && IsOtherToken(d)
    ensures (forall a: real :: IsSufficient(divide, Asking(c, a)) ==> IsSufficient(divide, Asking(d, a))) <==>
            ReadBalance(divide, c.token.value) <= ReadBalance(divide, d.token.value)
  {
    AskingOther(divide, c, ReadBalance(divide, c.token.value));
    AskingOther(divide, d, ReadBalance(divide, c.token.value));
    forall a: real ensures IsSufficient(divide, Asking(c, a)) <==> a <= ReadBalance(divide, c.token.value) {
      AskingOther(divide, c, a);
    }
    forall a: real ensures IsSufficient(divide, Asking(d, a)) <==> a <= ReadBalance(divide, d.token.value) {
      AskingOther(divide, d, a);
    }
  }

  // ------------------------------------------------------------------ message parts

  /** `Math.ceil(length / MAX_MESSAGE_LENGTH)`. */
  function NumberOfParts(length: nat): nat {
    (length + (MAX_MESSAGE_LENGTH - 1)) / MAX_MESSAGE_LENGTH
  }

  /** The parts cover the message and one fewer would not; a longer message never costs less, and an
      empty one costs as much as one part. */
  lemma PartsCover(length: nat, longer: nat)
    requires length <= longer
    ensures length <= NumberOfParts(length) * 20000 < length + 20000
    ensures Parts(Some(NumberOfParts(length))) <= Parts(Some(NumberOfParts(longer)))
    ensures Parts(Some(NumberOfParts(0))) == 1
  {
  }
}
