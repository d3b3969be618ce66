/** Multiplication, division and powers of ten on naturals: the nonlinear facts, one by one. */
module NatMath {

  function Product(a: nat, b: nat): (r: nat)
    ensures r == a * b
  {
    a * b
  }

  /** The whole quotient, characterised by its bounds. */
  function Quotient(n: nat, t: nat): (q: nat)
    requires t > 0
    ensures q * t <= n < (q + 1) * t
  {
    DivisionBounds(n, t);
    n / t
  }

  lemma DivisionBounds(n: nat, t: nat)
    requires t > 0
    ensures 0 <= n / t && n / t * t <= n < (n / t + 1) * t
  {
    assert n == n / t * t + n % t;
    assert (n / t + 1) * t == n / t * t + t;
  }

  lemma Assoc(x: nat, y: nat, z: nat)
    ensures x * (y * z) == x * y * z
  {
  }

  lemma Distribute(x: nat, y: nat, z: nat)
    ensures (x + y) * z == x * z + y * z
  {
  }

  lemma TimesPositive(a: nat, b: nat)
    requires a > 0 && b > 0
    ensures a * b >= a && a * b >= b
  {
  }

  lemma TimesMonotone(a: nat, b: nat, t: nat)
    requires a <= b
    ensures a * t <= b * t
  {
  }

  lemma LessScaled(x: nat, y: nat, z: nat)
    requires x < y && z > 0
    ensures x * z < y * z
  {
  }

  lemma Shrinks(a: nat, t: nat)
    requires a > 0 && t >= 2
    ensures a < a * t
  {
  }

  /** Only one quotient has the bounds. */
  lemma QuotientIs(n: nat, t: nat, q: nat)
    requires t > 0 && q * t <= n < (q + 1) * t
    ensures Quotient(n, t) == q
  {
    var r := Quotient(n, t);
    if q < r {
      TimesMonotone(q + 1, r, t);
    } else if r < q {
      TimesMonotone(r + 1, q, t);
    }
  }

  lemma QuotientMonotone(a: nat, b: nat, t: nat)
    requires a <= b && t > 0
    ensures Quotient(a, t) <= Quotient(b, t)
  {
    if Quotient(a, t) > Quotient(b, t) {
      TimesMonotone(Quotient(b, t) + 1, Quotient(a, t), t);
    }
  }

  function TenTo(n: nat): (r: nat)
    ensures r >= 1
  {
    if n == 0 then 1 else 10 * TenTo(n - 1)
  }

  lemma {:induction false} TenToAdd(a: nat, b: nat)
    ensures TenTo(a + b) == TenTo(a) * TenTo(b)
  {
    if a > 0 {
      TenToAdd(a - 1, b);
      Assoc(10, TenTo(a - 1), TenTo(b));
    }
  }

  /** Padding by `a` and then by `b` is padding by both. */
  lemma ScaleTwice(x: nat, a: nat, b: nat)
    ensures x * TenTo(a) * TenTo(b) == x * TenTo(a + b)
  {
    TenToAdd(a, b);
    Assoc(x, TenTo(a), TenTo(b));
  }

  /** A padded number, shortened by part of the padding. */
  lemma QuotientOfPadded(x: nat, a: nat, b: nat)
    ensures Quotient(Product(x, TenTo(a + b)), TenTo(b)) == Product(x, TenTo(a))
  {
    var q, t := Product(x, TenTo(a)), TenTo(b);
    ScaleTwice(x, a, b);
    Distribute(q, 1, t);
    QuotientIs(Product(x, TenTo(a + b)), t, q);
  }

  /** Padding the dividend and the divisor alike changes nothing. */
  lemma QuotientPadded(x: nat, a: nat, b: nat)
    ensures Quotient(Product(x, TenTo(b)), TenTo(a + b)) == Quotient(x, TenTo(a))
  {
    var q, t, u := Quotient(x, TenTo(a)), TenTo(a), TenTo(b);
    TimesMonotone(q * t, x, u);
    LessScaled(x, (q + 1) * t, u);
    ScaleTwice(q, a, b);
    ScaleTwice(q + 1, a, b);
    QuotientIs(Product(x, u), TenTo(a + b), q);
  }

  /** Cutting off the last `a` digits. */
  lemma QuotientOfAppended(n: nat, r: nat, a: nat)
    requires r < TenTo(a)
    ensures Quotient(n * TenTo(a) + r, TenTo(a)) == n
  {
    Distribute(n, 1, TenTo(a));
    QuotientIs(n * TenTo(a) + r, TenTo(a), n);
  }

  lemma {:induction false} TenToMonotone(a: nat, b: nat)
    requires a <= b
    ensures TenTo(a) <= TenTo(b)
    decreases b
  {
    if a < b {
      TenToMonotone(a, b - 1);
    }
  }

  lemma {:induction false} TenToGrows(n: nat)
    ensures TenTo(n) >= n + 1
  {
    if n > 0 {
      TenToGrows(n - 1);
    }
  }

  /** The product with a power of ten, one factor at a time. */
  function Pad(n: nat, k: nat): nat {
    if k == 0 then n else 10 * Pad(n, k - 1)
  }

  lemma {:induction false} PadIs(n: nat, k: nat)
    ensures Pad(n, k) == n * TenTo(k)
  {
    if k > 0 {
      PadIs(n, k - 1);
      Regroup(n, TenTo(k - 1));
    }
  }

  lemma Regroup(n: nat, t: nat)
    ensures 10 * (n * t) == n * (10 * t)
  {
  }
}
