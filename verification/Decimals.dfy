/** Exact non-negative decimal numbers and the two notations they are printed in. A value is given in
    units of ten to the -p, for any precision p fine enough for it. */
module Decimals {
  import opened NatMath
  import opened Strings

  // ------------------------------------------------------------------ decimals

  /** The number 0.d1d2...dk times ten to the `point`. */
  datatype Dec = Dec(digits: string, point: int)

  const ZERO := Dec("", 0)

  /** No superfluous zero at either end, so every number has one representation. */
  predicate IsDec(x: Dec) {
    && AllDigits(x.digits)
    && if |x.digits| == 0 then x.point == 0 else x.digits[0] != '0' && x.digits[|x.digits| - 1] != '0'
  }

  /** How many digits after the point the number has. */
  function FractionDigits(x: Dec): nat {
    if x.point < |x.digits| then |x.digits| - x.point else 0
  }

  function Units(x: Dec, p: nat): nat
    requires IsDec(x) && FractionDigits(x) <= p
  {
    Int(x.digits) * TenTo(p + x.point - |x.digits|)
  }

  /** Multiplication by a power of ten. */
  function Shift(x: Dec, e: int): Dec {
    if |x.digits| == 0 then x else x.(point := x.point + e)
  }

  // ------------------------------------------------------------------ printing

  /** Plain notation, however long. */
  function Plain(x: Dec): string {
    var k := |x.digits|;
    if k == 0 then "0"
    else if x.point <= 0 then "0." + (Zeros(-x.point) + x.digits)
    else if k <= x.point then x.digits + Zeros(x.point - k)
    else x.digits[..x.point] + "." + x.digits[x.point..]
  }

  function Mantissa(digits: string): string
    requires |digits| > 0
  {
    if |digits| == 1 then digits else digits[..1] + "." + digits[1..]
  }

  /** `toString` of a number: scientific from ten to the 21 and below ten to the -6. */
  function Print(x: Dec): string {
    if |x.digits| > 0 && x.point > 21 then Mantissa(x.digits) + "e+" + PrintNat(x.point - 1)
    else if |x.digits| > 0 && x.point <= -6 then Mantissa(x.digits) + "e-" + PrintNat(1 - x.point)
    else Plain(x)
  }

  // ------------------------------------------------------------------ reading plain notation

  predicate IsPlain(s: string) {
    var parts := SplitOn(s, ".");
    |parts| <= 2 && AllDigits(parts[0]) && (|parts| == 2 ==> AllDigits(parts[1]))
  }

  function WholePart(s: string): string
    requires IsPlain(s)
  {
    SplitOn(s, ".")[0]
  }

  function FractionPart(s: string): string
    requires IsPlain(s)
  {
    var parts := SplitOn(s, ".");
    if |parts| == 1 then "" else parts[1]
  }

  function PlainUnits(s: string, p: nat): nat
    requires IsPlain(s) && |FractionPart(s)| <= p
  {
    Int(WholePart(s) + FractionPart(s)) * TenTo(p - |FractionPart(s)|)
  }

  lemma {:induction false} WholeIsPlain(a: string)
    requires AllDigits(a)
    ensures IsPlain(a) && WholePart(a) == a && FractionPart(a) == "" && SplitOn(a, ".") == [a]
  {
    SplitAbsent(a, ".");
  }

  lemma {:induction false} PointIsPlain(a: string, b: string)
    requires AllDigits(a) && AllDigits(b)
    ensures IsPlain(a + "." + b) && WholePart(a + "." + b) == a && FractionPart(a + "." + b) == b
    ensures SplitOn(a + "." + b, ".") == [a, b]
  {
    SplitFirst(a, ".", b);
    SplitAbsent(b, ".");
  }

  lemma {:induction false} IntLeadingZeros(n: nat, s: string)
    requires AllDigits(s)
    ensures AllDigits(Zeros(n) + s) && Int(Zeros(n) + s) == Int(s)
  {
    IntAppend(Zeros(n), s);
    IntZeros(n);
  }

  lemma {:induction false} IntTrailingZeros(s: string, n: nat)
    requires AllDigits(s)
    ensures AllDigits(s + Zeros(n)) && Int(s + Zeros(n)) == Int(s) * TenTo(n)
  {
    IntAppend(s, Zeros(n));
    IntZeros(n);
  }

  lemma IntOfZero()
    ensures Int("0") == 0
  {
    assert "0"[..0] == "";
  }

  lemma {:induction false} PlainSmall(x: Dec, p: nat)
    requires IsDec(x) && |x.digits| > 0 && x.point <= 0 && FractionDigits(x) <= p
    ensures Denotes(Plain(x), x, p)
  {
    var fraction := Zeros(-x.point) + x.digits;
    PointIsPlain("0", fraction);
    assert "0" + fraction == Zeros(1 - x.point) + x.digits;
    IntLeadingZeros(1 - x.point, x.digits);
    assert "0." + fraction == "0" + "." + fraction;
  }

  lemma {:induction false} PlainWhole(x: Dec, p: nat)
    requires IsDec(x) && 0 < |x.digits| <= x.point
    ensures Denotes(Plain(x), x, p)
  {
    var n := x.point - |x.digits|;
    var whole := x.digits + Zeros(n);
    WholeIsPlain(whole);
    assert whole + "" == whole;
    IntTrailingZeros(x.digits, n);
    ScaleTwice(Int(x.digits), n, p);
  }

  lemma {:induction false} PlainMixed(x: Dec, p: nat)
    requires IsDec(x) && 0 < x.point < |x.digits| && FractionDigits(x) <= p
    ensures Denotes(Plain(x), x, p)
  {
    PointIsPlain(x.digits[..x.point], x.digits[x.point..]);
    assert x.digits[..x.point] + x.digits[x.point..] == x.digits;
  }

  /** The text is plain, has the number's fraction digits and its value. */
  predicate Denotes(s: string, x: Dec, p: nat)
    requires IsDec(x) && FractionDigits(x) <= p
  {
    IsPlain(s) && |FractionPart(s)| == FractionDigits(x) && PlainUnits(s, p) == Units(x, p)
  }

  /** Plain notation denotes the number. */
  lemma {:induction false} PlainDenotes(x: Dec, p: nat)
    requires IsDec(x) && FractionDigits(x) <= p
    ensures Denotes(Plain(x), x, p)
  {
    if |x.digits| == 0 {
      WholeIsPlain("0");
      IntOfZero();
      assert "0" + "" == "0";
    } else if x.point <= 0 {
      PlainSmall(x, p);
    } else if |x.digits| <= x.point {
      PlainWhole(x, p);
    } else {
      PlainMixed(x, p);
    }
  }

  // ------------------------------------------------------------------ canonical form and parsing

  function StripFront(s: string): (r: string)
    ensures |r| <= |s| && (|r| > 0 ==> r[0] != '0')
    ensures AllDigits(s) ==> AllDigits(r)
  {
    if |s| > 0 && s[0] == '0' then StripFront(s[1..]) else s
  }

  function StripBack(s: string): (r: string)
    ensures r <= s && (|r| > 0 ==> r[|r| - 1] != '0')
    ensures AllDigits(s) ==> AllDigits(r)
  {
    if |s| > 0 && s[|s| - 1] == '0' then StripBack(s[..|s| - 1]) else s
  }

  /** The number that the digits denote with the point after the first `point` of them. */
  function Canonical(digits: string, point: int): (r: Dec)
    ensures AllDigits(digits) ==> IsDec(r)
  {
    var front := StripFront(digits);
    var both := StripBack(front);
    if |both| == 0 then ZERO else Dec(both, point - (|digits| - |front|))
  }

  lemma {:induction false} StripFrontInt(s: string)
    requires AllDigits(s)
    ensures Int(StripFront(s)) == Int(s)
  {
    if |s| > 0 && s[0] == '0' {
      StripFrontInt(s[1..]);
      assert s == Zeros(1) + s[1..];
      IntLeadingZeros(1, s[1..]);
    }
  }

  lemma {:induction false} StripBackInt(s: string)
    requires AllDigits(s)
    ensures Int(s) == Int(StripBack(s)) * TenTo(|s| - |StripBack(s)|)
  {
    if |s| > 0 && s[|s| - 1] == '0' {
      var front := s[..|s| - 1];
      StripBackInt(front);
      var n: nat := |front| - |StripBack(front)|;
      ScaleTwice(Int(StripBack(front)), n, 1);
      assert TenTo(1) == 10;
    }
  }

  /** Canonical form keeps the value. */
  lemma {:induction false} CanonicalUnits(digits: string, point: int, p: nat)
    requires AllDigits(digits) && |digits| - point <= p
    ensures var x := Canonical(digits, point);
            FractionDigits(x) <= p && Units(x, p) == Int(digits) * TenTo(p + point - |digits|)
  {
    var front := StripFront(digits);
    var both := StripBack(front);
    StripFrontInt(digits);
    StripBackInt(front);
    ScaleTwice(Int(both), |front| - |both|, p + point - |digits|);
  }

  /** The number of `n` units of ten to the -places. */
  function DecOf(n: nat, places: nat): (r: Dec)
    ensures IsDec(r)
  {
    Canonical(PrintNat(n), |PrintNat(n)| - places)
  }

  lemma {:induction false} DecOfUnits(n: nat, places: nat, p: nat)
    requires places <= p
    ensures FractionDigits(DecOf(n, places)) <= places && Units(DecOf(n, places), p) == n * TenTo(p - places)
  {
    var digits := PrintNat(n);
    PrintNatDenotes(n);
    CanonicalUnits(digits, |digits| - places, p);
    DecOfPlaces(n, places);
  }

  lemma {:induction false} DecOfPlaces(n: nat, places: nat)
    ensures FractionDigits(DecOf(n, places)) <= places
  {
    var digits := PrintNat(n);
    CanonicalUnits(digits, |digits| - places, places);
  }

  lemma {:induction false} PaddedInt(digits: string, n: nat)
    requires AllDigits(digits) && |digits| > 0 && digits[0] != '0'
    ensures PrintNat(Product(Int(digits), TenTo(n))) == digits + Zeros(n)
  {
    IntTrailingZeros(digits, n);
    PrintInt(digits + Zeros(n));
  }

  lemma {:induction false} DecOfPadded(x: Dec, n: nat)
    requires IsDec(x) && |x.digits| > 0 && x.point == |x.digits| + n
    ensures DecOf(Product(Int(x.digits), TenTo(n)), 0) == x
  {
    PaddedInt(x.digits, n);
    assert x.digits + Zeros(n) == Zeros(0) + x.digits + Zeros(n);
    CanonicalPadded(x, 0, n);
  }

  /** A whole number is the number of its own units. */
  lemma {:induction false} DecOfWhole(x: Dec)
    requires IsDec(x) && |x.digits| > 0 && FractionDigits(x) == 0
    ensures DecOf(Units(x, 0), 0) == x
  {
    DecOfPadded(x, x.point - |x.digits|);
  }

  lemma {:induction false} StripFrontZeros(n: nat, s: string)
    requires |s| > 0 && s[0] != '0'
    ensures StripFront(Zeros(n) + s) == s
  {
    if n > 0 {
      assert (Zeros(n) + s)[1..] == Zeros(n - 1) + s;
      StripFrontZeros(n - 1, s);
    } else {
      assert Zeros(0) + s == s;
    }
  }

  lemma {:induction false} StripBackZeros(s: string, m: nat)
    requires |s| > 0 && s[|s| - 1] != '0'
    ensures StripBack(s + Zeros(m)) == s
  {
    if m > 0 {
      assert (s + Zeros(m))[..|s| + m - 1] == s + Zeros(m - 1);
      StripBackZeros(s, m - 1);
    } else {
      assert s + Zeros(0) == s;
    }
  }

  /** Padding with zeros on either side gives the same number. */
  lemma {:induction false} CanonicalPadded(x: Dec, n: nat, m: nat)
    requires IsDec(x) && |x.digits| > 0
    ensures Canonical(Zeros(n) + x.digits + Zeros(m), n + x.point) == x
  {
    assert Zeros(n) + x.digits + Zeros(m) == Zeros(n) + (x.digits + Zeros(m));
    StripFrontZeros(n, x.digits + Zeros(m));
    StripBackZeros(x.digits, m);
  }

  lemma {:induction false} CanonicalSelf(x: Dec)
    requires IsDec(x) && |x.digits| > 0
    ensures Canonical(x.digits, x.point) == x
  {
    CanonicalPadded(x, 0, 0);
    assert Zeros(0) + x.digits + Zeros(0) == x.digits;
  }

  /** A sign followed by digits. */
  function Signed(t: string): int {
    if |t| == 0 || ParseInt(t[1..]).None? then 0
    else
      var n: int := ParseInt(t[1..]).value;
      if t[0] == '-' then -n else n
  }

  function ReadMantissa(s: string): Dec {
    var parts := SplitOn(s, ".");
    var fraction := if |parts| == 1 then "" else parts[1];
    Canonical(parts[0] + fraction, |parts[0]|)
  }

  /** Reading a printed number back, in either notation. */
  function Parse(s: string): Dec {
    var parts := SplitOn(s, "e");
    Shift(ReadMantissa(parts[0]), if |parts| == 1 then 0 else Signed(parts[1]))
  }

  lemma {:induction false} ReadWhole(a: string)
    requires AllDigits(a)
    ensures ReadMantissa(a) == Canonical(a, |a|)
  {
    WholeIsPlain(a);
    assert a + "" == a;
  }

  lemma {:induction false} ReadPoint(a: string, b: string)
    requires AllDigits(a) && AllDigits(b)
    ensures ReadMantissa(a + "." + b) == Canonical(a + b, |a|)
  {
    PointIsPlain(a, b);
  }

  lemma {:induction false} ReadScientific(x: Dec)
    requires IsDec(x) && |x.digits| > 0
    ensures ReadMantissa(Mantissa(x.digits)) == x.(point := 1)
  {
    CanonicalSelf(x.(point := 1));
    if |x.digits| == 1 {
      ReadWhole(x.digits);
    } else {
      ReadPoint(x.digits[..1], x.digits[1..]);
      assert x.digits[..1] + x.digits[1..] == x.digits;
    }
  }

  lemma {:induction false} ReadBehindZeros(x: Dec, n: nat)
    requires IsDec(x) && |x.digits| > 0 && x.point + n == 0
    ensures ReadMantissa("0" + "." + (Zeros(n) + x.digits)) == x
  {
    ReadPoint("0", Zeros(n) + x.digits);
    assert "0" + (Zeros(n) + x.digits) == Zeros(n + 1) + x.digits + Zeros(0);
    CanonicalPadded(x, n + 1, 0);
  }

  lemma {:induction false} ReadSmall(x: Dec)
    requires IsDec(x) && |x.digits| > 0 && x.point <= 0
    ensures ReadMantissa(Plain(x)) == x
  {
    ReadBehindZeros(x, -x.point);
    assert Plain(x) == "0" + "." + (Zeros(-x.point) + x.digits);
  }

  lemma {:induction false} ReadPadded(x: Dec)
    requires IsDec(x) && 0 < |x.digits| <= x.point
    ensures ReadMantissa(Plain(x)) == x
  {
    var n: nat := x.point - |x.digits|;
    var s := x.digits + Zeros(n);
    assert s == Zeros(0) + x.digits + Zeros(n);
    assert Canonical(s, |s|) == x by { CanonicalPadded(x, 0, n); }
    ReadWhole(s);
  }

  lemma {:induction false} ReadSplit(x: Dec, n: nat)
    requires IsDec(x) && 0 < n == x.point < |x.digits|
    ensures ReadMantissa(x.digits[..n] + "." + x.digits[n..]) == x
  {
    ReadPoint(x.digits[..n], x.digits[n..]);
    assert x.digits[..n] + x.digits[n..] == x.digits;
    CanonicalSelf(x);
  }

  lemma {:induction false} ReadMixed(x: Dec)
    requires IsDec(x) && 0 < x.point < |x.digits|
    ensures ReadMantissa(Plain(x)) == x
  {
    ReadSplit(x, x.point);
  }

  lemma {:induction false} ReadPlain(x: Dec)
    requires IsDec(x)
    ensures ReadMantissa(Plain(x)) == x
  {
    if |x.digits| == 0 {
      ReadWhole("0");
      assert StripFront("0") == "";
    } else if x.point <= 0 {
      ReadSmall(x);
    } else if |x.digits| <= x.point {
      ReadPadded(x);
    } else {
      ReadMixed(x);
    }
  }

  /** Plain texts and mantissas consist of digits and at most a point. */
  lemma {:induction false} PlainCharacters(x: Dec, c: char)
    requires IsDec(x) && !IsDigit(c) && c != '.'
    ensures c !in Plain(x) && (|x.digits| > 0 ==> c !in Mantissa(x.digits))
  {
    assert c !in x.digits && forall n: nat :: c !in Zeros(n);
  }

  lemma {:induction false} ParseExponent(m: string, sign: char, n: nat)
    requires 'e' !in m && sign in {'+', '-'}
    ensures Parse(m + "e" + ([sign] + PrintNat(n))) == Shift(ReadMantissa(m), if sign == '-' then 0 - n else n)
  {
    var t := [sign] + PrintNat(n);
    SplitFirst(m, "e", t);
    SplitAbsent(t, "e");
    assert t[1..] == PrintNat(n);
    ParsePrinted(n);
  }

  lemma {:induction false} ParseLarge(x: Dec)
    requires IsDec(x) && |x.digits| > 0 && x.point > 21
    ensures Parse(Print(x)) == x
  {
    var n: nat := x.point - 1;
    var m, t := Mantissa(x.digits), ['+'] + PrintNat(n);
    assert Print(x) == m + "e" + t;
    assert 'e' !in m by { PlainCharacters(x, 'e'); }
    ParseExponent(m, '+', n);
    ReadScientific(x);
  }

  lemma {:induction false} ParseSmall(x: Dec)
    requires IsDec(x) && |x.digits| > 0 && x.point <= -6
    ensures Parse(Print(x)) == x
  {
    var n: nat := 1 - x.point;
    var m, t := Mantissa(x.digits), ['-'] + PrintNat(n);
    assert Print(x) == m + "e" + t;
    assert 'e' !in m by { PlainCharacters(x, 'e'); }
    ParseExponent(m, '-', n);
    ReadScientific(x);
  }

  lemma {:induction false} ParsePlain(x: Dec)
    requires IsDec(x)
    ensures Parse(Plain(x)) == x
  {
    ReadPlain(x);
    PlainCharacters(x, 'e');
    SplitAbsent(Plain(x), "e");
  }

  /** Every printed number reads back as itself. */
  lemma {:induction false} ParsePrint(x: Dec)
    requires IsDec(x)
    ensures Parse(Print(x)) == x
  {
    if |x.digits| > 0 && x.point > 21 {
      ParseLarge(x);
    } else if |x.digits| > 0 && x.point <= -6 {
      ParseSmall(x);
    } else {
      ParsePlain(x);
    }
  }
}
