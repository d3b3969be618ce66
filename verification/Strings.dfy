/** The string operations of the source that several modules share, with their inverses. */
module Strings {
  import opened Wrappers
  import opened NatMath

  // ------------------------------------------------------------------ case

  function LowerChar(c: char): char {
    if 'A' <= c <= 'Z' then (c as int + 32) as char else c
  }

  lemma LowerLetters(c: char)
    ensures 'A' <= c <= 'Z' ==> 'a' <= LowerChar(c) <= 'z' && LowerChar(c) as int - 'a' as int == c as int - 'A' as int
    ensures !('A' <= c <= 'Z') ==> LowerChar(c) == c
  {
  }

  /** Case folding of ASCII letters. */
  function Lower(s: string): (r: string)
    ensures |r| == |s| && forall i :: 0 <= i < |r| ==> r[i] == LowerChar(s[i])
  {
    seq(|s|, i requires 0 <= i < |s| => LowerChar(s[i]))
  }

  // ------------------------------------------------------------------ splitting

  /** `split(sep)`: the pieces between occurrences of the separator, found from the left. */
  function SplitOn(s: string, sep: string): (r: seq<string>)
    requires |sep| > 0
    ensures |r| > 0
  {
    if |s| == 0 then [[]]
    else if sep <= s then [[]] + SplitOn(s[|sep|..], sep)
    else var rest := SplitOn(s[1..], sep); [[s[0]] + rest[0]] + rest[1..]
  }

  lemma {:induction false} SplitStep(s: string, sep: string)
    requires |sep| > 0 && |s| > 0 && s[0] != sep[0]
    ensures var rest := SplitOn(s[1..], sep); SplitOn(s, sep) == [[s[0]] + rest[0]] + rest[1..]
  {
  }

  /** A text without the separator's first character is one piece. */
  lemma {:induction false} SplitAbsent(a: string, sep: string)
    requires |sep| > 0 && sep[0] !in a
    ensures SplitOn(a, sep) == [a]
  {
    if |a| > 0 {
      SplitAbsent(a[1..], sep);
      SplitStep(a, sep);
      assert [a[0]] + a[1..] == a;
    }
  }

  /** A piece without the separator's first character ends where the separator begins. */
  lemma {:induction false} SplitFirst(a: string, sep: string, rest: string)
    requires |sep| > 0 && sep[0] !in a
    ensures SplitOn(a + sep + rest, sep) == [a] + SplitOn(rest, sep)
  {
    var s := a + sep + rest;
    if |a| > 0 {
      SplitFirst(a[1..], sep, rest);
      assert s[0] == a[0] && s[1..] == a[1..] + sep + rest;
      SplitStep(s, sep);
      assert [a[0]] + a[1..] == a;
    } else {
      assert s == sep + rest && s[|sep|..] == rest;
    }
  }

  /** Every other character is in some piece. */
  lemma {:induction false} SplitCovers(s: string, sep: string, c: char)
    requires |sep| == 1 && c in s && c != sep[0]
    ensures exists i :: 0 <= i < |SplitOn(s, sep)| && c in SplitOn(s, sep)[i]
  {
    if s[0] == sep[0] {
      SplitCovers(s[1..], sep, c);
      var i :| 0 <= i < |SplitOn(s[1..], sep)| && c in SplitOn(s[1..], sep)[i];
      assert SplitOn(s, sep)[i + 1] == SplitOn(s[1..], sep)[i];
    } else {
      SplitStep(s, sep);
      if s[0] == c {
        assert c in SplitOn(s, sep)[0];
      } else {
        SplitCovers(s[1..], sep, c);
        var i :| 0 <= i < |SplitOn(s[1..], sep)| && c in SplitOn(s[1..], sep)[i];
        assert c in SplitOn(s, sep)[i];
      }
    }
  }

  // ------------------------------------------------------------------ decimal digits

  predicate IsDigit(c: char) {
    '0' <= c <= '9'
  }

  predicate AllDigits(s: string) {
    forall i :: 0 <= i < |s| ==> IsDigit(s[i])
  }

  function DigitOf(c: char): nat
    requires IsDigit(c)
  {
    c as int - '0' as int
  }

  /** The number that a run of digits denotes. */
  function Int(s: string): nat
    requires AllDigits(s)
  {
    if |s| == 0 then 0 else Int(s[..|s| - 1]) * 10 + DigitOf(s[|s| - 1])
  }

  function Zeros(n: nat): (r: string)
    ensures |r| == n && AllDigits(r) && forall i :: 0 <= i < n ==> r[i] == '0'
  {
    seq(n, _ => '0')
  }

  lemma AppendDigit(x: nat, t: nat, y: nat, d: nat)
    requires y < t && d < 10
    ensures (x * t + y) * 10 + d == x * (10 * t) + (y * 10 + d)
    ensures y * 10 + d < 10 * t
  {
  }

  lemma {:induction false} IntAppend(a: string, b: string)
    requires AllDigits(a) && AllDigits(b)
    ensures AllDigits(a + b) && Int(a + b) == Int(a) * TenTo(|b|) + Int(b)
    ensures Int(b) < TenTo(|b|)
  {
    if |b| == 0 {
      assert a + b == a;
    } else {
      var n: nat := |b| - 1;
      var front := b[..n];
      IntAppend(a, front);
      assert (a + b)[..|a + b| - 1] == a + front;
      AppendDigit(Int(a), TenTo(n), Int(front), DigitOf(b[n]));
    }
  }

  lemma {:induction false} IntZeros(n: nat)
    ensures Int(Zeros(n)) == 0
  {
    if n > 0 {
      IntZeros(n - 1);
      assert Zeros(n)[..n - 1] == Zeros(n - 1);
    }
  }

  function PrintNat(n: nat): (r: string)
    ensures |r| > 0 && AllDigits(r)
    ensures n > 0 ==> r[0] != '0'
  {
    var digit := ('0' as int + n % 10) as char;
    if n < 10 then [digit] else PrintNat(n / 10) + [digit]
  }

  lemma {:induction false} PrintNatDenotes(n: nat)
    ensures Int(PrintNat(n)) == n
  {
    if n >= 10 {
      PrintNatDenotes(n / 10);
      assert PrintNat(n)[..|PrintNat(n)| - 1] == PrintNat(n / 10);
    }
  }

  /** Digits without a superfluous zero in front are the printed form of the number they denote. */
  lemma {:induction false} PrintInt(s: string)
    requires AllDigits(s) && |s| > 0 && (s[0] != '0' || |s| == 1)
    ensures PrintNat(Int(s)) == s
  {
    var n: nat := |s| - 1;
    var front, last := s[..n], DigitOf(s[n]);
    assert s == front + [s[n]];
    if n == 0 {
      assert Int(front) == 0;
    } else {
      PrintInt(front);
      LeadingDigit(front);
      assert Int(s) / 10 == Int(front) && Int(s) % 10 == last;
    }
  }

  lemma {:induction false} LeadingDigit(s: string)
    requires AllDigits(s) && |s| > 0 && s[0] != '0'
    ensures TenTo(|s| - 1) <= Int(s) < TenTo(|s|)
  {
    var n: nat := |s| - 1;
    if n == 0 {
      assert Int(s[..n]) == 0;
    } else {
      LeadingDigit(s[..n]);
    }
  }

  /** The length of a printed number gives its order of magnitude. */
  lemma {:induction false} PrintedLength(n: nat)
    requires n > 0
    ensures TenTo(|PrintNat(n)| - 1) <= n < TenTo(|PrintNat(n)|)
  {
    LeadingDigit(PrintNat(n));
    PrintNatDenotes(n);
  }

  lemma {:induction false} PrintPower(k: nat)
    ensures PrintNat(TenTo(k)) == "1" + Zeros(k)
  {
    if k > 0 {
      PrintPower(k - 1);
      assert TenTo(k) / 10 == TenTo(k - 1) && TenTo(k) % 10 == 0;
      assert Zeros(k) == Zeros(k - 1) + "0";
    } else {
      assert "1" + Zeros(0) == "1";
    }
  }

  function DigitPrefix(s: string): (r: string)
    ensures AllDigits(r)
  {
    if |s| == 0 || !IsDigit(s[0]) then [] else [s[0]] + DigitPrefix(s[1..])
  }

  /** `parseInt` on a text without sign or leading blanks; None is NaN. */
  function ParseInt(s: string): Option<nat> {
    if |DigitPrefix(s)| == 0 then None else Some(Int(DigitPrefix(s)))
  }

  lemma {:induction false} AllDigitPrefix(s: string)
    requires AllDigits(s)
    ensures DigitPrefix(s) == s
  {
    if |s| > 0 {
      AllDigitPrefix(s[1..]);
    }
  }

  lemma {:induction false} ParsePrinted(n: nat)
    ensures ParseInt(PrintNat(n)) == Some(n)
  {
    AllDigitPrefix(PrintNat(n));
    PrintNatDenotes(n);
  }
}
