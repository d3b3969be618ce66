/** Bytes as text and text as bytes: Base64 of RFC 4648 section 4, UTF-8 and UTF-16, with their round
    trips. A `string` is a sequence of Unicode scalar values, a `Text` one of the code units that the
    source's strings consist of. */
module TextCodecs {

  type Byte = x: int | 0 <= x < 256
  type Sextet = x: int | 0 <= x < 64

  // ------------------------------------------------------------------ Base64

  function Symbol(d: Sextet): char {
    if d < 26 then ('A' as int + d) as char
    else if d < 52 then ('a' as int + d - 26) as char
    else if d < 62 then ('0' as int + d - 52) as char
    else if d == 62 then '+'
    else '/'
  }

  function SextetOf(c: char): Sextet {
    if 'A' <= c <= 'Z' then c as int - 'A' as int
    else if 'a' <= c <= 'z' then c as int - 'a' as int + 26
    else if '0' <= c <= '9' then c as int - '0' as int + 52
    else if c == '+' then 62
    else 63
  }

  lemma SymbolRoundTrip(d: Sextet)
    ensures SextetOf(Symbol(d)) == d && Symbol(d) != '='
  {
  }

  /** A full group: three bytes as four symbols. */
  function EncodeGroup(a: Byte, b: Byte, c: Byte): string {
    [Symbol(a / 4), Symbol(a % 4 * 16 + b / 16), Symbol(b % 16 * 4 + c / 64), Symbol(c % 64)]
  }

  function ToBase64(bytes: seq<Byte>): string {
    if |bytes| == 0 then []
    else if |bytes| == 1 then [Symbol(bytes[0] / 4), Symbol(bytes[0] % 4 * 16), '=', '=']
    else if |bytes| == 2 then
      [Symbol(bytes[0] / 4), Symbol(bytes[0] % 4 * 16 + bytes[1] / 16), Symbol(bytes[1] % 16 * 4), '=']
    else EncodeGroup(bytes[0], bytes[1], bytes[2]) + ToBase64(bytes[3..])
  }

  /** Reads groups of four symbols; a trailing fragment of a group is dropped. */
  function FromBase64(text: string): seq<Byte> {
    if |text| < 4 then []
    else
      var w, x, y, z := SextetOf(text[0]), SextetOf(text[1]), SextetOf(text[2]), SextetOf(text[3]);
      if text[2] == '=' then [w * 4 + x / 16]
      else if text[3] == '=' then [w * 4 + x / 16, x % 16 * 16 + y / 4]
      else [w * 4 + x / 16, x % 16 * 16 + y / 4, y % 4 * 64 + z] + FromBase64(text[4..])
  }

  lemma Regroup(a: Byte, b: Byte, c: Byte)
    ensures a / 4 * 4 + (a % 4 * 16 + b / 16) / 16 == a
    ensures (a % 4 * 16 + b / 16) % 16 * 16 + (b % 16 * 4 + c / 64) / 4 == b
    ensures (b % 16 * 4 + c / 64) % 4 * 64 + c % 64 == c
  {
    assert (a % 4 * 16 + b / 16) / 16 == a % 4 && (a % 4 * 16 + b / 16) % 16 == b / 16;
    assert (b % 16 * 4 + c / 64) / 4 == b % 16 && (b % 16 * 4 + c / 64) % 4 == c / 64;
  }

  lemma GroupRoundTrip(a: Byte, b: Byte, c: Byte, rest: string)
    ensures FromBase64(EncodeGroup(a, b, c) + rest) == [a, b, c] + FromBase64(rest)
  {
    var text := EncodeGroup(a, b, c) + rest;
    var w, x, y, z := a / 4, a % 4 * 16 + b / 16, b % 16 * 4 + c / 64, c % 64;
    assert text[0] == Symbol(w) && text[1] == Symbol(x) && text[2] == Symbol(y) && text[3] == Symbol(z);
    assert SextetOf(text[0]) == w by { SymbolRoundTrip(w); }
    assert SextetOf(text[1]) == x by { SymbolRoundTrip(x); }
    assert SextetOf(text[2]) == y && text[2] != '=' by { SymbolRoundTrip(y); }
    assert SextetOf(text[3]) == z && text[3] != '=' by { SymbolRoundTrip(z); }
    Regroup(a, b, c);
    assert text[4..] == rest;
  }

  lemma {:induction false} OneByte(a: Byte)
    ensures FromBase64([Symbol(a / 4), Symbol(a % 4 * 16), '=', '=']) == [a]
  {
    SymbolRoundTrip(a / 4);
    SymbolRoundTrip(a % 4 * 16);
    assert a % 4 * 16 / 16 == a % 4;
  }

  lemma {:induction false} TwoBytes(a: Byte, b: Byte)
    ensures FromBase64([Symbol(a / 4), Symbol(a % 4 * 16 + b / 16), Symbol(b % 16 * 4), '=']) == [a, b]
  {
    SymbolRoundTrip(a / 4);
    SymbolRoundTrip(a % 4 * 16 + b / 16);
    SymbolRoundTrip(b % 16 * 4);
    Regroup(a, b, 0);
  }

  lemma {:induction false} Base64RoundTrip(bytes: seq<Byte>)
    ensures FromBase64(ToBase64(bytes)) == bytes
  {
    if |bytes| == 1 {
      OneByte(bytes[0]);
    } else if |bytes| == 2 {
      TwoBytes(bytes[0], bytes[1]);
    } else if |bytes| > 2 {
      Base64RoundTrip(bytes[3..]);
      GroupRoundTrip(bytes[0], bytes[1], bytes[2], ToBase64(bytes[3..]));
    }
  }

  /** Four symbols for every three bytes begun, all of them ASCII. */
  lemma {:induction false} Base64Shape(bytes: seq<Byte>)
    ensures |ToBase64(bytes)| == (|bytes| + 2) / 3 * 4
    ensures forall i :: 0 <= i < |ToBase64(bytes)| ==> ToBase64(bytes)[i] as int < 0x80
  {
    if |bytes| > 2 {
      var group, rest := EncodeGroup(bytes[0], bytes[1], bytes[2]), ToBase64(bytes[3..]);
      Base64Shape(bytes[3..]);
      assert ToBase64(bytes) == group + rest && |group| == 4;
      assert forall i :: 0 <= i < 4 ==> group[i] as int < 0x80;
    }
  }

  /** Three bytes and their four symbols are digits of one number, to the base 256 and to the base 64. */
  lemma GroupDenotes(a: Byte, b: Byte, c: Byte)
    ensures var g := EncodeGroup(a, b, c);
            SextetOf(g[0]) * 262144 + SextetOf(g[1]) * 4096 + SextetOf(g[2]) * 64 + SextetOf(g[3]) ==
            a * 65536 + b * 256 + c
  {
    SymbolRoundTrip(a / 4);
    SymbolRoundTrip(a % 4 * 16 + b / 16);
    SymbolRoundTrip(b % 16 * 4 + c / 64);
    SymbolRoundTrip(c % 64);
  }

  /** The test vectors of section 10 of RFC 4648, and the last two symbols. */
  lemma Base64Vectors()
    ensures ToBase64([0x66]) == "Zg==" && ToBase64([0x66, 0x6F]) == "Zm8="
    ensures ToBase64([0x66, 0x6F, 0x6F]) == "Zm9v"
    ensures ToBase64([0xFB, 0xFF, 0xBF]) == "+/+/"
    ensures ToBase64([0x66, 0x6F, 0x6F, 0x62, 0x61, 0x72]) == "Zm9vYmFy"
  {
    var foobar: seq<Byte> := [0x66, 0x6F, 0x6F, 0x62, 0x61, 0x72];
    assert foobar[3..] == [0x62, 0x61, 0x72] && foobar[3..][3..] == [];
    assert [0x66, 0x6F, 0x6F][3..] == [] && [0xFB, 0xFF, 0xBF][3..] == [];
    assert ToBase64([0x62, 0x61, 0x72]) == "YmFy";
  }

  // ------------------------------------------------------------------ UTF-8

  function EncodeChar(c: char): (r: seq<Byte>)
    ensures 1 <= |r| <= 4
  {
    var n := c as int;
    if n < 0x80 then [n]
    else if n < 0x800 then [0xC0 + n / 64, 0x80 + n % 64]
    else if n < 0x10000 then [0xE0 + n / 4096, 0x80 + n / 64 % 64, 0x80 + n % 64]
    else [0xF0 + n / 262144, 0x80 + n / 4096 % 64, 0x80 + n / 64 % 64, 0x80 + n % 64]
  }

  /** What a byte carries behind its marker bits. */
  function Behind(b: Byte, marker: Byte): int {
    b as int - marker as int
  }

  predicate IsContinuation(b: Byte) {
    0x80 <= b < 0xC0
  }

  /** The lead byte tells the length, the continuation bytes follow, and the bits behind the markers are
      those of the character. */
  lemma CharDenotes(c: char)
    ensures var b, n := EncodeChar(c), c as int;
            && (n < 0x80 ==> b == [n])
            && (0x80 <= n < 0x800 ==>
                  |b| == 2 && 0xC0 <= b[0] < 0xE0 && IsContinuation(b[1]) &&
                  Behind(b[0], 0xC0) * 64 + Behind(b[1], 0x80) == n)
            && (0x800 <= n < 0x10000 ==>
                  |b| == 3 && 0xE0 <= b[0] < 0xF0 && IsContinuation(b[1]) && IsContinuation(b[2]) &&
                  Behind(b[0], 0xE0) * 4096 + Behind(b[1], 0x80) * 64 + Behind(b[2], 0x80) == n)
            && (0x10000 <= n ==>
                  |b| == 4 && 0xF0 <= b[0] < 0xF8 && IsContinuation(b[1]) && IsContinuation(b[2]) &&
                  IsContinuation(b[3]) &&
                  Behind(b[0], 0xF0) * 262144 + Behind(b[1], 0x80) * 4096 + Behind(b[2], 0x80) * 64 +
                  Behind(b[3], 0x80) == n)
  {
    Base64Digits(c as int);
  }

  function ToUtf8(text: string): seq<Byte> {
    if |text| == 0 then [] else EncodeChar(text[0]) + ToUtf8(text[1..])
  }

  const REPLACEMENT := 0xFFFD as char

  function CharOf(n: int): char {
    if 0 <= n < 0xD800 || 0xE000 <= n < 0x110000 then n as char else REPLACEMENT
  }

  /** The six payload bits of a continuation byte. */
  function Low(b: Byte): nat {
    b as int % 64
  }

  /** The character at the front and the number of bytes it takes. */
  function DecodeFront(b: seq<Byte>): (r: (char, nat))
    requires |b| > 0
    ensures 1 <= r.1 <= |b|
  {
    if b[0] < 0x80 then (CharOf(b[0]), 1)
    else if 0xC0 <= b[0] < 0xE0 && |b| >= 2 then (CharOf(b[0] as int % 32 * 64 + Low(b[1])), 2)
    else if 0xE0 <= b[0] < 0xF0 && |b| >= 3 then (CharOf(b[0] as int % 16 * 4096 + Low(b[1]) * 64 + Low(b[2])), 3)
    else if 0xF0 <= b[0] && |b| >= 4 then
      (CharOf(b[0] as int % 8 * 262144 + Low(b[1]) * 4096 + Low(b[2]) * 64 + Low(b[3])), 4)
    else (REPLACEMENT, 1)
  }

  function FromUtf8(b: seq<Byte>): string {
    if |b| == 0 then [] else [DecodeFront(b).0] + FromUtf8(b[DecodeFront(b).1..])
  }

  /** A number below 64 to the fourth is its four base-64 digits. */
  lemma Base64Digits(n: nat)
    requires n < 64 * 64 * 64 * 64
    ensures n / 262144 * 262144 + n / 4096 % 64 * 4096 + n / 64 % 64 * 64 + n % 64 == n
    ensures n < 262144 ==> n / 4096 * 4096 + n / 64 % 64 * 64 + n % 64 == n
  {
    assert n / 4096 == n / 64 / 64 && n / 262144 == n / 64 / 64 / 64;
  }

  /** The marker bits of lead and continuation bytes drop out again. */
  lemma Payloads(n: nat)
    requires n < 0x110000
    ensures n < 0x800 ==> (0xC0 + n / 64) % 32 == n / 64
    ensures n < 0x10000 ==> (0xE0 + n / 4096) % 16 == n / 4096
    ensures (0xF0 + n / 262144) % 8 == n / 262144
  {
  }

  lemma LowPayload(x: nat)
    requires x < 64
    ensures Low(0x80 + x) == x
  {
  }

  lemma FrontOfTwo(c: char, rest: seq<Byte>)
    requires 0x80 <= c as int < 0x800
    ensures DecodeFront(EncodeChar(c) + rest) == (c, 2)
  {
    var n := c as int;
    var b := EncodeChar(c) + rest;
    assert b[0] == 0xC0 + n / 64 && b[1] == 0x80 + n % 64;
    Payloads(n);
    LowPayload(n % 64);
  }

  lemma FrontOfThree(c: char, rest: seq<Byte>)
    requires 0x800 <= c as int < 0x10000
    ensures DecodeFront(EncodeChar(c) + rest) == (c, 3)
  {
    var n := c as int;
    var b := EncodeChar(c) + rest;
    assert b[0] == 0xE0 + n / 4096 && b[1] == 0x80 + n / 64 % 64 && b[2] == 0x80 + n % 64;
    Base64Digits(n);
    Payloads(n);
    LowPayload(n % 64);
    LowPayload(n / 64 % 64);
  }

  lemma FrontOfFour(c: char, rest: seq<Byte>)
    requires 0x10000 <= c as int
    ensures DecodeFront(EncodeChar(c) + rest) == (c, 4)
  {
    var n := c as int;
    var b := EncodeChar(c) + rest;
    assert b[0] == 0xF0 + n / 262144 && b[1] == 0x80 + n / 4096 % 64;
    assert b[2] == 0x80 + n / 64 % 64 && b[3] == 0x80 + n % 64;
    Base64Digits(n);
    Payloads(n);
    LowPayload(n % 64);
    LowPayload(n / 64 % 64);
    LowPayload(n / 4096 % 64);
  }

  lemma FrontRoundTrip(c: char, rest: seq<Byte>)
    ensures DecodeFront(EncodeChar(c) + rest) == (c, |EncodeChar(c)|)
  {
    if c as int < 0x80 {
      assert (EncodeChar(c) + rest)[0] == c as int;
    } else if c as int < 0x800 {
      FrontOfTwo(c, rest);
    } else if c as int < 0x10000 {
      FrontOfThree(c, rest);
    } else {
      FrontOfFour(c, rest);
    }
  }

  lemma {:induction false} Utf8RoundTrip(text: string)
    ensures FromUtf8(ToUtf8(text)) == text
  {
    if |text| > 0 {
      var rest := ToUtf8(text[1..]);
      FrontRoundTrip(text[0], rest);
      assert (EncodeChar(text[0]) + rest)[|EncodeChar(text[0])|..] == rest;
      Utf8RoundTrip(text[1..]);
    }
  }

  lemma {:induction false} AsciiLength(text: string)
    requires forall i :: 0 <= i < |text| ==> text[i] as int < 0x80
    ensures |ToUtf8(text)| == |text|
  {
    if |text| > 0 {
      AsciiLength(text[1..]);
    }
  }

  // ------------------------------------------------------------------ UTF-16

  type Unit = x: int | 0 <= x < 0x10000
  type Text = seq<Unit>

  predicate IsHigh(u: Unit) {
    0xD800 <= u < 0xDC00
  }

  predicate IsLow(u: Unit) {
    0xDC00 <= u < 0xE000
  }

  predicate IsPairedAt(t: Text, i: nat)
    requires i < |t|
  {
    && (IsHigh(t[i]) ==> i + 1 < |t| && IsLow(t[i + 1]))
    && (IsLow(t[i]) ==> 0 < i && IsHigh(t[i - 1]))
  }

  /** Every high surrogate is followed by a low one, and every low one follows a high one. */
  predicate IsPaired(t: Text) {
    forall i :: 0 <= i < |t| ==> IsPairedAt(t, i)
  }

  predicate StartsPaired(t: Text) {
    |t| > 1 && IsHigh(t[0]) && IsLow(t[1])
  }

  function CharOfPair(high: Unit, low: Unit): char
    requires IsHigh(high) && IsLow(low)
  {
    (0x10000 + (high - 0xD800) * 0x400 + (low - 0xDC00)) as char
  }

  /** The characters that are encoded for a text: an unpaired surrogate counts as the replacement. */
  function Characters(t: Text): string {
    if |t| == 0 then []
    else if StartsPaired(t) then [CharOfPair(t[0], t[1])] + Characters(t[2..])
    else [CharOf(t[0])] + Characters(t[1..])
  }

  function UnitsOfChar(c: char): Text {
    var n := c as int;
    if n < 0x10000 then [n] else [0xD800 + (n - 0x10000) / 0x400, 0xDC00 + (n - 0x10000) % 0x400]
  }

  function CodeUnits(s: string): Text {
    if |s| == 0 then [] else UnitsOfChar(s[0]) + CodeUnits(s[1..])
  }

  /** What encoding and decoding leave of a text. */
  function Replaced(t: Text): Text {
    CodeUnits(Characters(t))
  }

  /** The character U+1F600 is D83D DE00 in UTF-16. */
  lemma KnownPair()
    ensures Characters([0xD83D, 0xDE00]) == [0x1F600 as char]
  {
    assert [0xD83D, 0xDE00][2..] == [];
  }

  lemma PairRoundTrip(high: Unit, low: Unit)
    requires IsHigh(high) && IsLow(low)
    ensures UnitsOfChar(CharOfPair(high, low)) == [high, low]
  {
    var m := (high - 0xD800) * 0x400 + (low - 0xDC00);
    assert m / 0x400 == high - 0xD800 && m % 0x400 == low - 0xDC00;
  }

  lemma {:induction false} ReplacedFront(t: Text)
    requires |t| > 0
    ensures StartsPaired(t) ==> Replaced(t) == t[..2] + Replaced(t[2..])
    ensures !StartsPaired(t) ==>
              Replaced(t) == [if IsHigh(t[0]) || IsLow(t[0]) then 0xFFFD else t[0]] + Replaced(t[1..])
  {
    var chars := Characters(t);
    if StartsPaired(t) {
      PairRoundTrip(t[0], t[1]);
      assert chars[1..] == Characters(t[2..]) && t[..2] == [t[0], t[1]];
    } else {
      assert chars[1..] == Characters(t[1..]);
    }
  }

  /** Behind anything but a high surrogate a text can be cut. */
  lemma PairedTail(t: Text, n: nat)
    requires 0 < n <= |t| && !IsHigh(t[n - 1])
    ensures IsPaired(t[n..]) <==> forall i :: n <= i < |t| ==> IsPairedAt(t, i)
  {
    var rest := t[n..];
    assert forall i :: n <= i < |t| ==> rest[i - n] == t[i];
    forall i | n <= i < |t| ensures IsPairedAt(t, i) <==> IsPairedAt(rest, i - n) {
      assert i > n ==> rest[i - n - 1] == t[i - 1];
      assert i + 1 < |t| ==> rest[i - n + 1] == t[i + 1];
    }
    assert forall i :: 0 <= i < |rest| ==> (IsPairedAt(rest, i) <==> IsPairedAt(t, i + n));
  }

  lemma PairedFront(t: Text)
    requires |t| > 0
    ensures StartsPaired(t) ==> (IsPaired(t) <==> IsPaired(t[2..]))
    ensures !StartsPaired(t) ==> (IsPaired(t) <==> !IsHigh(t[0]) && !IsLow(t[0]) && IsPaired(t[1..]))
  {
    if StartsPaired(t) {
      PairedTail(t, 2);
      assert IsPairedAt(t, 0) && IsPairedAt(t, 1);
    } else if IsHigh(t[0]) || IsLow(t[0]) {
      assert !IsPairedAt(t, 0);
    } else {
      PairedTail(t, 1);
      assert IsPairedAt(t, 0);
    }
  }

  lemma {:induction false} SameTails(a: Text, b: Text, n: nat)
    requires n <= |a| && n <= |b| && a[..n] == b[..n]
    ensures a == b <==> a[n..] == b[n..]
  {
    assert a == a[..n] + a[n..] && b == b[..n] + b[n..];
  }

  /** A text comes back exactly when it has no unpaired surrogate. */
  lemma {:induction false} ReplacedIff(t: Text)
    ensures Replaced(t) == t <==> IsPaired(t)
  {
    if |t| > 0 {
      ReplacedFront(t);
      PairedFront(t);
      var n := if StartsPaired(t) then 2 else 1;
      ReplacedIff(t[n..]);
      if Replaced(t)[0] == t[0] {
        assert Replaced(t)[..n] == t[..n] && Replaced(t)[n..] == Replaced(t[n..]);
        SameTails(Replaced(t), t, n);
      }
    }
  }

  lemma {:induction false} LoneReplaced(t: Text)
    requires |t| == 1 && (IsHigh(t[0]) || IsLow(t[0]))
    ensures Replaced(t) == [0xFFFD]
  {
    ReplacedFront(t);
    assert t[1..] == [];
    assert Replaced(t[1..]) == [];
  }

  /** Decoding the encoding of any text gives it with its unpaired surrogates replaced. */
  lemma TextRoundTrip(t: Text)
    ensures CodeUnits(FromUtf8(ToUtf8(Characters(t)))) == Replaced(t)
    ensures CodeUnits(FromUtf8(ToUtf8(Characters(t)))) == t <==> IsPaired(t)
  {
    Utf8RoundTrip(Characters(t));
    ReplacedIff(t);
  }
}
