/** Message encryption: AES-256 in counter mode (section 6.5 of NIST SP 800-38A) over UTF-8 text,
    carried as Base64. The block cipher itself is a parameter. */
module MessageCipher {
  import opened Wrappers
  import opened TextCodecs
  import NatMath

  const KEY_BYTES := 32
  const BLOCK_BYTES := 16
  /** Counter blocks are 128-bit numbers and wrap around. */
  const COUNTER_RANGE := 0x1_0000_0000_0000_0000_0000_0000_0000_0000

  type CipherBlock = b: seq<Byte> | |b| == BLOCK_BYTES witness [0, 0, 0, 0, 0, 0, 0, 0, 0, 0, 0, 0, 0, 0, 0, 0]
  /** A forward cipher function: key bytes and counter block to output block. */
  type BlockCipher = (seq<Byte>, nat) -> CipherBlock

  datatype Secret = Secret(sharedKey: string, iv: string)

  /** `createCipheriv` throws on any other key or vector length. */
  predicate IsUsable(s: Secret) {
    |ToUtf8(s.sharedKey)| == KEY_BYTES && |FromBase64(s.iv)| == BLOCK_BYTES
  }

  function BigEndian(b: seq<Byte>): nat {
    if |b| == 0 then 0 else BigEndian(b[..|b| - 1]) * 256 + b[|b| - 1]
  }

  function Counter(s: Secret, block: nat): nat {
    (BigEndian(FromBase64(s.iv)) + block) % COUNTER_RANGE
  }

  /** Bitwise exclusive or. */
  function Xor(a: nat, b: nat): nat {
    if a == 0 && b == 0 then 0 else Xor(a / 2, b / 2) * 2 + (a + b) % 2
  }

  lemma Parity(x: nat, a: nat, b: nat)
    requires x % 2 == (a + b) % 2
    ensures (x + b) % 2 == a % 2
  {
  }

  lemma {:induction false} XorStep(a: nat, b: nat)
    ensures Xor(a, b) / 2 == Xor(a / 2, b / 2) && Xor(a, b) % 2 == (a + b) % 2
  {
  }

  lemma {:induction false} XorTwice(a: nat, b: nat)
    ensures Xor(Xor(a, b), b) == a
  {
    if a != 0 || b != 0 {
      var x := Xor(a, b);
      XorTwice(a / 2, b / 2);
      XorStep(a, b);
      XorStep(x, b);
      Parity(x, a, b);
    }
  }

  lemma {:induction false} XorBound(a: nat, b: nat, limit: nat)
    requires a < limit && b < limit
    requires limit in {1, 2, 4, 8, 16, 32, 64, 128, 256}
    ensures Xor(a, b) < limit
    decreases limit
  {
    if limit > 1 {
      XorBound(a / 2, b / 2, limit / 2);
    }
  }

  function XorByte(a: Byte, b: Byte): Byte {
    XorBound(a, b, 256);
    Xor(a, b)
  }

  /** Byte `i` of the data meets byte `i % 16` of the cipher's output on counter `i / 16`. */
  function ApplyKeystream(cipher: BlockCipher, s: Secret, data: seq<Byte>): (r: seq<Byte>)
    ensures |r| == |data|
  {
    seq<Byte>(|data|, i requires 0 <= i < |data| =>
      XorByte(data[i], cipher(ToUtf8(s.sharedKey), Counter(s, i / BLOCK_BYTES))[i % BLOCK_BYTES]))
  }

  lemma KeystreamTwice(cipher: BlockCipher, s: Secret, data: seq<Byte>)
    ensures ApplyKeystream(cipher, s, ApplyKeystream(cipher, s, data)) == data
  {
    forall i | 0 <= i < |data|
      ensures ApplyKeystream(cipher, s, ApplyKeystream(cipher, s, data))[i] == data[i]
    {
      XorTwice(data[i], cipher(ToUtf8(s.sharedKey), Counter(s, i / BLOCK_BYTES))[i % BLOCK_BYTES]);
    }
  }

  // ------------------------------------------------------------------ what the keystream is

  /** Bit `j` of a byte, counted from the lowest. */
  function Bit(b: nat, j: nat): nat {
    if j == 0 then b % 2 else Bit(b / 2, j - 1)
  }

  lemma ParityFlips(a: nat, b: nat)
    ensures (a + b) % 2 != a % 2 <==> b % 2 == 1
  {
  }

  /** Exclusive or, bit by bit: a bit of the result differs from that of `a` exactly where `b` has a 1. */
  lemma {:induction false} XorFlips(a: nat, b: nat, j: nat)
    ensures Bit(Xor(a, b), j) != Bit(a, j) <==> Bit(b, j) == 1
  {
    var x := Xor(a, b);
    XorStep(a, b);
    if j == 0 {
      ParityFlips(a, b);
    } else {
      XorFlips(a / 2, b / 2, j - 1);
      assert Bit(x, j) == Bit(x / 2, j - 1);
    }
  }

  lemma {:induction false} XorZero(b: nat)
    ensures Xor(0, b) == b
  {
    if b != 0 {
      XorZero(b / 2);
    }
  }

  /** A number spelled out highest byte first. */
  lemma {:induction false} BigEndianSpells(b: seq<Byte>)
    requires |b| > 0
    ensures BigEndian(b) == b[0] * Power(|b| - 1) + BigEndian(b[1..])
  {
    if |b| > 1 {
      var front := b[..|b| - 1];
      BigEndianSpells(front);
      assert front[1..] == b[1..][..|b| - 2];
      NatMath.Assoc(256, b[0], Power(|b| - 2));
    } else {
      assert BigEndian(b[..0]) == 0;
    }
  }

  /** 256 to the n. */
  function Power(n: nat): nat {
    if n == 0 then 1 else 256 * Power(n - 1)
  }

  /** The counter after this one; the last is followed by zero. */
  function Successor(counter: nat): nat {
    if counter + 1 == COUNTER_RANGE then 0 else counter + 1
  }

  function SuccessorOf(counter: nat, k: nat): nat {
    if k == 0 then counter else Successor(SuccessorOf(counter, k - 1))
  }

  lemma Wraps(x: nat, limit: nat)
    requires limit > 1
    ensures (x + 1) % limit == if x % limit + 1 == limit then 0 else x % limit + 1
  {
    assert x == x / limit * limit + x % limit;
    if x % limit + 1 == limit {
      assert x + 1 == (x / limit + 1) * limit;
      Remainder(x + 1, limit, x / limit + 1, 0);
    } else {
      Remainder(x + 1, limit, x / limit, x % limit + 1);
    }
  }

  lemma Remainder(x: nat, limit: nat, q: nat, r: nat)
    requires limit > 0 && x == q * limit + r && r < limit
    ensures x % limit == r
  {
    NatMath.Distribute(q, 1, limit);
    NatMath.QuotientIs(x, limit, q);
    assert NatMath.Quotient(x, limit) == x / limit;
    assert x == x / limit * limit + x % limit;
  }

  /** Block `k` is enciphered on the `k`-th successor of the vector. */
  lemma {:induction false} CounterIsSuccessor(s: Secret, k: nat)
    requires IsUsable(s)
    ensures Counter(s, k) == SuccessorOf(BigEndian(FromBase64(s.iv)), k)
  {
    var v := BigEndian(FromBase64(s.iv));
    if k == 0 {
      VectorInRange(FromBase64(s.iv));
      Remainder(v, COUNTER_RANGE, 0, v);
    } else {
      CounterIsSuccessor(s, k - 1);
      Wraps(v + (k - 1), COUNTER_RANGE);
    }
  }

  lemma {:induction false} VectorInRange(b: seq<Byte>)
    requires |b| == BLOCK_BYTES
    ensures BigEndian(b) < COUNTER_RANGE
  {
    BigEndianBound(b);
    PowerOfBlock();
  }

  lemma PowerOfBlock()
    ensures Power(BLOCK_BYTES) == COUNTER_RANGE
  {
    assert Power(4) == 0x1_0000_0000;
    assert Power(8) == 0x1_0000_0000_0000_0000;
    assert Power(12) == 0x1_0000_0000_0000_0000_0000_0000;
  }

  lemma {:induction false} BigEndianBound(b: seq<Byte>)
    ensures BigEndian(b) < Power(|b|)
  {
    if |b| > 0 {
      BigEndianBound(b[..|b| - 1]);
    }
  }

  /** Different blocks, below two to the 128, meet different counters. */
  lemma CountersDiffer(s: Secret, j: nat, k: nat)
    requires j < k < COUNTER_RANGE
    ensures Counter(s, j) != Counter(s, k)
  {
    RemaindersDiffer(BigEndian(FromBase64(s.iv)) + j, BigEndian(FromBase64(s.iv)) + k, COUNTER_RANGE);
  }

  lemma RemaindersDiffer(a: nat, b: nat, limit: nat)
    requires limit > 0 && a < b < a + limit
    ensures a % limit != b % limit
  {
    var q, r := a / limit, a % limit + (b - a);
    assert a == q * limit + a % limit;
    if r < limit {
      Remainder(b, limit, q, r);
    } else {
      NatMath.Distribute(q, 1, limit);
      Remainder(b, limit, q + 1, r - limit);
    }
  }

  /** The keystream: what is added to data of that length. */
  function Keystream(cipher: BlockCipher, s: Secret, length: nat): (r: seq<Byte>)
    ensures |r| == length
  {
    ApplyKeystream(cipher, s, seq<Byte>(length, _ => 0))
  }

  /** Its block `k` is the cipher's output, under the key's bytes, on the `k`-th successor of the number that
      the vector spells. */
  lemma {:induction false} KeystreamBlocks(cipher: BlockCipher, s: Secret, length: nat, k: nat)
    requires IsUsable(s) && (k + 1) * BLOCK_BYTES <= length
    ensures Keystream(cipher, s, length)[k * BLOCK_BYTES..(k + 1) * BLOCK_BYTES] ==
            cipher(ToUtf8(s.sharedKey), SuccessorOf(BigEndian(FromBase64(s.iv)), k))
  {
    CounterIsSuccessor(s, k);
    var stream := Keystream(cipher, s, length);
    forall i | 0 <= i < BLOCK_BYTES
      ensures stream[k * BLOCK_BYTES + i] == cipher(ToUtf8(s.sharedKey), Counter(s, k))[i]
    {
      XorZero(cipher(ToUtf8(s.sharedKey), Counter(s, k))[i]);
    }
  }

  /** A longer keystream begins with a shorter one, so the rule for whole blocks covers a last partial one. */
  lemma KeystreamPrefix(cipher: BlockCipher, s: Secret, length: nat, more: nat)
    requires length <= more
    ensures Keystream(cipher, s, length) == Keystream(cipher, s, more)[..length]
  {
  }

  /** The output differs from the data exactly in the bits in which the keystream has a 1. */
  lemma {:induction false} KeystreamFlips(cipher: BlockCipher, s: Secret, data: seq<Byte>, i: nat, j: nat)
    requires i < |data|
    ensures Bit(ApplyKeystream(cipher, s, data)[i], j) != Bit(data[i], j) <==>
            Bit(Keystream(cipher, s, |data|)[i], j) == 1
  {
    var mask := cipher(ToUtf8(s.sharedKey), Counter(s, i / BLOCK_BYTES))[i % BLOCK_BYTES];
    XorZero(mask);
    XorFlips(data[i], mask, j);
  }

  // ------------------------------------------------------------------ messages

  function Encrypt(cipher: BlockCipher, text: Text, s: Secret): Option<string> {
    if IsUsable(s) then Some(ToBase64(ApplyKeystream(cipher, s, ToUtf8(Characters(text))))) else None
  }

  function Decrypt(cipher: BlockCipher, content: string, s: Secret): Option<Text> {
    if IsUsable(s) then Some(CodeUnits(FromUtf8(ApplyKeystream(cipher, s, FromBase64(content))))) else None
  }

  /** Encryption fails exactly for a key or a vector of the wrong length; otherwise what is sent is, in Base64,
      the UTF-8 of the text with the bits flipped in which the keystream has a 1. */
  lemma {:induction false} EncryptIsCounterMode(cipher: BlockCipher, text: Text, s: Secret)
    ensures Encrypt(cipher, text, s).Some? <==> |ToUtf8(s.sharedKey)| == 32 && |FromBase64(s.iv)| == 16
    ensures Encrypt(cipher, text, s).Some? ==>
              var data, sent := ToUtf8(Characters(text)), FromBase64(Encrypt(cipher, text, s).value);
              && |sent| == |data|
              && forall i, j: nat :: 0 <= i < |sent| ==>
                   (Bit(sent[i], j) != Bit(data[i], j) <==> Bit(Keystream(cipher, s, |data|)[i], j) == 1)
  {
    if IsUsable(s) {
      var data := ToUtf8(Characters(text));
      Base64RoundTrip(ApplyKeystream(cipher, s, data));
      forall i, j: nat | 0 <= i < |data|
        ensures Bit(ApplyKeystream(cipher, s, data)[i], j) != Bit(data[i], j) <==>
                Bit(Keystream(cipher, s, |data|)[i], j) == 1
      {
        KeystreamFlips(cipher, s, data, i, j);
      }
    }
  }

  /** With a usable key and for whatever block cipher, a text comes back with its unpaired surrogates
      replaced, and so as it was exactly when it has none. */
  lemma EncryptThenDecrypt(cipher: BlockCipher, text: Text, s: Secret)
    requires IsUsable(s)
    ensures Encrypt(cipher, text, s).Some?
    ensures Decrypt(cipher, Encrypt(cipher, text, s).value, s) == Some(Replaced(text))
    ensures Decrypt(cipher, Encrypt(cipher, text, s).value, s) == Some(text) <==> IsPaired(text)
  {
    var bytes := ToUtf8(Characters(text));
    Base64RoundTrip(ApplyKeystream(cipher, s, bytes));
    KeystreamTwice(cipher, s, bytes);
    TextRoundTrip(text);
  }

  /** A lone surrogate is decrypted to the replacement character. */
  lemma LoneSurrogateIsLost(cipher: BlockCipher, s: Secret, text: Text)
    requires IsUsable(s) && |text| == 1 && (IsHigh(text[0]) || IsLow(text[0]))
    ensures Encrypt(cipher, text, s).Some? && Decrypt(cipher, Encrypt(cipher, text, s).value, s) == Some([0xFFFD])
  {
    EncryptThenDecrypt(cipher, text, s);
    LoneReplaced(text);
  }
}
