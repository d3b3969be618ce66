/** A column of secrets, some stored as they are and some encrypted, and the two-way lookup over it. */
module SealedColumns {
  import opened Wrappers

  type KeyId = nat
  type Encryption = (KeyId, string) -> string

  /** What is used of the encryption: one ciphertext per key and text, different texts differ, and
      a ciphertext is a non-empty run of hexadecimal digits. */
  ghost predicate IsSealing(enc: Encryption) {
    && (forall k, p, q :: enc(k, p) == enc(k, q) ==> p == q)
    && (forall k, p :: IsHex(enc(k, p)))
  }

  predicate IsHex(s: string) {
    |s| > 0 && forall i :: 0 <= i < |s| ==> '0' <= s[i] <= '9' || 'a' <= s[i] <= 'f'
  }

  /** The secret column of a row and the id of the key it was encrypted with, if any. */
  datatype Sealed = Sealed(text: Option<string>, keyId: Option<KeyId>)

  function Seal(enc: Encryption, key: Option<KeyId>, plain: string): Sealed {
    Sealed(Some(if key.Some? then enc(key.value, plain) else plain), key)
  }

  /** The row was made from `plain`. */
  predicate Holds(enc: Encryption, s: Sealed, plain: string) {
    s == Seal(enc, s.keyId, plain)
  }

  /** `findOne`: the oldest row with this text and, when one is asked for, this key. */
  function FindText(col: seq<Sealed>, text: string, key: Option<KeyId>, from: nat := 0): (r: Option<nat>)
    requires from <= |col|
    ensures r.Some? ==> from <= r.value < |col| && IsMatch(col[r.value], text, key)
    ensures r.Some? ==> forall i :: from <= i < r.value ==> !IsMatch(col[i], text, key)
    ensures r.None? ==> forall i :: from <= i < |col| ==> !IsMatch(col[i], text, key)
    decreases |col| - from
  {
    if from == |col| then None
    else if IsMatch(col[from], text, key) then Some(from)
    else FindText(col, text, key, from + 1)
  }

  predicate IsMatch(s: Sealed, text: string, key: Option<KeyId>) {
    s.text == Some(text) && (key.Some? ==> s.keyId == key)
  }

  /** With a data key, the encrypted match is preferred over a row that stores the text itself. */
  function Lookup(enc: Encryption, key: Option<KeyId>, col: seq<Sealed>, plain: string): (r: Option<nat>)
    ensures r.Some? ==> r.value < |col|
  {
    if key.None? then FindText(col, plain, None)
    else
      var encrypted := FindText(col, enc(key.value, plain), key);
      if encrypted.Some? then encrypted else FindText(col, plain, None)
  }

  /** Every encrypted row was encrypted with the key in use. */
  ghost predicate KeyedBy(col: seq<Sealed>, key: Option<KeyId>) {
    forall i :: 0 <= i < |col| ==> col[i].keyId == None || col[i].keyId == key
  }

  /** No two rows were made from one secret, the empty text aside. */
  ghost predicate Unshared(enc: Encryption, col: seq<Sealed>) {
    forall i, j, p :: 0 <= i < j < |col| && Holds(enc, col[i], p) && Holds(enc, col[j], p) ==> |p| == 0
  }

  /** The lookup finds something exactly when some row was made from the text or literally stores it. */
  lemma LookupIff(enc: Encryption, key: Option<KeyId>, col: seq<Sealed>, plain: string)
    requires KeyedBy(col, key)
    ensures Lookup(enc, key, col, plain).Some? <==>
            exists i :: 0 <= i < |col| && (Holds(enc, col[i], plain) || col[i].text == Some(plain))
  {
    var r := Lookup(enc, key, col, plain);
    if i :| 0 <= i < |col| && (Holds(enc, col[i], plain) || col[i].text == Some(plain)) {
      assert IsMatch(col[i], plain, None) || IsMatch(col[i], enc(key.value, plain), key);
    }
    if r.Some? {
      assert Holds(enc, col[r.value], plain) || col[r.value].text == Some(plain);
    }
  }

  /** It finds the very row made from the text when there is one, no other, and no earlier row stores the
      text; what later rows store does not matter. */
  lemma LookupExact(enc: Encryption, key: Option<KeyId>, col: seq<Sealed>, plain: string, id: nat)
    requires KeyedBy(col, key) && Unshared(enc, col) && |plain| > 0
    requires id < |col| && Holds(enc, col[id], plain)
    requires forall i :: 0 <= i < id ==> col[i].text != Some(plain)
    ensures Lookup(enc, key, col, plain) == Some(id)
  {
    if key.Some? {
      var encrypted := FindText(col, enc(key.value, plain), key);
      if encrypted.Some? {
        assert Holds(enc, col[encrypted.value], plain);
        assert encrypted.value < id || id < encrypted.value ==> |plain| == 0;
      }
    }
    assert col[id].keyId.None? ==> IsMatch(col[id], plain, None);
    assert col[id].keyId.Some? ==> IsMatch(col[id], enc(key.value, plain), key);
  }

  lemma AppendUnshared(enc: Encryption, col: seq<Sealed>, key: Option<KeyId>, plain: string)
    requires IsSealing(enc) && KeyedBy(col, key) && Unshared(enc, col)
    requires |plain| > 0 ==> Lookup(enc, key, col, plain).None?
    ensures Unshared(enc, col + [Seal(enc, key, plain)]) && KeyedBy(col + [Seal(enc, key, plain)], key)
  {
    LookupIff(enc, key, col, plain);
    var all := col + [Seal(enc, key, plain)];
    forall i, j, p | 0 <= i < j < |all| && Holds(enc, all[i], p) && Holds(enc, all[j], p) ensures |p| == 0 {
      assert all[i] == col[i];
      if j == |col| {
        assert p == plain;
      }
    }
  }

  /** A null or an empty text is stored as it is and shares nothing. */
  lemma AppendEmpty(enc: Encryption, col: seq<Sealed>, key: Option<KeyId>, text: Option<string>)
    requires KeyedBy(col, key) && Unshared(enc, col) && (text.None? || text == Some(""))
    ensures Unshared(enc, col + [Sealed(text, None)]) && KeyedBy(col + [Sealed(text, None)], key)
  {
    var all := col + [Sealed(text, None)];
    forall i, j, p | 0 <= i < j < |all| && Holds(enc, all[i], p) && Holds(enc, all[j], p) ensures |p| == 0 {
      assert all[i] == col[i];
    }
  }
}
