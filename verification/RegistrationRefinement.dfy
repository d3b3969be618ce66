/** Encryption is transparent: a run in which it is switched on at any point answers every request as the
    same run in which it never is, as long as no secret spells a ciphertext. */
module RegistrationRefinement {
  import opened Wrappers
  import opened Strings
  import opened SeedPhrases
  import opened SealedColumns
  import opened Registration
  import opened RegistrationProofs

  // ------------------------------------------------------------------ columns side by side

  ghost predicate Spells(enc: Encryption, text: string) {
    exists k, p :: enc(k, p) == text
  }

  /** The sealed column was made from the plain one, row by row. */
  ghost predicate MirrorRow(enc: Encryption, sealed: Sealed, plain: Sealed) {
    && plain.keyId.None?
    && (plain.text.None? ==> sealed == plain)
    && (plain.text.Some? ==> Holds(enc, sealed, plain.text.value) && !Spells(enc, plain.text.value))
  }

  ghost predicate MirrorColumn(enc: Encryption, sealed: seq<Sealed>, plain: seq<Sealed>) {
    |sealed| == |plain| && forall i :: 0 <= i < |sealed| ==> MirrorRow(enc, sealed[i], plain[i])
  }

  /** Empty texts are stored as they are. */
  predicate EmptyUnsealed(sealed: seq<Sealed>, plain: seq<Sealed>)
    requires |sealed| == |plain|
  {
    forall i :: 0 <= i < |sealed| && plain[i].text == Some("") ==> sealed[i].keyId.None?
  }

  /** In mirrored rows, the sealed one was made from a text or stores it exactly when the plain one has it. */
  lemma RowAgrees(enc: Encryption, sealed: Sealed, plain: Sealed, text: string)
    requires IsSealing(enc) && MirrorRow(enc, sealed, plain) && !Spells(enc, text)
    ensures Holds(enc, sealed, text) || sealed.text == Some(text) <==> plain.text == Some(text)
    ensures sealed.keyId.Some? ==> sealed.text != Some(text)
  {
    if plain.text.Some? && sealed.keyId.Some? {
      assert sealed.text == Some(enc(sealed.keyId.value, plain.text.value));
    }
  }

  /** On a non-empty text the two-way lookup finds the row that the plain lookup finds. */
  lemma LookupAgrees(enc: Encryption, key: Option<KeyId>, sealed: seq<Sealed>, plain: seq<Sealed>, text: string)
    requires IsSealing(enc) && MirrorColumn(enc, sealed, plain)
    requires KeyedBy(sealed, key) && Unshared(enc, sealed)
    requires |text| > 0 && !Spells(enc, text)
    ensures Lookup(enc, key, sealed, text) == FindText(plain, text, None)
  {
    forall i | 0 <= i < |sealed|
      ensures Holds(enc, sealed[i], text) || sealed[i].text == Some(text) <==> plain[i].text == Some(text)
    {
      RowAgrees(enc, sealed[i], plain[i], text);
    }
    var found := FindText(plain, text, None);
    LookupIff(enc, key, sealed, text);
    if found.Some? {
      assert MirrorRow(enc, sealed[found.value], plain[found.value]);
      LookupExact(enc, key, sealed, text, found.value);
    } else {
      assert forall i :: 0 <= i < |plain| ==> !IsMatch(plain[i], text, None);
    }
  }

  lemma {:induction false} SameMatches(a: seq<Sealed>, b: seq<Sealed>, text: string, from: nat)
    requires |a| == |b| && from <= |a|
    requires forall i :: 0 <= i < |a| ==> (a[i].text == Some(text) <==> b[i].text == Some(text))
    ensures FindText(a, text, None, from) == FindText(b, text, None, from)
    decreases |a| - from
  {
    if from < |a| && !IsMatch(a[from], text, None) {
      SameMatches(a, b, text, from + 1);
    }
  }

  /** So does the lookup of the empty text where that is never sealed. */
  lemma {:induction false} EmptyLookupAgrees(enc: Encryption, key: Option<KeyId>, sealed: seq<Sealed>,
                                             plain: seq<Sealed>)
    requires IsSealing(enc) && MirrorColumn(enc, sealed, plain) && EmptyUnsealed(sealed, plain)
    ensures Lookup(enc, key, sealed, "") == FindText(plain, "", None)
  {
    forall i | 0 <= i < |sealed|
      ensures sealed[i].text == Some("") <==> plain[i].text == Some("")
      ensures key.Some? ==> !IsMatch(sealed[i], enc(key.value, ""), key)
    {
      assert MirrorRow(enc, sealed[i], plain[i]);
    }
    SameMatches(sealed, plain, "", 0);
  }

  // ------------------------------------------------------------------ states side by side

  /** The encrypted backend and its plain counterpart differ in how secrets are stored, and in nothing else. */
  ghost predicate Mirrors(enc: Encryption, b: Backend, a: Backend) {
    && !a.kmsEnabled && b.users == a.users && b.settings == a.settings
    && MirrorColumn(enc, SeedColumn(b.hdWallets), SeedColumn(a.hdWallets))
    && EmptyUnsealed(SeedColumn(b.hdWallets), SeedColumn(a.hdWallets))
    && MirrorColumn(enc, KeyColumn(b.wallets), KeyColumn(a.wallets))
    && (forall i :: 0 <= i < |b.hdWallets| ==>
        b.hdWallets[i] == a.hdWallets[i].(seedPhrase := b.hdWallets[i].seedPhrase))
    && (forall i :: 0 <= i < |b.wallets| ==> b.wallets[i] == a.wallets[i].(privateKey := b.wallets[i].privateKey))
  }

  /** The secrets of a request spell no ciphertext. */
  ghost predicate PlainSecrets(enc: Encryption, input: RegisterInput) {
    !Spells(enc, input.privateKey) && (SeedOf(input).Some? ==> !Spells(enc, SeedOf(input).value))
  }

  lemma SameAddresses(enc: Encryption, b: Backend, a: Backend, address: string)
    requires Mirrors(enc, b, a)
    ensures HasAddress(b, address) == HasAddress(a, address)
  {
    assert |b.wallets| == |KeyColumn(b.wallets)| == |a.wallets|;
    assert forall i :: 0 <= i < |b.wallets| ==> b.wallets[i] in b.wallets && a.wallets[i] in a.wallets;
  }

  lemma SeedLookupAgrees(enc: Encryption, b: Backend, a: Backend, seed: string)
    requires IsSealing(enc) && SecretsInv(enc, b) && Mirrors(enc, b, a) && !Spells(enc, seed)
    ensures FindBySeedPhrase(enc, b, seed) == FindBySeedPhrase(enc, a, seed)
  {
    if |seed| > 0 {
      LookupAgrees(enc, ActiveKey(b), SeedColumn(b.hdWallets), SeedColumn(a.hdWallets), seed);
    } else {
      EmptyLookupAgrees(enc, ActiveKey(b), SeedColumn(b.hdWallets), SeedColumn(a.hdWallets));
    }
  }

  lemma KeyLookupAgrees(enc: Encryption, b: Backend, a: Backend, privateKey: string)
    requires IsSealing(enc) && SecretsInv(enc, b) && Mirrors(enc, b, a) && |privateKey| > 0 && !Spells(enc, privateKey)
    ensures FindByPrivateKey(enc, b, privateKey) == FindByPrivateKey(enc, a, privateKey)
  {
    LookupAgrees(enc, ActiveKey(b), KeyColumn(b.wallets), KeyColumn(a.wallets), privateKey);
  }

  lemma DataKeyMirrors(enc: Encryption, b: Backend, a: Backend)
    requires Mirrors(enc, b, a)
    ensures Mirrors(enc, WithDataKey(b), a) && WithDataKey(a) == a && ActiveKey(a) == None
  {
  }

  /** Both backends give the same answer to each of the two uniqueness lookups and to the address check. */
  lemma LookupsAgree(enc: Encryption, b: Backend, a: Backend, input: RegisterInput)
    requires IsSealing(enc) && SecretsInv(enc, b) && Mirrors(enc, b, a) && PlainSecrets(enc, input)
    ensures IsGiven(input.seedPhrase) ==>
              FindBySeedPhrase(enc, b, SeedOf(input).value) == FindBySeedPhrase(enc, a, SeedOf(input).value)
    ensures |input.privateKey| > 0 ==>
              FindByPrivateKey(enc, b, input.privateKey) == FindByPrivateKey(enc, a, input.privateKey)
    ensures HasAddress(b, input.walletAddress) == HasAddress(a, input.walletAddress)
  {
    if IsGiven(input.seedPhrase) {
      SeedLookupAgrees(enc, b, a, SeedOf(input).value);
    }
    if |input.privateKey| > 0 {
      KeyLookupAgrees(enc, b, a, input.privateKey);
    }
    SameAddresses(enc, b, a, input.walletAddress);
  }

  lemma CheckKeepsPlain(enc: Encryption, a: Backend, input: RegisterInput, words: seq<string>)
    requires !a.kmsEnabled
    ensures CheckNew(enc, a, input, words).after == a
  {
    CheckKeepsRows(enc, a, input, words);
  }

  lemma CheckAgrees(enc: Encryption, b: Backend, a: Backend, input: RegisterInput, words: seq<string>)
    requires IsSealing(enc) && SecretsInv(enc, b) && Mirrors(enc, b, a) && PlainSecrets(enc, input)
    ensures CheckNew(enc, b, input, words).reply == CheckNew(enc, a, input, words).reply
  {
    DataKeyKeepsSecrets(enc, b);
    DataKeyMirrors(enc, b, a);
    DataKeyKeepsRows(b);
    LookupsAgree(enc, b, a, input);
    LookupsAgree(enc, WithDataKey(b), a, input);
  }

  // ------------------------------------------------------------------ insertions side by side

  lemma StoredTextAgrees(enc: Encryption, sealed: Sealed, plain: Sealed, key: Option<KeyId>, seed: string)
    requires IsSealing(enc) && MirrorRow(enc, sealed, plain) && !Spells(enc, seed)
    requires plain.text != Some(seed) && (sealed.keyId.None? || sealed.keyId == key)
    ensures sealed.text != Seal(enc, key, seed).text
  {
    RowAgrees(enc, sealed, plain, seed);
    if plain.text.Some? && key.Some? {
      assert sealed.keyId.None? ==> sealed.text == plain.text && !Spells(enc, plain.text.value);
      assert Spells(enc, enc(key.value, seed));
    }
  }

  /** The unique index refuses the sealed phrase exactly when it would refuse the plain one. */
  lemma SeedStoredAgrees(enc: Encryption, b: Backend, a: Backend, seed: Option<string>)
    requires IsSealing(enc) && SecretsInv(enc, b) && Mirrors(enc, b, a) && (seed.Some? ==> !Spells(enc, seed.value))
    requires IsGiven(seed) ==> !SeedStored(a, seed)
    ensures SeedStored(b, SealedSeed(enc, b, seed).text) == SeedStored(a, seed)
  {
    assert |b.hdWallets| == |SeedColumn(b.hdWallets)| == |a.hdWallets|;
    forall i | 0 <= i < |b.hdWallets|
      ensures seed.Some? ==>
                (b.hdWallets[i].seedPhrase.text == SealedSeed(enc, b, seed).text <==>
                 a.hdWallets[i].seedPhrase.text == seed)
    {
      var sealed, plain := b.hdWallets[i].seedPhrase, a.hdWallets[i].seedPhrase;
      assert MirrorRow(enc, SeedColumn(b.hdWallets)[i], SeedColumn(a.hdWallets)[i]);
      assert a.hdWallets[i] in a.hdWallets && SeedColumn(b.hdWallets)[i] == sealed;
      if IsGiven(seed) {
        StoredTextAgrees(enc, sealed, plain, ActiveKey(b), seed.value);
      }
    }
    assert forall i :: 0 <= i < |b.hdWallets| ==> b.hdWallets[i] in b.hdWallets && a.hdWallets[i] in a.hdWallets;
  }

  lemma SealMirrors(enc: Encryption, key: Option<KeyId>, text: string)
    requires !Spells(enc, text)
    ensures MirrorRow(enc, Seal(enc, key, text), Seal(enc, None, text))
  {
  }

  lemma SealedSeedMirrors(enc: Encryption, b: Backend, a: Backend, seed: Option<string>)
    requires (seed.Some? ==> !Spells(enc, seed.value)) && ActiveKey(a).None?
    ensures MirrorRow(enc, SealedSeed(enc, b, seed), SealedSeed(enc, a, seed))
    ensures SealedSeed(enc, a, seed).text == Some("") ==> SealedSeed(enc, b, seed).keyId.None?
  {
    if seed.Some? {
      SealMirrors(enc, ActiveKey(b), seed.value);
    }
  }

  lemma HdWalletAppended(enc: Encryption, b: Backend, a: Backend, x: HdWalletRow, y: HdWalletRow)
    requires Mirrors(enc, b, a) && x == y.(seedPhrase := x.seedPhrase) && MirrorRow(enc, x.seedPhrase, y.seedPhrase)
    requires y.seedPhrase.text == Some("") ==> x.seedPhrase.keyId.None?
    ensures Mirrors(enc, b.(hdWallets := b.hdWallets + [x]), a.(hdWallets := a.hdWallets + [y]))
  {
    assert SeedColumn(b.hdWallets + [x]) == SeedColumn(b.hdWallets) + [x.seedPhrase];
    assert SeedColumn(a.hdWallets + [y]) == SeedColumn(a.hdWallets) + [y.seedPhrase];
  }

  lemma HdWalletMirrors(enc: Encryption, b: Backend, a: Backend, userId: UserId, input: RegisterInput)
    requires IsSealing(enc) && SecretsInv(enc, b) && Mirrors(enc, b, a) && PlainSecrets(enc, input)
    requires IsGiven(SeedOf(input)) ==> !SeedStored(a, SeedOf(input))
    ensures var x, y := InsertHdWallet(enc, b, userId, input), InsertHdWallet(enc, a, userId, input);
            x.Some? == y.Some? && (x.Some? ==> Mirrors(enc, x.value, y.value))
  {
    DataKeyMirrors(enc, b, a);
    DataKeyKeepsSecrets(enc, b);
    var b1, seed := WithDataKey(b), SeedOf(input);
    SeedStoredAgrees(enc, b1, a, seed);
    SealedSeedMirrors(enc, b1, a, seed);
    HdWalletAppended(enc, b1, a, HdWalletRow(userId, SealedSeed(enc, b1, seed), IsGiven(seed), input.networkId),
                     HdWalletRow(userId, SealedSeed(enc, a, seed), IsGiven(seed), input.networkId));
  }

  lemma WalletMirrors(enc: Encryption, b: Backend, a: Backend, userId: UserId, hdWalletId: nat, input: RegisterInput)
    requires Mirrors(enc, b, a) && PlainSecrets(enc, input)
    ensures Mirrors(enc, InsertWallet(enc, b, userId, hdWalletId, input),
                    InsertWallet(enc, a, userId, hdWalletId, input))
  {
    DataKeyMirrors(enc, b, a);
    var b1 := WithDataKey(b);
    SealMirrors(enc, ActiveKey(b1), input.privateKey);
    assert KeyColumn(InsertWallet(enc, b, userId, hdWalletId, input).wallets) ==
           KeyColumn(b.wallets) + [Seal(enc, ActiveKey(b1), input.privateKey)];
    assert KeyColumn(InsertWallet(enc, a, userId, hdWalletId, input).wallets) ==
      KeyColumn(a.wallets) + [Seal(enc, None, input.privateKey)];
  }

  lemma MirrorsInLength(enc: Encryption, b: Backend, a: Backend, input: RegisterInput, username: string)
    requires Mirrors(enc, b, a)
    ensures |b.hdWallets| == |a.hdWallets| && |b.wallets| == |a.wallets|
    ensures Mirrors(enc, InsertUser(b, input, username), InsertUser(a, input, username))
  {
    assert |b.hdWallets| == |SeedColumn(b.hdWallets)| == |a.hdWallets|;
    assert |b.wallets| == |KeyColumn(b.wallets)| == |a.wallets|;
  }

  lemma InsertAgrees(enc: Encryption, b: Backend, a: Backend, input: RegisterInput, username: string)
    requires IsSealing(enc) && SecretsInv(enc, b) && Mirrors(enc, b, a) && PlainSecrets(enc, input)
    requires IsGiven(SeedOf(input)) ==> !SeedStored(a, SeedOf(input))
    ensures InsertAll(enc, b, input, username).reply == InsertAll(enc, a, input, username).reply
    ensures Mirrors(enc, InsertAll(enc, b, input, username).after, InsertAll(enc, a, input, username).after)
  {
    var userId := |b.users|;
    var b1, a1 := InsertUser(b, input, username), InsertUser(a, input, username);
    MirrorsInLength(enc, b, a, input, username);
    HdWalletMirrors(enc, b1, a1, userId, input);
    DataKeyMirrors(enc, b1, a1);
    var b2, a2 := InsertHdWallet(enc, b1, userId, input), InsertHdWallet(enc, a1, userId, input);
    if b2.Some? {
      WalletMirrors(enc, b2.value, a2.value, userId, |b.hdWallets|, input);
    }
  }

  // ------------------------------------------------------------------ runs side by side

  /** What a request is answered; operators get no answer. */
  datatype Answer = OfRegister(reply: Reply) | OfRecovery(recovery: Recovery) | Silent

  function AnswerTo(enc: Encryption, b: Backend, s: Step): Answer {
    match s
    case RegisterUser(input, words) => OfRegister(Register(enc, b, input, words).reply)
    case RecoverByPrivateKey(privateKey) => OfRecovery(VerifyPrivateKey(enc, b, privateKey))
    case RecoverBySeedPhrase(phrase) => OfRecovery(VerifySeedPhrase(enc, b, phrase))
    case _ => Silent
  }

  function Answers(enc: Encryption, b: Backend, steps: seq<Step>): seq<Answer>
    decreases |steps|
  {
    if |steps| == 0 then [] else [AnswerTo(enc, b, steps[0])] + Answers(enc, Next(enc, b, steps[0]), steps[1..])
  }

  /** The same requests, with encryption never switched on. */
  function WithoutKms(steps: seq<Step>): (r: seq<Step>)
    ensures |r| == |steps|
  {
    if |steps| == 0 then []
    else [if steps[0].EnableKms? then AddMasterKey else steps[0]] + WithoutKms(steps[1..])
  }

  /** The secrets named in a step spell no ciphertext, and no recovery asks for the empty key. */
  ghost predicate SpellsNothing(enc: Encryption, s: Step) {
    match s
    case RegisterUser(input, _) => PlainSecrets(enc, input)
    case RecoverByPrivateKey(privateKey) => |privateKey| > 0 && !Spells(enc, privateKey)
    case _ => true
  }

  lemma RegisterAgrees(enc: Encryption, b: Backend, a: Backend, input: RegisterInput, words: seq<string>)
    requires IsSealing(enc) && Inv(enc, b) && Inv(enc, a) && Mirrors(enc, b, a) && PlainSecrets(enc, input)
    ensures Register(enc, b, input, words).reply == Register(enc, a, input, words).reply
    ensures Mirrors(enc, Register(enc, b, input, words).after, Register(enc, a, input, words).after)
  {
    CheckAgrees(enc, b, a, input, words);
    CheckKeepsPlain(enc, a, input, words);
    CheckKeepsRows(enc, b, input, words);
    DataKeyMirrors(enc, b, a);
    DataKeyKeepsSecrets(enc, b);
    var checked := CheckNew(enc, b, input, words);
    if checked.reply.Registered? {
      CheckedIsNew(enc, a, input, words);
      NotStored(enc, a, SeedOf(input));
      InsertAgrees(enc, checked.after, a, input, FreshUsername(a.users, words).value);
    }
  }

  lemma NotStored(enc: Encryption, a: Backend, seed: Option<string>)
    requires seed.Some? ==> NoneMadeFrom(enc, SeedColumn(a.hdWallets), seed.value)
    ensures IsGiven(seed) ==> !SeedStored(a, seed)
  {
    if IsGiven(seed) {
      forall h | h in a.hdWallets ensures h.seedPhrase.text != seed {
        var i :| 0 <= i < |a.hdWallets| && a.hdWallets[i] == h;
        assert SeedColumn(a.hdWallets)[i] == h.seedPhrase;
      }
    }
  }

  lemma {:induction false} ValidSpellsNothing(enc: Encryption, phrase: string)
    requires IsSealing(enc) && IsValidPhrase(phrase)
    ensures !Spells(enc, phrase)
  {
    ValidHasSpace(phrase);
  }

  lemma StepAgrees(enc: Encryption, b: Backend, a: Backend, s: Step)
    requires IsSealing(enc) && Inv(enc, b) && Inv(enc, a) && Mirrors(enc, b, a) && SpellsNothing(enc, s)
    ensures var t := WithoutKms([s])[0];
            AnswerTo(enc, b, s) == AnswerTo(enc, a, t) && Mirrors(enc, Next(enc, b, s), Next(enc, a, t))
  {
    DataKeyMirrors(enc, b, a);
    DataKeyKeepsSecrets(enc, b);
    match s
    case RegisterUser(input, words) => RegisterAgrees(enc, b, a, input, words);
    case RecoverByPrivateKey(privateKey) => KeyLookupAgrees(enc, WithDataKey(b), a, privateKey);
    case RecoverBySeedPhrase(phrase) =>
      if IsValidPhrase(Normalise(phrase)) {
        ValidSpellsNothing(enc, Normalise(phrase));
        SeedLookupAgrees(enc, WithDataKey(b), a, Normalise(phrase));
      }
    case EnableKms =>
    case AddMasterKey =>
  }

  lemma {:induction false} RunAgrees(enc: Encryption, b: Backend, a: Backend, steps: seq<Step>)
    requires IsSealing(enc) && Inv(enc, b) && Inv(enc, a) && Mirrors(enc, b, a)
    requires forall i :: 0 <= i < |steps| ==> SpellsNothing(enc, steps[i])
    ensures Answers(enc, b, steps) == Answers(enc, a, WithoutKms(steps))
    decreases |steps|
  {
    if |steps| > 0 {
      var s, t := steps[0], WithoutKms(steps)[0];
      assert WithoutKms([s])[0] == t && WithoutKms(steps)[1..] == WithoutKms(steps[1..]);
      StepAgrees(enc, b, a, s);
      StepKeepsInv(enc, b, s);
      StepKeepsInv(enc, a, t);
      RunAgrees(enc, Next(enc, b, s), Next(enc, a, t), steps[1..]);
    }
  }

  /** From the empty backend, every answer is the one that a backend without encryption gives. */
  lemma {:induction false} EncryptionIsTransparent(enc: Encryption, steps: seq<Step>)
    requires IsSealing(enc) && forall i :: 0 <= i < |steps| ==> SpellsNothing(enc, steps[i])
    ensures Answers(enc, EMPTY_BACKEND, steps) == Answers(enc, EMPTY_BACKEND, WithoutKms(steps))
  {
    ReachableStates(enc, []);
    RunAgrees(enc, EMPTY_BACKEND, EMPTY_BACKEND, steps);
  }
}
