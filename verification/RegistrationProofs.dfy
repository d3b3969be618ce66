/** What every run of registrations and recoveries keeps, and that lookup through encryption finds
    what was registered. */
module RegistrationProofs {
  import opened Wrappers
  import opened Strings
  import opened SeedPhrases
  import opened SealedColumns
  import opened Registration

  // ------------------------------------------------------------------ the invariant

  function HdOwners(b: Backend): (r: seq<UserId>)
    ensures |r| == |b.hdWallets| && forall i :: 0 <= i < |r| ==> r[i] == b.hdWallets[i].userId
  {
    seq(|b.hdWallets|, i requires 0 <= i < |b.hdWallets| => b.hdWallets[i].userId)
  }

  function WalletOwners(b: Backend): (r: seq<UserId>)
    ensures |r| == |b.wallets| && forall i :: 0 <= i < |r| ==> r[i] == b.wallets[i].userId
  {
    seq(|b.wallets|, i requires 0 <= i < |b.wallets| => b.wallets[i].userId)
  }

  function SettingOwners(b: Backend): (r: seq<UserId>)
    ensures |r| == |b.settings| && forall i :: 0 <= i < |r| ==> r[i] == b.settings[i].userId
  {
    seq(|b.settings|, i requires 0 <= i < |b.settings| => b.settings[i].userId)
  }

  ghost predicate SecretsInv(enc: Encryption, b: Backend) {
    && KeyedBy(SeedColumn(b.hdWallets), ActiveKey(b)) && Unshared(enc, SeedColumn(b.hdWallets))
    && KeyedBy(KeyColumn(b.wallets), ActiveKey(b)) && Unshared(enc, KeyColumn(b.wallets))
  }

  ghost predicate AddressesDiffer(wallets: seq<WalletRow>) {
    forall i, j :: 0 <= i < j < |wallets| ==> !SameAddress(wallets[i].address, wallets[j].address)
  }

  ghost predicate UsernamesDiffer(users: seq<UserRow>) {
    forall i, j :: 0 <= i < j < |users| ==> users[i].username != users[j].username
  }

  /** The three tables list the same owners in the same order, each an existing user, none twice. */
  ghost predicate OwnersInv(b: Backend) {
    && HdOwners(b) == WalletOwners(b) == SettingOwners(b)
    && Distinct(WalletOwners(b))
    && forall i :: 0 <= i < |b.wallets| ==> b.wallets[i].userId < |b.users|
  }

  ghost predicate Inv(enc: Encryption, b: Backend) {
    SecretsInv(enc, b) && AddressesDiffer(b.wallets) && UsernamesDiffer(b.users) && OwnersInv(b)
  }

  /** Later states keep every row, and a data key in use stays in use. */
  ghost predicate Grows(b: Backend, c: Backend) {
    && b.users <= c.users && b.hdWallets <= c.hdWallets && b.wallets <= c.wallets && b.settings <= c.settings
    && (ActiveKey(b).Some? ==> ActiveKey(c) == ActiveKey(b))
    && (b.kmsEnabled ==> c.kmsEnabled)
  }

  // ------------------------------------------------------------------ parts of a registration

  lemma DataKeyKeepsInv(enc: Encryption, b: Backend)
    requires Inv(enc, b)
    ensures Inv(enc, WithDataKey(b)) && Grows(b, WithDataKey(b))
  {
    var c := WithDataKey(b);
    assert HdOwners(c) == HdOwners(b) && WalletOwners(c) == WalletOwners(b) && SettingOwners(c) == SettingOwners(b);
  }

  /** The checks leave every row alone. */
  lemma CheckKeepsRows(enc: Encryption, b: Backend, input: RegisterInput, words: seq<string>)
    ensures CheckNew(enc, b, input, words).after == b || CheckNew(enc, b, input, words).after == WithDataKey(b)
  {
    assert WithDataKey(WithDataKey(b)) == WithDataKey(b);
  }

  /** A refused lookup means that no row was made from the text or stores it. */
  lemma LookupRulesOut(enc: Encryption, key: Option<KeyId>, col: seq<Sealed>, plain: string)
    requires KeyedBy(col, key) && Lookup(enc, key, col, plain).None?
    ensures NoneMadeFrom(enc, col, plain)
  {
    LookupIff(enc, key, col, plain);
  }

  lemma DataKeyKeepsRows(b: Backend)
    ensures WithDataKey(b) == b.(dataKeys := WithDataKey(b).dataKeys) && WithDataKey(WithDataKey(b)) == WithDataKey(b)
  {
  }

  lemma CheckedName(enc: Encryption, b: Backend, input: RegisterInput, words: seq<string>)
    requires CheckNew(enc, b, input, words).reply.Registered?
    ensures CheckNew(enc, b, input, words).reply.userId == |b.users|
    ensures FreshUsername(b.users, words).Some?
  {
    DataKeyKeepsRows(b);
  }

  lemma CheckedRows(enc: Encryption, b: Backend, input: RegisterInput, words: seq<string>)
    requires CheckNew(enc, b, input, words).reply.Registered?
    ensures !HasAddress(b, input.walletAddress) && !EmailExists(b, input.email)
  {
    DataKeyKeepsRows(b);
    var c := CheckNew(enc, b, input, words).after;
    assert !HasAddress(c, input.walletAddress) && !EmailExists(c, input.email);
  }

  lemma CheckedLookups(enc: Encryption, b: Backend, input: RegisterInput, words: seq<string>)
    requires CheckNew(enc, b, input, words).reply.Registered?
    ensures IsGiven(input.seedPhrase) ==> FindBySeedPhrase(enc, WithDataKey(b), SeedOf(input).value).None?
    ensures |input.privateKey| > 0 ==> FindByPrivateKey(enc, WithDataKey(b), input.privateKey).None?
  {
    assert WithDataKey(WithDataKey(b)) == WithDataKey(b);
  }

  /** Passing the checks means that both secrets and the address are new. */
  lemma CheckedIsNew(enc: Encryption, b: Backend, input: RegisterInput, words: seq<string>)
    requires Inv(enc, b) && CheckNew(enc, b, input, words).reply.Registered?
    ensures CheckNew(enc, b, input, words).reply.userId == |b.users|
    ensures FreshUsername(b.users, words).Some?
    ensures !HasAddress(b, input.walletAddress) && !EmailExists(b, input.email)
    ensures NoneMadeFrom(enc, KeyColumn(b.wallets), input.privateKey)
    ensures SeedOf(input).Some? ==> NoneMadeFrom(enc, SeedColumn(b.hdWallets), SeedOf(input).value)
  {
    CheckedName(enc, b, input, words);
    CheckedRows(enc, b, input, words);
    CheckedLookups(enc, b, input, words);
    DataKeyKeepsSecrets(enc, b);
    var key := ActiveKey(WithDataKey(b));
    if IsGiven(input.seedPhrase) {
      LookupRulesOut(enc, key, SeedColumn(b.hdWallets), SeedOf(input).value);
    }
    if |input.privateKey| > 0 {
      LookupRulesOut(enc, key, KeyColumn(b.wallets), input.privateKey);
    }
  }

  ghost predicate NoneMadeFrom(enc: Encryption, col: seq<Sealed>, plain: string) {
    |plain| > 0 ==> forall i :: 0 <= i < |col| ==> !Holds(enc, col[i], plain) && col[i].text != Some(plain)
  }

  lemma SealKeepsColumn(enc: Encryption, col: seq<Sealed>, key: Option<KeyId>, plain: string)
    requires IsSealing(enc) && KeyedBy(col, key) && Unshared(enc, col) && NoneMadeFrom(enc, col, plain)
    ensures Unshared(enc, col + [Seal(enc, key, plain)]) && KeyedBy(col + [Seal(enc, key, plain)], key)
  {
    LookupIff(enc, key, col, plain);
    AppendUnshared(enc, col, key, plain);
  }

  // ------------------------------------------------------------------ the insertions

  lemma DataKeyKeepsSecrets(enc: Encryption, b: Backend)
    requires SecretsInv(enc, b)
    ensures SecretsInv(enc, WithDataKey(b)) && Grows(b, WithDataKey(b))
  {
  }

  lemma HdWalletInserted(enc: Encryption, b: Backend, userId: UserId, input: RegisterInput)
    requires IsSealing(enc) && SecretsInv(enc, b)
    requires SeedOf(input).Some? ==> NoneMadeFrom(enc, SeedColumn(b.hdWallets), SeedOf(input).value)
    requires InsertHdWallet(enc, b, userId, input).Some?
    ensures var c := InsertHdWallet(enc, b, userId, input).value;
            && SecretsInv(enc, c) && Grows(b, c)
            && c == WithDataKey(b).(hdWallets := c.hdWallets) && |c.hdWallets| == |b.hdWallets| + 1
            && c.hdWallets[|b.hdWallets|].userId == userId
            && (SeedOf(input).Some? ==> Holds(enc, c.hdWallets[|b.hdWallets|].seedPhrase, SeedOf(input).value))
            && c.hdWallets[|b.hdWallets|].isHD == IsGiven(SeedOf(input))
  {
    DataKeyKeepsSecrets(enc, b);
    var c := InsertHdWallet(enc, b, userId, input).value;
    var col, key, seed := SeedColumn(b.hdWallets), ActiveKey(c), SeedOf(input);
    var sealed := SealedSeed(enc, WithDataKey(b), seed);
    if IsGiven(seed) {
      SealKeepsColumn(enc, col, key, seed.value);
    } else {
      AppendEmpty(enc, col, key, seed);
    }
    assert SeedColumn(c.hdWallets) == col + [sealed];
  }

  lemma WalletInserted(enc: Encryption, b: Backend, userId: UserId, hdWalletId: nat, input: RegisterInput)
    requires IsSealing(enc) && SecretsInv(enc, b) && NoneMadeFrom(enc, KeyColumn(b.wallets), input.privateKey)
    ensures var c := InsertWallet(enc, b, userId, hdWalletId, input);
            && SecretsInv(enc, c) && Grows(b, c)
            && c == WithDataKey(b).(wallets := c.wallets) && |c.wallets| == |b.wallets| + 1
            && c.wallets[|b.wallets|].userId == userId && c.wallets[|b.wallets|].hdWalletId == hdWalletId
            && c.wallets[|b.wallets|].address == input.walletAddress
            && Holds(enc, c.wallets[|b.wallets|].privateKey, input.privateKey)
  {
    DataKeyKeepsSecrets(enc, b);
    var c := InsertWallet(enc, b, userId, hdWalletId, input);
    SealKeepsColumn(enc, KeyColumn(b.wallets), ActiveKey(c), input.privateKey);
    assert KeyColumn(c.wallets) == KeyColumn(b.wallets) + [Seal(enc, ActiveKey(c), input.privateKey)];
  }

  /** One more owner in each table. */
  lemma OwnersAppended(b: Backend, c: Backend)
    requires OwnersInv(b)
    requires b.users <= c.users && b.hdWallets <= c.hdWallets && b.wallets <= c.wallets && b.settings <= c.settings
    requires |c.users| == |b.users| + 1 && |c.hdWallets| == |b.hdWallets| + 1
    requires |c.wallets| == |b.wallets| + 1 && |c.settings| == |b.settings| + 1
    requires c.hdWallets[|b.hdWallets|].userId == c.wallets[|b.wallets|].userId == c.settings[|b.settings|].userId ==
             |b.users|
    ensures OwnersInv(c)
  {
    var u := |b.users|;
    assert HdOwners(c) == HdOwners(b) + [u];
    assert WalletOwners(c) == WalletOwners(b) + [u];
    assert SettingOwners(c) == SettingOwners(b) + [u];
    assert forall i :: 0 <= i < |b.wallets| ==> WalletOwners(b)[i] == b.wallets[i].userId < u;
  }

  lemma SameOwners(b: Backend, c: Backend)
    requires OwnersInv(b) && |b.users| <= |c.users|
    requires b.hdWallets == c.hdWallets && b.wallets == c.wallets && b.settings == c.settings
    ensures OwnersInv(c)
  {
    assert HdOwners(c) == HdOwners(b) && WalletOwners(c) == WalletOwners(b) && SettingOwners(c) == SettingOwners(b);
  }

  /** The new user has no setting yet, so one is created. */
  lemma NoSettingYet(b: Backend)
    requires OwnersInv(b)
    ensures forall s :: s in b.settings ==> s.userId != |b.users|
  {
    forall s | s in b.settings ensures s.userId != |b.users| {
      var i :| 0 <= i < |b.settings| && b.settings[i] == s;
      assert SettingOwners(b)[i] == WalletOwners(b)[i] == b.wallets[i].userId;
    }
  }

  // ------------------------------------------------------------------ a whole registration

  /** The rows that a completed registration has added, each at the end of its table. */
  ghost predicate Added(enc: Encryption, b: Backend, c: Backend, input: RegisterInput) {
    var u, h, w, s := |b.users|, |b.hdWallets|, |b.wallets|, |b.settings|;
    && Grows(b, c)
    && |c.users| == u + 1 && |c.hdWallets| == h + 1 && |c.wallets| == w + 1 && |c.settings| == s + 1
    && !UsernameExists(b.users, c.users[u].username) && c.users[u].email == input.email
    && c.hdWallets[h].userId == c.wallets[w].userId == c.settings[s].userId == u
    && c.wallets[w].hdWalletId == h && c.settings[s].walletId == w
    && c.wallets[w].address == input.walletAddress && Holds(enc, c.wallets[w].privateKey, input.privateKey)
    && (SeedOf(input).Some? ==> Holds(enc, c.hdWallets[h].seedPhrase, SeedOf(input).value))
    && c.hdWallets[h].isHD == IsGiven(SeedOf(input))
  }

  /** What a refusal leaves behind: nothing, or a user without wallet when the insertion of its HD
      wallet was refused. */
  ghost predicate LeftByRefusal(b: Backend, c: Backend, reason: Refusal) {
    && Grows(b, c) && c.hdWallets == b.hdWallets && c.wallets == b.wallets && c.settings == b.settings
    && if reason == SeedPhraseTaken
       then |c.users| == |b.users| + 1 && !UsernameExists(b.users, c.users[|b.users|].username)
       else c.users == b.users
  }

  /** The state before the wallet's insertion. */
  ghost predicate HdWalletAdded(enc: Encryption, b: Backend, c: Backend, input: RegisterInput) {
    var u, h := |b.users|, |b.hdWallets|;
    && Grows(b, c) && SecretsInv(enc, c) && c.wallets == b.wallets && c.settings == b.settings
    && |c.users| == u + 1 && |c.hdWallets| == h + 1
    && c.users[u].email == input.email && c.hdWallets[h].userId == u
    && (SeedOf(input).Some? ==> Holds(enc, c.hdWallets[h].seedPhrase, SeedOf(input).value))
    && c.hdWallets[h].isHD == IsGiven(SeedOf(input))
  }

  lemma HdWalletStep(enc: Encryption, b: Backend, input: RegisterInput, username: string)
    requires IsSealing(enc) && SecretsInv(enc, b)
    requires SeedOf(input).Some? ==> NoneMadeFrom(enc, SeedColumn(b.hdWallets), SeedOf(input).value)
    requires InsertHdWallet(enc, InsertUser(b, input, username), |b.users|, input).Some?
    ensures var c := InsertHdWallet(enc, InsertUser(b, input, username), |b.users|, input).value;
            HdWalletAdded(enc, b, c, input) && c.users[|b.users|].username == username
  {
    HdWalletInserted(enc, InsertUser(b, input, username), |b.users|, input);
  }

  lemma WalletStep(enc: Encryption, b: Backend, c: Backend, input: RegisterInput)
    requires IsSealing(enc) && OwnersInv(b) && HdWalletAdded(enc, b, c, input)
    requires !UsernameExists(b.users, c.users[|b.users|].username)
    requires NoneMadeFrom(enc, KeyColumn(b.wallets), input.privateKey)
    ensures var d := InsertSetting(InsertWallet(enc, c, |b.users|, |b.hdWallets|, input), |b.users|, |b.wallets|,
                                   input.networkId);
            SecretsInv(enc, d) && Added(enc, b, d, input)
  {
    WalletInserted(enc, c, |b.users|, |b.hdWallets|, input);
    NoSettingYet(b);
  }

  lemma InsertAllEffect(enc: Encryption, b: Backend, input: RegisterInput, username: string)
    requires IsSealing(enc) && SecretsInv(enc, b) && OwnersInv(b) && !UsernameExists(b.users, username)
    requires NoneMadeFrom(enc, KeyColumn(b.wallets), input.privateKey)
    requires SeedOf(input).Some? ==> NoneMadeFrom(enc, SeedColumn(b.hdWallets), SeedOf(input).value)
    ensures var o := InsertAll(enc, b, input, username);
            && SecretsInv(enc, o.after)
            && (o.reply.Registered? ==> o.reply.userId == |b.users| && Added(enc, b, o.after, input))
            && (o.reply.Refused? ==> o.reply.reason == SeedPhraseTaken && LeftByRefusal(b, o.after, SeedPhraseTaken))
  {
    var b1 := InsertUser(b, input, username);
    var b2 := InsertHdWallet(enc, b1, |b.users|, input);
    if b2.None? {
      DataKeyKeepsSecrets(enc, b1);
    } else {
      HdWalletStep(enc, b, input, username);
      WalletStep(enc, b, b2.value, input);
    }
  }

  lemma RegisterEffect(enc: Encryption, b: Backend, input: RegisterInput, words: seq<string>)
    requires IsSealing(enc) && Inv(enc, b)
    ensures var o := Register(enc, b, input, words);
            && SecretsInv(enc, o.after)
            && (o.reply.Registered? ==>
                o.reply.userId == |b.users| && Added(enc, b, o.after, input) && !HasAddress(b, input.walletAddress))
            && (o.reply.Refused? ==> LeftByRefusal(b, o.after, o.reply.reason))
  {
    DataKeyKeepsInv(enc, b);
    CheckKeepsRows(enc, b, input, words);
    var checked := CheckNew(enc, b, input, words);
    if checked.reply.Registered? {
      CheckedIsNew(enc, b, input, words);
      InsertAllEffect(enc, checked.after, input, FreshUsername(checked.after.users, words).value);
    }
  }

  // ------------------------------------------------------------------ when a registration is refused

  /** No row was made from the text or stores it. */
  ghost predicate NoneStored(enc: Encryption, col: seq<Sealed>, text: string) {
    forall i :: 0 <= i < |col| ==> !Holds(enc, col[i], text) && col[i].text != Some(text)
  }

  predicate AddressTaken(b: Backend, address: string) {
    exists i :: 0 <= i < |b.wallets| && Lower(b.wallets[i].address) == Lower(address)
  }

  predicate NameTaken(b: Backend, name: string) {
    exists i :: 0 <= i < |b.users| && b.users[i].username == name
  }

  predicate EmailUsed(b: Backend, email: string) {
    exists i :: 0 <= i < |b.users| && b.users[i].email == Some(email)
  }

  /** The answers in the order of the checks: the passwords differ; a given phrase, in its normal form, or a
      non-empty key is known; the address is taken, up to case; every drawn name is; the e-mail is used; the
      phrase is refused by its index; and otherwise the registration succeeds. */
  ghost predicate RegisterAnswers(enc: Encryption, b: Backend, input: RegisterInput, words: seq<string>, reply: Reply) {
    if input.password != input.confirmPassword then reply == Refused(PasswordMismatch)
    else if input.seedPhrase.Some? && input.seedPhrase.value != "" &&
            !NoneStored(enc, SeedColumn(b.hdWallets), Normalise(input.seedPhrase.value)) then
      reply == Refused(HdWalletExists)
    else if input.privateKey != "" && !NoneStored(enc, KeyColumn(b.wallets), input.privateKey) then
      reply == Refused(WalletExists)
    else if AddressTaken(b, input.walletAddress) then reply == Refused(AddressExists)
    else if forall k :: 0 <= k < |words| ==> NameTaken(b, words[k]) then reply == Refused(NoFreshUsername)
    else if input.email.Some? && EmailUsed(b, input.email.value) then reply == Refused(EmailTaken)
    else reply == if PhraseIndexed(enc, b, input) then Refused(SeedPhraseTaken) else Registered(|b.users|)
  }

  /** The text that would be stored for the phrase is stored already. */
  ghost predicate PhraseIndexed(enc: Encryption, b: Backend, input: RegisterInput) {
    var key := ActiveKey(WithDataKey(b));
    || (input.seedPhrase == Some("") && SeedStored(b, Some("")))
    || (IsGiven(SeedOf(input)) && key.Some? && SeedStored(b, Some(enc(key.value, SeedOf(input).value))))
  }

  lemma TakenIff(b: Backend, address: string, name: string, email: Option<string>)
    ensures HasAddress(b, address) <==> AddressTaken(b, address)
    ensures UsernameExists(b.users, name) <==> NameTaken(b, name)
    ensures EmailExists(b, email) <==> email.Some? && EmailUsed(b, email.value)
  {
  }

  lemma FreshIff(b: Backend, words: seq<string>)
    ensures FreshUsername(b.users, words).None? <==> forall k :: 0 <= k < |words| ==> NameTaken(b, words[k])
  {
    forall name ensures UsernameExists(b.users, name) <==> NameTaken(b, name) {
      TakenIff(b, "", name, None);
    }
    assert forall k :: 0 <= k < |words| ==> words[k] in words;
  }

  lemma KnownIff(enc: Encryption, b: Backend, text: string)
    requires SecretsInv(enc, b)
    ensures FindBySeedPhrase(enc, WithDataKey(b), text).Some? <==> !NoneStored(enc, SeedColumn(b.hdWallets), text)
    ensures FindByPrivateKey(enc, WithDataKey(b), text).Some? <==> !NoneStored(enc, KeyColumn(b.wallets), text)
  {
    DataKeyKeepsSecrets(enc, b);
    LookupIff(enc, ActiveKey(WithDataKey(b)), SeedColumn(b.hdWallets), text);
    LookupIff(enc, ActiveKey(WithDataKey(b)), KeyColumn(b.wallets), text);
  }

  lemma CheckReply(enc: Encryption, b: Backend, input: RegisterInput, words: seq<string>)
    ensures CheckNew(enc, b, input, words).reply ==
            if input.password != input.confirmPassword then Refused(PasswordMismatch)
            else if IsGiven(input.seedPhrase) && FindBySeedPhrase(enc, WithDataKey(b), SeedOf(input).value).Some? then
              Refused(HdWalletExists)
            else if |input.privateKey| > 0 && FindByPrivateKey(enc, WithDataKey(b), input.privateKey).Some? then
              Refused(WalletExists)
            else if HasAddress(b, input.walletAddress) then Refused(AddressExists)
            else if FreshUsername(b.users, words).None? then Refused(NoFreshUsername)
            else if EmailExists(b, input.email) then Refused(EmailTaken)
            else Registered(|b.users|)
  {
    DataKeyKeepsRows(b);
  }

  /** The checks give the first refusal of that order. */
  lemma {:induction false} CheckAnswers(enc: Encryption, b: Backend, input: RegisterInput, words: seq<string>)
    requires SecretsInv(enc, b)
    ensures var reply := CheckNew(enc, b, input, words).reply;
            RegisterAnswers(enc, b, input, words,
                            if reply.Registered? && PhraseIndexed(enc, b, input) then Refused(SeedPhraseTaken)
                            else reply)
  {
    CheckReply(enc, b, input, words);
    if IsGiven(input.seedPhrase) {
      KnownIff(enc, b, SeedOf(input).value);
    }
    KnownIff(enc, b, input.privateKey);
    TakenIff(b, input.walletAddress, "", input.email);
    FreshIff(b, words);
  }

  lemma {:induction false} RegisterIsAnswered(enc: Encryption, b: Backend, input: RegisterInput, words: seq<string>)
    requires Inv(enc, b)
    ensures RegisterAnswers(enc, b, input, words, Register(enc, b, input, words).reply)
  {
    CheckAnswers(enc, b, input, words);
    if CheckNew(enc, b, input, words).reply.Registered? {
      PartialUserIff(enc, b, input, words);
      CheckedReply(enc, b, input, words);
    }
  }

  lemma CheckedReply(enc: Encryption, b: Backend, input: RegisterInput, words: seq<string>)
    requires CheckNew(enc, b, input, words).reply.Registered?
    ensures CheckNew(enc, b, input, words).reply == Registered(|b.users|)
    ensures Register(enc, b, input, words).reply in {Registered(|b.users|), Refused(SeedPhraseTaken)}
  {
    DataKeyKeepsRows(b);
  }

  // ------------------------------------------------------------------ how secrets are stored

  /** Under the first data key while encryption is on and there is one, and as they are otherwise. */
  ghost predicate StoredAs(enc: Encryption, c: Backend, s: Sealed, plain: string) {
    s == if c.kmsEnabled && c.dataKeys > 0 then Sealed(Some(enc(0, plain)), Some(0)) else Sealed(Some(plain), None)
  }

  /** The name is the first drawn one that was free, the secrets are stored under a key if there can be one, and
      every row is in the network of the request. */
  ghost predicate StoredRows(enc: Encryption, b: Backend, c: Backend, input: RegisterInput, words: seq<string>) {
    var u, h, w, s := |b.users|, |b.hdWallets|, |b.wallets|, |b.settings|;
    && u < |c.users| && h < |c.hdWallets| && w < |c.wallets| && s < |c.settings|
    && c.kmsEnabled == b.kmsEnabled && (b.kmsEnabled && (b.hasMasterKey || b.dataKeys > 0) ==> c.dataKeys > 0)
    && IsFirstFree(b, words, c.users[u].username)
    && StoredAs(enc, c, c.wallets[w].privateKey, input.privateKey)
    && (if input.seedPhrase.Some? && Normalise(input.seedPhrase.value) != "" && input.seedPhrase.value != ""
        then StoredAs(enc, c, c.hdWallets[h].seedPhrase, Normalise(input.seedPhrase.value))
        else c.hdWallets[h].seedPhrase == Sealed(if input.seedPhrase.None? then None else Some(""), None))
    && c.hdWallets[h].networkId == input.networkId && c.wallets[w].networkId == input.networkId
    && c.settings[s].networkId == input.networkId
  }

  predicate IsFirstFree(b: Backend, words: seq<string>, name: string) {
    exists k :: 0 <= k < |words| && words[k] == name && !NameTaken(b, name) &&
                forall j :: 0 <= j < k ==> NameTaken(b, words[j])
  }

  lemma {:induction false} FreshIsFirst(b: Backend, words: seq<string>)
    requires FreshUsername(b.users, words).Some?
    ensures IsFirstFree(b, words, FreshUsername(b.users, words).value)
  {
    TakenIff(b, "", words[0], None);
    if NameTaken(b, words[0]) {
      FreshIsFirst(b, words[1..]);
      var name := FreshUsername(b.users, words).value;
      var k :| 0 <= k < |words[1..]| && words[1..][k] == name && forall j :: 0 <= j < k ==> NameTaken(b, words[1..][j]);
      assert words[k + 1] == name;
      assert forall j :: 0 < j < k + 1 ==> words[j] == words[1..][j - 1];
    } else {
      assert words[0] == FreshUsername(b.users, words).value;
    }
  }

  lemma {:induction false} InsertStores(enc: Encryption, b: Backend, input: RegisterInput, words: seq<string>,
                                        username: string)
    requires OwnersInv(b) && IsFirstFree(b, words, username)
    requires InsertAll(enc, b, input, username).reply.Registered?
    ensures StoredRows(enc, b, InsertAll(enc, b, input, username).after, input, words)
  {
    NoSettingYet(b);
    NormalOfEmpty();
    var c := InsertAll(enc, b, input, username).after;
    assert c.users == b.users + [UserRow(username, input.email)];
  }

  lemma NormalOfEmpty()
    ensures Normalise("") == ""
  {
  }

  lemma {:induction false} RegisterStores(enc: Encryption, b: Backend, input: RegisterInput, words: seq<string>)
    requires OwnersInv(b) && Register(enc, b, input, words).reply.Registered?
    ensures StoredRows(enc, b, Register(enc, b, input, words).after, input, words)
  {
    var checked := CheckNew(enc, b, input, words).after;
    CheckKeepsRows(enc, b, input, words);
    DataKeyKeepsRows(b);
    FreshIsFirst(checked, words);
    SameOwners(b, checked);
    InsertStores(enc, checked, input, words, FreshUsername(checked.users, words).value);
  }

  lemma AddressAppended(b: Backend, c: Backend)
    requires AddressesDiffer(b.wallets) && b.wallets <= c.wallets && |c.wallets| == |b.wallets| + 1
    requires !HasAddress(b, c.wallets[|b.wallets|].address)
    ensures AddressesDiffer(c.wallets)
  {
    assert forall i :: 0 <= i < |b.wallets| ==> b.wallets[i] in b.wallets && c.wallets[i] == b.wallets[i];
  }

  lemma UsernameAppended(b: Backend, c: Backend)
    requires UsernamesDiffer(b.users) && b.users <= c.users && |c.users| == |b.users| + 1
    requires !UsernameExists(b.users, c.users[|b.users|].username)
    ensures UsernamesDiffer(c.users)
  {
    assert forall i :: 0 <= i < |b.users| ==> b.users[i] in b.users && c.users[i] == b.users[i];
  }

  lemma RegisterKeepsInv(enc: Encryption, b: Backend, input: RegisterInput, words: seq<string>)
    requires IsSealing(enc) && Inv(enc, b)
    ensures Inv(enc, Register(enc, b, input, words).after) && Grows(b, Register(enc, b, input, words).after)
  {
    RegisterEffect(enc, b, input, words);
    var o := Register(enc, b, input, words);
    if o.reply.Registered? {
      OwnersAppended(b, o.after);
      AddressAppended(b, o.after);
      UsernameAppended(b, o.after);
    } else {
      SameOwners(b, o.after);
      if o.reply.reason == SeedPhraseTaken {
        UsernameAppended(b, o.after);
      }
    }
  }

  lemma StepKeepsInv(enc: Encryption, b: Backend, s: Step)
    requires IsSealing(enc) && Inv(enc, b)
    ensures Inv(enc, Next(enc, b, s)) && Grows(b, Next(enc, b, s))
  {
    match s
    case RegisterUser(input, words) => RegisterKeepsInv(enc, b, input, words);
    case RecoverByPrivateKey(_) => DataKeyKeepsInv(enc, b);
    case RecoverBySeedPhrase(_) => DataKeyKeepsInv(enc, b);
    case EnableKms => SameOwners(b, Next(enc, b, s));
    case AddMasterKey => SameOwners(b, Next(enc, b, s));
  }

  lemma {:induction false} RunKeepsInv(enc: Encryption, b: Backend, steps: seq<Step>)
    requires IsSealing(enc) && Inv(enc, b)
    ensures Inv(enc, Run(enc, b, steps)) && Grows(b, Run(enc, b, steps))
    decreases |steps|
  {
    if |steps| > 0 {
      StepKeepsInv(enc, b, steps[0]);
      RunKeepsInv(enc, Next(enc, b, steps[0]), steps[1..]);
    }
  }

  /** Over every run: no two wallets share a non-empty private key or an address up to case, no two HD
      wallets a non-empty seed phrase, no two users a name; each user has a wallet, an HD wallet and a
      setting, or none of the three, and never two. */
  lemma {:induction false} ReachableStates(enc: Encryption, steps: seq<Step>)
    requires IsSealing(enc)
    ensures Inv(enc, Run(enc, EMPTY_BACKEND, steps))
  {
    assert Inv(enc, EMPTY_BACKEND);
    RunKeepsInv(enc, EMPTY_BACKEND, steps);
  }

  // ------------------------------------------------------------------ lookups after a registration

  ghost predicate OccursOnce(owners: seq<UserId>, u: UserId) {
    exists i :: 0 <= i < |owners| && owners[i] == u && forall j :: 0 <= j < |owners| && owners[j] == u ==> j == i
  }

  /** Whatever happens afterwards, both secrets of a completed registration are found, and its user
      has exactly one wallet, one HD wallet and one setting. */
  lemma {:induction false} RegisteredIsFound(enc: Encryption, before: seq<Step>, input: RegisterInput,
                                             words: seq<string>, later: seq<Step>)
    requires IsSealing(enc)
    requires Register(enc, Run(enc, EMPTY_BACKEND, before), input, words).reply.Registered?
    ensures var o := Register(enc, Run(enc, EMPTY_BACKEND, before), input, words);
            var c := Run(enc, o.after, later);
            && VerifyPrivateKey(enc, c, input.privateKey) != NotFound
            && (SeedOf(input).Some? ==> FindBySeedPhrase(enc, WithDataKey(c), SeedOf(input).value).Some?)
            && OccursOnce(WalletOwners(c), o.reply.userId)
            && OccursOnce(HdOwners(c), o.reply.userId)
            && OccursOnce(SettingOwners(c), o.reply.userId)
  {
    var b := Run(enc, EMPTY_BACKEND, before);
    ReachableStates(enc, before);
    RegisterEffect(enc, b, input, words);
    RegisterKeepsInv(enc, b, input, words);
    var o := Register(enc, b, input, words);
    RunKeepsInv(enc, o.after, later);
    var c := Run(enc, o.after, later);
    DataKeyKeepsInv(enc, c);
    var d := WithDataKey(c);
    assert Holds(enc, KeyColumn(d.wallets)[|b.wallets|], input.privateKey);
    LookupIff(enc, ActiveKey(d), KeyColumn(d.wallets), input.privateKey);
    if SeedOf(input).Some? {
      assert Holds(enc, SeedColumn(d.hdWallets)[|b.hdWallets|], SeedOf(input).value);
      LookupIff(enc, ActiveKey(d), SeedColumn(d.hdWallets), SeedOf(input).value);
    }
    OwnersOnce(c, |b.wallets|);
  }

  lemma OwnersOnce(c: Backend, i: nat)
    requires OwnersInv(c) && i < |c.wallets|
    ensures OccursOnce(WalletOwners(c), c.wallets[i].userId)
    ensures OccursOnce(HdOwners(c), c.wallets[i].userId)
    ensures OccursOnce(SettingOwners(c), c.wallets[i].userId)
  {
    assert WalletOwners(c)[i] == c.wallets[i].userId;
  }

  // ------------------------------------------------------------------ recovery

  lemma {:induction false} ValidHasSpace(s: string)
    requires IsValidPhrase(s)
    ensures !IsHex(s) && |s| > 0
  {
    SplitCounts(s);
    SpacesAmongHex(s);
  }

  lemma {:induction false} SpacesAmongHex(s: string)
    requires Spaces(s) > 0
    ensures !IsHex(s) && |s| > 0
  {
    if s[0] != ' ' {
      SpacesAmongHex(s[1..]);
    }
  }

  /** Twelve words registered in any spacing and typed later in any other recover that very user. */
  lemma {:induction false} SeedPhraseRecovers(enc: Encryption, before: seq<Step>, input: RegisterInput,
                                              names: seq<string>, later: seq<Step>, words: seq<string>, typed: string)
    requires IsSealing(enc) && |words| == 12
    requires input.seedPhrase.Some? && IsSpacingOf(input.seedPhrase.value, words) && IsSpacingOf(typed, words)
    requires Register(enc, Run(enc, EMPTY_BACKEND, before), input, names).reply.Registered?
    ensures var o := Register(enc, Run(enc, EMPTY_BACKEND, before), input, names);
            VerifySeedPhrase(enc, Run(enc, o.after, later), typed) == Recovered(o.reply.userId)
  {
    var b := Run(enc, EMPTY_BACKEND, before);
    assert Normalise(input.seedPhrase.value) == Normalise(typed) && IsValidPhrase(Normalise(typed)) by {
      SpacingRecovered(words, input.seedPhrase.value, typed);
    }
    ValidHasSpace(Normalise(typed));
    ReachableStates(enc, before);
    RegisteredId(enc, b, input, names);
    RegisteredSeedRecovers(enc, b, input, names, later, typed);
  }

  lemma RegisteredId(enc: Encryption, b: Backend, input: RegisterInput, names: seq<string>)
    requires Register(enc, b, input, names).reply.Registered?
    ensures Register(enc, b, input, names).reply.userId == |b.users|
  {
    CheckKeepsRows(enc, b, input, names);
  }

  lemma {:induction false} GivenIfNormal(s: string)
    requires |Normalise(s)| > 0
    ensures |s| > 0
  {
    CollapseShape(s);
  }

  lemma {:induction false} RegisteredSeedRecovers(enc: Encryption, b: Backend, input: RegisterInput, names: seq<string>,
                                                  later: seq<Step>, typed: string)
    requires IsSealing(enc) && Inv(enc, b)
    requires IsValidPhrase(Normalise(typed)) && |Normalise(typed)| > 0
    requires input.seedPhrase.Some? && Normalise(input.seedPhrase.value) == Normalise(typed)
    requires Register(enc, b, input, names).reply.Registered?
    ensures VerifySeedPhrase(enc, Run(enc, Register(enc, b, input, names).after, later), typed) == Recovered(|b.users|)
  {
    GivenIfNormal(input.seedPhrase.value);
    RegisteredSeedStands(enc, b, input, names);
    RegisterKeepsInv(enc, b, input, names);
    SeedRecovers(enc, Register(enc, b, input, names).after, later, |b.hdWallets|, typed, |b.users|);
  }

  /** The row was made from the phrase for that user, and no earlier one stores it. */
  ghost predicate SeedStands(enc: Encryption, hdWallets: seq<HdWalletRow>, id: nat, seed: string, userId: UserId) {
    && id < |hdWallets| && Holds(enc, hdWallets[id].seedPhrase, seed) && hdWallets[id].userId == userId
    && forall i :: 0 <= i < id ==> hdWallets[i].seedPhrase.text != Some(seed)
  }

  lemma {:induction false} RegisteredSeedStands(enc: Encryption, b: Backend, input: RegisterInput, names: seq<string>)
    requires IsSealing(enc) && Inv(enc, b) && IsGiven(SeedOf(input))
    requires Register(enc, b, input, names).reply.Registered?
    ensures SeedStands(enc, Register(enc, b, input, names).after.hdWallets, |b.hdWallets|, SeedOf(input).value,
                       |b.users|)
  {
    CheckedIsNew(enc, b, input, names);
    RegisterEffect(enc, b, input, names);
    SeedAtEnd(enc, b, Register(enc, b, input, names).after.hdWallets, SeedOf(input).value);
  }

  lemma {:induction false} SeedAtEnd(enc: Encryption, b: Backend, rows: seq<HdWalletRow>, seed: string)
    requires NoneMadeFrom(enc, SeedColumn(b.hdWallets), seed) && |seed| > 0
    requires b.hdWallets <= rows && |rows| == |b.hdWallets| + 1
    requires Holds(enc, rows[|b.hdWallets|].seedPhrase, seed) && rows[|b.hdWallets|].userId == |b.users|
    ensures SeedStands(enc, rows, |b.hdWallets|, seed, |b.users|)
  {
    assert forall i :: 0 <= i < |b.hdWallets| ==> rows[i].seedPhrase == SeedColumn(b.hdWallets)[i];
  }

  lemma {:induction false} SeedRecovers(enc: Encryption, c: Backend, later: seq<Step>, id: nat, typed: string,
                                        userId: UserId)
    requires IsSealing(enc) && Inv(enc, c) && IsValidPhrase(Normalise(typed)) && |Normalise(typed)| > 0
    requires SeedStands(enc, c.hdWallets, id, Normalise(typed), userId)
    ensures VerifySeedPhrase(enc, Run(enc, c, later), typed) == Recovered(userId)
  {
    RunKeepsInv(enc, c, later);
    SeedFound(enc, c, Run(enc, c, later), id, Normalise(typed));
  }

  lemma {:induction false} SeedFound(enc: Encryption, c: Backend, d: Backend, id: nat, seed: string)
    requires Inv(enc, d) && c.hdWallets <= d.hdWallets && id < |c.hdWallets| && |seed| > 0
    requires SeedStands(enc, c.hdWallets, id, seed, c.hdWallets[id].userId)
    ensures FindBySeedPhrase(enc, WithDataKey(d), seed) == Some(id)
  {
    DataKeyKeepsSecrets(enc, d);
    assert forall i :: 0 <= i <= id ==> SeedColumn(d.hdWallets)[i] == c.hdWallets[i].seedPhrase;
    LookupExact(enc, ActiveKey(WithDataKey(d)), SeedColumn(d.hdWallets), seed, id);
  }

  /** A registered non-empty private key recovers its user, whatever other rows spell. */
  lemma {:induction false} PrivateKeyRecovers(enc: Encryption, before: seq<Step>, input: RegisterInput,
                                              names: seq<string>, later: seq<Step>)
    requires IsSealing(enc) && |input.privateKey| > 0
    requires Register(enc, Run(enc, EMPTY_BACKEND, before), input, names).reply.Registered?
    ensures var o := Register(enc, Run(enc, EMPTY_BACKEND, before), input, names);
            VerifyPrivateKey(enc, Run(enc, o.after, later), input.privateKey) == Recovered(o.reply.userId)
  {
    var b := Run(enc, EMPTY_BACKEND, before);
    ReachableStates(enc, before);
    RegisteredKeyStands(enc, b, input, names);
    RegisterKeepsInv(enc, b, input, names);
    KeyRecovers(enc, Register(enc, b, input, names).after, later, |b.wallets|, input.privateKey, |b.users|);
  }

  /** The row was made from the key for that user, and no earlier one stores it. */
  ghost predicate KeyStands(enc: Encryption, wallets: seq<WalletRow>, id: nat, privateKey: string, userId: UserId) {
    && id < |wallets| && Holds(enc, wallets[id].privateKey, privateKey) && wallets[id].userId == userId
    && forall i :: 0 <= i < id ==> wallets[i].privateKey.text != Some(privateKey)
  }

  lemma {:induction false} RegisteredKeyStands(enc: Encryption, b: Backend, input: RegisterInput, names: seq<string>)
    requires IsSealing(enc) && Inv(enc, b) && |input.privateKey| > 0
    requires Register(enc, b, input, names).reply.Registered?
    ensures Register(enc, b, input, names).reply.userId == |b.users|
    ensures KeyStands(enc, Register(enc, b, input, names).after.wallets, |b.wallets|, input.privateKey, |b.users|)
  {
    CheckedIsNew(enc, b, input, names);
    RegisterEffect(enc, b, input, names);
    KeyAtEnd(enc, b, Register(enc, b, input, names).after.wallets, input.privateKey);
  }

  lemma {:induction false} KeyAtEnd(enc: Encryption, b: Backend, rows: seq<WalletRow>, privateKey: string)
    requires NoneMadeFrom(enc, KeyColumn(b.wallets), privateKey) && |privateKey| > 0
    requires b.wallets <= rows && |rows| == |b.wallets| + 1
    requires Holds(enc, rows[|b.wallets|].privateKey, privateKey) && rows[|b.wallets|].userId == |b.users|
    ensures KeyStands(enc, rows, |b.wallets|, privateKey, |b.users|)
  {
    assert forall i :: 0 <= i < |b.wallets| ==> rows[i].privateKey == KeyColumn(b.wallets)[i];
  }

  lemma {:induction false} KeyRecovers(enc: Encryption, c: Backend, later: seq<Step>, id: nat, privateKey: string,
                                       userId: UserId)
    requires IsSealing(enc) && Inv(enc, c) && |privateKey| > 0 && KeyStands(enc, c.wallets, id, privateKey, userId)
    ensures VerifyPrivateKey(enc, Run(enc, c, later), privateKey) == Recovered(userId)
  {
    RunKeepsInv(enc, c, later);
    KeyFound(enc, c, Run(enc, c, later), id, privateKey);
  }

  lemma {:induction false} KeyFound(enc: Encryption, c: Backend, d: Backend, id: nat, privateKey: string)
    requires Inv(enc, d) && c.wallets <= d.wallets && id < |c.wallets| && |privateKey| > 0
    requires KeyStands(enc, c.wallets, id, privateKey, c.wallets[id].userId)
    ensures FindByPrivateKey(enc, WithDataKey(d), privateKey) == Some(id)
  {
    DataKeyKeepsSecrets(enc, d);
    assert forall i :: 0 <= i <= id ==> KeyColumn(d.wallets)[i] == c.wallets[i].privateKey;
    LookupExact(enc, ActiveKey(WithDataKey(d)), KeyColumn(d.wallets), privateKey, id);
  }

  // ------------------------------------------------------------------ where it falls short

  /** A completed registration reuses the private key of an existing wallet only when that is empty. */
  lemma SharedKeyIsEmpty(enc: Encryption, b: Backend, input: RegisterInput, words: seq<string>, id: nat)
    requires IsSealing(enc) && Inv(enc, b)
    requires id < |b.wallets| && Holds(enc, b.wallets[id].privateKey, input.privateKey)
    requires Register(enc, b, input, words).reply.Registered?
    ensures |input.privateKey| == 0
  {
    CheckKeepsRows(enc, b, input, words);
    CheckedIsNew(enc, b, input, words);
    assert KeyColumn(b.wallets)[id] == b.wallets[id].privateKey;
  }

  /** A request with an empty private key and no phrase, or an empty one. */
  function EmptyInput(address: string, phrase: Option<string>): RegisterInput {
    RegisterInput("p", "p", None, phrase, "", address, 0)
  }

  /** The rows that such a request adds. */
  function WithEmptyRows(b: Backend, address: string, phrase: Option<string>, name: string): Backend {
    var u := |b.users|;
    b.(users := b.users + [UserRow(name, None)],
       hdWallets := b.hdWallets + [HdWalletRow(u, Sealed(phrase, None), false, 0)],
       wallets := b.wallets + [WalletRow(u, |b.hdWallets|, address, Sealed(Some(""), None), 0)],
       settings := b.settings + [SettingRow(u, |b.wallets|, 0)])
  }

  lemma EmptyChecked(enc: Encryption, b: Backend, address: string, phrase: Option<string>, name: string)
    requires phrase.None? || phrase == Some("")
    requires !HasAddress(b, address) && !UsernameExists(b.users, name)
    ensures FreshUsername(b.users, [name]) == Some(name)
    ensures CheckNew(enc, b, EmptyInput(address, phrase), [name]) == Outcome(b, Registered(|b.users|))
  {
  }

  lemma EmptyInserted(enc: Encryption, b: Backend, address: string, phrase: Option<string>, name: string)
    requires (phrase.None? || phrase == Some("")) && !b.kmsEnabled && !SeedStored(b, phrase)
    requires forall s :: s in b.settings ==> s.userId != |b.users|
    ensures InsertAll(enc, b, EmptyInput(address, phrase), name).after == WithEmptyRows(b, address, phrase, name)
  {
  }

  lemma EmptyRegistered(enc: Encryption, b: Backend, address: string, phrase: Option<string>, name: string)
    requires (phrase.None? || phrase == Some("")) && !b.kmsEnabled && !SeedStored(b, phrase)
    requires !HasAddress(b, address) && !UsernameExists(b.users, name)
    requires forall s :: s in b.settings ==> s.userId != |b.users|
    ensures Register(enc, b, EmptyInput(address, phrase), [name]).after == WithEmptyRows(b, address, phrase, name)
  {
    EmptyChecked(enc, b, address, phrase, name);
    EmptyInserted(enc, b, address, phrase, name);
  }

  function FirstOf(phrase: Option<string>): Backend {
    WithEmptyRows(EMPTY_BACKEND, "0xa", phrase, "u")
  }

  lemma SecondIsNew(phrase: Option<string>)
    ensures !HasAddress(FirstOf(phrase), "0xb") && !UsernameExists(FirstOf(phrase).users, "v")
  {
    assert Lower("0xa")[2] == 'a' && Lower("0xb")[2] == 'b';
    assert "u"[0] != "v"[0];
  }

  lemma {:induction false} RunOfTwo(enc: Encryption, b: Backend, s: Step, t: Step)
    ensures Run(enc, b, [s, t]) == Next(enc, Next(enc, b, s), t)
  {
    assert [s, t][1..] == [t] && [t][1..] == [];
    assert Run(enc, Next(enc, b, s), [t]) == Run(enc, Next(enc, Next(enc, b, s), t), []);
  }

  /** And then it does share it: the check is skipped for an empty key. */
  lemma {:induction false} EmptyKeyShared(enc: Encryption)
    ensures var b := Run(enc, EMPTY_BACKEND,
                         [RegisterUser(EmptyInput("0xa", None), ["u"]), RegisterUser(EmptyInput("0xb", None), ["v"])]);
            && |b.wallets| == 2
            && Holds(enc, b.wallets[0].privateKey, "") && Holds(enc, b.wallets[1].privateKey, "")
  {
    EmptyRegistered(enc, EMPTY_BACKEND, "0xa", None, "u");
    SecondIsNew(None);
    EmptyRegistered(enc, FirstOf(None), "0xb", None, "v");
    RunOfTwo(enc, EMPTY_BACKEND, RegisterUser(EmptyInput("0xa", None), ["u"]),
             RegisterUser(EmptyInput("0xb", None), ["v"]));
  }

  /** After one registration with an empty phrase, a second one passes its checks and leaves a user without
      wallets. */
  lemma {:induction false} EmptyPhraseLeavesPartialUser(enc: Encryption)
    ensures var b := Run(enc, EMPTY_BACKEND, [RegisterUser(EmptyInput("0xa", Some("")), ["u"])]);
            && CheckNew(enc, b, EmptyInput("0xb", Some("")), ["v"]).reply == Registered(1)
            && Register(enc, b, EmptyInput("0xb", Some("")), ["v"]).reply == Refused(SeedPhraseTaken)
            && |Register(enc, b, EmptyInput("0xb", Some("")), ["v"]).after.users| == 2
            && |Register(enc, b, EmptyInput("0xb", Some("")), ["v"]).after.wallets| == 1
  {
    var b := FirstOf(Some(""));
    EmptyRegistered(enc, EMPTY_BACKEND, "0xa", Some(""), "u");
    RunOfOne(enc, EMPTY_BACKEND, RegisterUser(EmptyInput("0xa", Some("")), ["u"]));
    SecondIsNew(Some(""));
    EmptyChecked(enc, b, "0xb", Some(""), "v");
    EmptyRefused(enc, b, "0xb", "v", 0);
  }

  lemma {:induction false} RunOfOne(enc: Encryption, b: Backend, s: Step)
    ensures Run(enc, b, [s]) == Next(enc, b, s)
  {
    assert Run(enc, Next(enc, b, s), [s][1..]) == Next(enc, b, s);
  }

  lemma EmptyRefused(enc: Encryption, b: Backend, address: string, name: string, id: nat)
    requires !b.kmsEnabled && id < |b.hdWallets| && b.hdWallets[id].seedPhrase.text == Some("")
    ensures InsertAll(enc, b, EmptyInput(address, Some("")), name) ==
            Outcome(b.(users := b.users + [UserRow(name, None)]), Refused(SeedPhraseTaken))
  {
    assert b.hdWallets[id] in b.hdWallets;
  }

  lemma SeedRefusedIffStored(enc: Encryption, b: Backend, input: RegisterInput, words: seq<string>)
    requires CheckNew(enc, b, input, words).reply.Registered?
    ensures Register(enc, b, input, words).reply == Refused(SeedPhraseTaken) <==>
            SeedStored(b, SealedSeed(enc, WithDataKey(b), SeedOf(input)).text)
  {
    CheckKeepsRows(enc, b, input, words);
    var checked := CheckNew(enc, b, input, words).after;
    var c := WithDataKey(InsertUser(checked, input, FreshUsername(checked.users, words).value));
    assert c.hdWallets == b.hdWallets && ActiveKey(c) == ActiveKey(WithDataKey(b));
  }

  /** No row stores a non-empty phrase that passed the checks, or the empty one that blanks come to. */
  lemma CheckedSeedNotStored(enc: Encryption, b: Backend, input: RegisterInput, words: seq<string>)
    requires Inv(enc, b) && CheckNew(enc, b, input, words).reply.Registered? && IsGiven(input.seedPhrase)
    ensures !SeedStored(b, SeedOf(input))
  {
    CheckedLookups(enc, b, input, words);
    NotFoundNotStored(enc, b, SeedOf(input).value);
  }

  lemma NotFoundNotStored(enc: Encryption, b: Backend, seed: string)
    requires SecretsInv(enc, b) && FindBySeedPhrase(enc, WithDataKey(b), seed).None?
    ensures !SeedStored(b, Some(seed))
  {
    DataKeyKeepsSecrets(enc, b);
    LookupIff(enc, ActiveKey(WithDataKey(b)), SeedColumn(b.hdWallets), seed);
    forall h | h in b.hdWallets ensures h.seedPhrase.text != Some(seed) {
      var i :| 0 <= i < |b.hdWallets| && b.hdWallets[i] == h;
      assert SeedColumn(b.hdWallets)[i] == h.seedPhrase;
    }
  }

  /** A registration that passes every check still leaves a user without wallets exactly when its
      phrase is the empty string and that is stored already, or when an earlier unencrypted phrase
      spells the ciphertext of this one. */
  lemma PartialUserIff(enc: Encryption, b: Backend, input: RegisterInput, words: seq<string>)
    requires Inv(enc, b) && CheckNew(enc, b, input, words).reply.Registered?
    ensures var key := ActiveKey(WithDataKey(b));
            Register(enc, b, input, words).reply == Refused(SeedPhraseTaken) <==>
              || (input.seedPhrase == Some("") && SeedStored(b, Some("")))
              || (IsGiven(SeedOf(input)) && key.Some? && SeedStored(b, Some(enc(key.value, SeedOf(input).value))))
  {
    SeedRefusedIffStored(enc, b, input, words);
    if IsGiven(input.seedPhrase) {
      CheckedSeedNotStored(enc, b, input, words);
    }
  }
}
