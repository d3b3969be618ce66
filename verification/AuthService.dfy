/** The registration and recovery services over mutable tables; each method ends in the state that
    the transition of the same request gives. */
module AuthService {
  import opened Wrappers
  import opened Strings
  import opened SeedPhrases
  import opened SealedColumns
  import opened Registration
  import opened RegistrationProofs

  /** What a registration means for its caller: different passwords change nothing, and in any reachable state
      the answer follows the order of the checks, success adds the linked rows with their secrets stored and
      a key that recovers the user at once, and a refusal leaves at most a bare user. */
  ghost predicate RegisterMeans(enc: Encryption, b: Backend, o: Outcome, input: RegisterInput, words: seq<string>) {
    && Grows(b, o.after)
    && (o.reply == Refused(PasswordMismatch) <==> input.password != input.confirmPassword)
    && (o.reply == Refused(PasswordMismatch) ==> o.after == b)
    && (Inv(enc, b) ==> RegisterAnswers(enc, b, input, words, o.reply))
    && (Inv(enc, b) && o.reply.Registered? ==> StoredRows(enc, b, o.after, input, words))
    && (IsSealing(enc) && Inv(enc, b) ==> Inv(enc, o.after) && RegisterLeaves(enc, b, o, input))
  }

  ghost predicate RegisterLeaves(enc: Encryption, b: Backend, o: Outcome, input: RegisterInput) {
    match o.reply
    case Registered(userId) =>
      && userId == |b.users| && Added(enc, b, o.after, input)
      && (input.privateKey != "" ==> VerifyPrivateKey(enc, o.after, input.privateKey) == Recovered(userId))
    case Refused(reason) => LeftByRefusal(b, o.after, reason)
  }

  lemma {:induction false} RegisterGrows(enc: Encryption, b: Backend, input: RegisterInput, words: seq<string>)
    ensures Grows(b, Registration.Register(enc, b, input, words).after)
  {
    CheckKeepsRows(enc, b, input, words);
    DataKeyKeepsRows(b);
  }

  lemma {:induction false} MismatchIff(enc: Encryption, b: Backend, input: RegisterInput, words: seq<string>)
    ensures var o := Registration.Register(enc, b, input, words);
            && (o.reply == Refused(PasswordMismatch) <==> input.password != input.confirmPassword)
            && (o.reply == Refused(PasswordMismatch) ==> o.after == b)
  {
    CheckReply(enc, b, input, words);
  }

  lemma {:induction false} RegisterIsLeft(enc: Encryption, b: Backend, input: RegisterInput, words: seq<string>)
    requires IsSealing(enc) && Inv(enc, b)
    ensures RegisterLeaves(enc, b, Registration.Register(enc, b, input, words), input)
  {
    RegisterEffect(enc, b, input, words);
    if Registration.Register(enc, b, input, words).reply.Registered? && |input.privateKey| > 0 {
      RecoversAtOnce(enc, b, input, words);
    }
  }

  lemma {:induction false} RegisterForCaller(enc: Encryption, b: Backend, input: RegisterInput, words: seq<string>)
    ensures RegisterMeans(enc, b, Registration.Register(enc, b, input, words), input, words)
  {
    RegisterGrows(enc, b, input, words);
    MismatchIff(enc, b, input, words);
    if Inv(enc, b) {
      RegisterIsAnswered(enc, b, input, words);
      if Registration.Register(enc, b, input, words).reply.Registered? {
        RegisterStores(enc, b, input, words);
      }
      if IsSealing(enc) {
        RegisterKeepsInv(enc, b, input, words);
        RegisterIsLeft(enc, b, input, words);
      }
    }
  }

  lemma {:induction false} RecoversAtOnce(enc: Encryption, b: Backend, input: RegisterInput, words: seq<string>)
    requires IsSealing(enc) && Inv(enc, b) && |input.privateKey| > 0
    requires Registration.Register(enc, b, input, words).reply.Registered?
    ensures VerifyPrivateKey(enc, Registration.Register(enc, b, input, words).after, input.privateKey) ==
            Recovered(|b.users|)
  {
    RegisteredKeyStands(enc, b, input, words);
    RegisterKeepsInv(enc, b, input, words);
    KeyRecovers(enc, Registration.Register(enc, b, input, words).after, [], |b.wallets|, input.privateKey, |b.users|);
  }

  /** In any reachable state a recovery fails exactly when no row has the secret. */
  lemma {:induction false} RecoveryForCaller(enc: Encryption, b: Backend)
    ensures Inv(enc, b) ==> Inv(enc, WithDataKey(b))
    ensures forall text :: Inv(enc, b) ==>
              (FindByPrivateKey(enc, WithDataKey(b), text).None? <==> NoneStored(enc, KeyColumn(b.wallets), text))
    ensures forall text :: Inv(enc, b) ==>
              (FindBySeedPhrase(enc, WithDataKey(b), text).None? <==> NoneStored(enc, SeedColumn(b.hdWallets), text))
  {
    if Inv(enc, b) {
      DataKeyKeepsInv(enc, b);
      forall text
        ensures FindByPrivateKey(enc, WithDataKey(b), text).None? <==> NoneStored(enc, KeyColumn(b.wallets), text)
      {
        LookupIff(enc, ActiveKey(WithDataKey(b)), KeyColumn(b.wallets), text);
      }
      forall text
        ensures FindBySeedPhrase(enc, WithDataKey(b), text).None? <==> NoneStored(enc, SeedColumn(b.hdWallets), text)
      {
        LookupIff(enc, ActiveKey(WithDataKey(b)), SeedColumn(b.hdWallets), text);
      }
    }
  }

  class AuthBackend {
    var users: seq<UserRow>
    var hdWallets: seq<HdWalletRow>
    var wallets: seq<WalletRow>
    var settings: seq<SettingRow>
    var dataKeys: nat
    var kmsEnabled: bool
    var hasMasterKey: bool

    function Snapshot(): Backend
      reads this
    {
      Backend(users, hdWallets, wallets, settings, dataKeys, kmsEnabled, hasMasterKey)
    }

    /** Called with encryption off it makes a key all the same. */
    method GenerateOrGetDataKey() returns (key: Option<KeyId>)
      modifies this`dataKeys
      ensures dataKeys == if old(dataKeys) == 0 && hasMasterKey then 1 else old(dataKeys)
      ensures key == if dataKeys > 0 then Some(0) else None
      ensures kmsEnabled ==> Snapshot() == WithDataKey(old(Snapshot())) && key == ActiveKey(Snapshot())
    {
      if dataKeys > 0 {
        return Some(0);
      }
      if !hasMasterKey {
        return None;
      }
      dataKeys := dataKeys + 1;
      return Some(dataKeys - 1);
    }

    method FindUserHdWalletBySeedPhrase(enc: Encryption, seedPhrase: string) returns (found: Option<nat>)
      modifies this`dataKeys
      ensures Snapshot() == WithDataKey(old(Snapshot()))
      ensures found == FindBySeedPhrase(enc, Snapshot(), seedPhrase)
    {
      if kmsEnabled {
        var key := GenerateOrGetDataKey();
        if key.Some? {
          var encrypted := FindText(SeedColumn(hdWallets), enc(key.value, seedPhrase), key);
          var normal := FindText(SeedColumn(hdWallets), seedPhrase, None);
          return if encrypted.Some? then encrypted else normal;
        }
      }
      found := FindText(SeedColumn(hdWallets), seedPhrase, None);
    }

    method FindUserWalletByPrivateKey(enc: Encryption, privateKey: string) returns (found: Option<nat>)
      modifies this`dataKeys
      ensures Snapshot() == WithDataKey(old(Snapshot()))
      ensures found == FindByPrivateKey(enc, Snapshot(), privateKey)
    {
      if kmsEnabled {
        var key := GenerateOrGetDataKey();
        if key.Some? {
          var encrypted := FindText(KeyColumn(wallets), enc(key.value, privateKey), key);
          var normal := FindText(KeyColumn(wallets), privateKey, None);
          return if encrypted.Some? then encrypted else normal;
        }
      }
      found := FindText(KeyColumn(wallets), privateKey, None);
    }

    /** Draws names until one is free; `words` are the names the generator yields, in order. */
    method GenerateUniqueUsername(words: seq<string>) returns (username: Option<string>)
      ensures username == FreshUsername(users, words)
      ensures username.Some? ==> !UsernameExists(users, username.value)
    {
      var i := 0;
      while i < |words|
        invariant 0 <= i <= |words|
        invariant FreshUsername(users, words) == FreshUsername(users, words[i..])
      {
        if !UsernameExists(users, words[i]) {
          return Some(words[i]);
        }
        i := i + 1;
      }
      return None;
    }

    method CreateHdWallet(enc: Encryption, userId: UserId, input: RegisterInput, seedPhrase: Option<string>)
      returns (id: Option<nat>)
      requires seedPhrase == SeedOf(input)
      modifies this`dataKeys, this`hdWallets
      ensures var after := InsertHdWallet(enc, old(Snapshot()), userId, input);
              && id == (if after.Some? then Some(|old(hdWallets)|) else None)
              && Snapshot() == if after.Some? then after.value else WithDataKey(old(Snapshot()))
    {
      var stored, keyId := seedPhrase, None;
      if kmsEnabled {
        var key := GenerateOrGetDataKey();
        if key.Some? && IsGiven(stored) {
          stored := Some(enc(key.value, stored.value));
          keyId := key;
        }
      }
      if SeedStored(Snapshot(), stored) {
        return None;
      }
      id := Some(|hdWallets|);
      hdWallets := hdWallets + [HdWalletRow(userId, Sealed(stored, keyId), IsGiven(seedPhrase), input.networkId)];
    }

    method CreateUserWallet(enc: Encryption, userId: UserId, hdWalletId: nat, input: RegisterInput) returns (id: nat)
      modifies this`dataKeys, this`wallets
      ensures Snapshot() == InsertWallet(enc, old(Snapshot()), userId, hdWalletId, input)
      ensures id == |old(wallets)|
    {
      var stored, keyId := input.privateKey, None;
      if kmsEnabled {
        var key := GenerateOrGetDataKey();
        if key.Some? {
          stored := enc(key.value, stored);
          keyId := key;
        }
      }
      id := |wallets|;
      wallets := wallets +
        [WalletRow(userId, hdWalletId, input.walletAddress, Sealed(Some(stored), keyId), input.networkId)];
    }

    method CreateDefaultSetting(userId: UserId, walletId: nat, networkId: NetworkId)
      modifies this`settings
      ensures Snapshot() == InsertSetting(old(Snapshot()), userId, walletId, networkId)
      ensures settings == old(settings) +
                if exists i :: 0 <= i < |old(settings)| && old(settings)[i].userId == userId then []
                else [SettingRow(userId, walletId, networkId)]
    {
      if !exists s | s in settings :: s.userId == userId {
        settings := settings + [SettingRow(userId, walletId, networkId)];
      }
    }

    /** The checks of `register`; the seed phrase is rewritten to its normal form before it is looked up. */
    method CheckInput(enc: Encryption, input: RegisterInput, words: seq<string>)
      returns (refusal: Option<Refusal>, seedPhrase: Option<string>, username: string)
      modifies this`dataKeys
      ensures CheckNew(enc, old(Snapshot()), input, words) ==
              Outcome(Snapshot(), if refusal.Some? then Refused(refusal.value) else Registered(|users|))
      ensures refusal.None? ==> seedPhrase == SeedOf(input) && FreshUsername(users, words) == Some(username)
    {
      seedPhrase, username := input.seedPhrase, "";
      if input.password != input.confirmPassword {
        return Some(PasswordMismatch), seedPhrase, username;
      }
      if IsGiven(seedPhrase) {
        seedPhrase := Some(Normalise(seedPhrase.value));
        var existing := FindUserHdWalletBySeedPhrase(enc, seedPhrase.value);
        if existing.Some? {
          return Some(HdWalletExists), seedPhrase, username;
        }
      }
      if |input.privateKey| > 0 {
        var existing := FindUserWalletByPrivateKey(enc, input.privateKey);
        if existing.Some? {
          return Some(WalletExists), seedPhrase, username;
        }
      }
      if HasAddress(Snapshot(), input.walletAddress) {
        return Some(AddressExists), seedPhrase, username;
      }
      var free := GenerateUniqueUsername(words);
      if free.None? {
        return Some(NoFreshUsername), seedPhrase, username;
      }
      if EmailExists(Snapshot(), input.email) {
        return Some(EmailTaken), seedPhrase, username;
      }
      return None, seedPhrase, free.value;
    }

    /** `register`. */
    method Register(enc: Encryption, input: RegisterInput, words: seq<string>) returns (reply: Reply)
      modifies this
      ensures Outcome(Snapshot(), reply) == Registration.Register(enc, old(Snapshot()), input, words)
      ensures RegisterMeans(enc, old(Snapshot()), Outcome(Snapshot(), reply), input, words)
    {
      RegisterForCaller(enc, Snapshot(), input, words);
      var refusal, seedPhrase, username := CheckInput(enc, input, words);
      if refusal.Some? {
        return Refused(refusal.value);
      }
      reply := InsertRows(enc, input, seedPhrase, username);
    }

    method InsertRows(enc: Encryption, input: RegisterInput, seedPhrase: Option<string>, username: string)
      returns (reply: Reply)
      requires seedPhrase == SeedOf(input)
      modifies this
      ensures Outcome(Snapshot(), reply) == InsertAll(enc, old(Snapshot()), input, username)
    {
      var userId := |users|;
      users := users + [UserRow(username, input.email)];
      var hdWalletId := CreateHdWallet(enc, userId, input, seedPhrase);
      if hdWalletId.None? {
        return Refused(SeedPhraseTaken);
      }
      var walletId := CreateUserWallet(enc, userId, hdWalletId.value, input);
      CreateDefaultSetting(userId, walletId, input.networkId);
      return Registered(userId);
    }

    method RecoverPrivateKey(enc: Encryption, privateKey: string) returns (r: Recovery)
      modifies this`dataKeys
      ensures old(Inv(enc, Snapshot())) ==> Inv(enc, Snapshot())
      ensures old(Inv(enc, Snapshot())) ==> (r == NotFound <==> NoneStored(enc, KeyColumn(wallets), privateKey))
      ensures r == VerifyPrivateKey(enc, old(Snapshot()), privateKey)
      ensures Snapshot() == Next(enc, old(Snapshot()), Step.RecoverByPrivateKey(privateKey))
    {
      RecoveryForCaller(enc, Snapshot());
      var wallet := FindUserWalletByPrivateKey(enc, privateKey);
      if wallet.None? {
        return NotFound;
      }
      return Recovered(wallets[wallet.value].userId);
    }

    method RecoverSeedPhrase(enc: Encryption, seedPhrase: string) returns (r: Recovery)
      modifies this`dataKeys
      ensures old(Inv(enc, Snapshot())) ==> Inv(enc, Snapshot())
      ensures r == InvalidPhrase <==> !IsValidPhrase(Normalise(seedPhrase))
      ensures old(Inv(enc, Snapshot())) ==>
                (r == NotFound <==>
                 IsValidPhrase(Normalise(seedPhrase)) && NoneStored(enc, SeedColumn(hdWallets), Normalise(seedPhrase)))
      ensures r == VerifySeedPhrase(enc, old(Snapshot()), seedPhrase)
      ensures Snapshot() == Next(enc, old(Snapshot()), Step.RecoverBySeedPhrase(seedPhrase))
    {
      RecoveryForCaller(enc, Snapshot());
      if !IsValidPhrase(Normalise(seedPhrase)) {
        return InvalidPhrase;
      }
      var hdWallet := FindUserHdWalletBySeedPhrase(enc, Normalise(seedPhrase));
      if hdWallet.None? {
        return NotFound;
      }
      return Recovered(hdWallets[hdWallet.value].userId);
    }
  }
}
