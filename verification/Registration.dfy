/** Registration and recovery: the user tables and every request on them as a transition. A row's id
    is its position in its table. */
module Registration {
  import opened Wrappers
  import opened Strings
  import opened SeedPhrases
  import opened SealedColumns

  type UserId = nat
  type NetworkId = nat

  datatype UserRow = UserRow(username: string, email: Option<string>)
  datatype HdWalletRow = HdWalletRow(userId: UserId, seedPhrase: Sealed, isHD: bool, networkId: NetworkId)
  datatype WalletRow = WalletRow(userId: UserId, hdWalletId: nat, address: string, privateKey: Sealed,
                                 networkId: NetworkId)
  datatype SettingRow = SettingRow(userId: UserId, walletId: nat, networkId: NetworkId)

  datatype Backend = Backend(
    users: seq<UserRow>,
    hdWallets: seq<HdWalletRow>,
    wallets: seq<WalletRow>,
    settings: seq<SettingRow>,
    dataKeys: nat,
    kmsEnabled: bool,
    hasMasterKey: bool)

  const EMPTY_BACKEND := Backend([], [], [], [], 0, false, false)

  datatype RegisterInput = RegisterInput(
    password: string,
    confirmPassword: string,
    email: Option<string>,
    seedPhrase: Option<string>,
    privateKey: string,
    walletAddress: string,
    networkId: NetworkId)

  datatype Refusal =
    | PasswordMismatch | HdWalletExists | WalletExists | AddressExists | NoFreshUsername | EmailTaken | SeedPhraseTaken
  datatype Reply = Registered(userId: UserId) | Refused(reason: Refusal)
  datatype Outcome = Outcome(after: Backend, reply: Reply)

  // ------------------------------------------------------------------ keys and lookups

  /** `generateOrGetDataKey`: the oldest enabled data key, created on first use if there is a master key. */
  function WithDataKey(b: Backend): Backend {
    if b.kmsEnabled && b.dataKeys == 0 && b.hasMasterKey then b.(dataKeys := 1) else b
  }

  function ActiveKey(b: Backend): Option<KeyId> {
    if b.kmsEnabled && b.dataKeys > 0 then Some(0) else None
  }

  function SeedColumn(rows: seq<HdWalletRow>): (r: seq<Sealed>)
    ensures |r| == |rows| && forall i :: 0 <= i < |r| ==> r[i] == rows[i].seedPhrase
  {
    seq(|rows|, i requires 0 <= i < |rows| => rows[i].seedPhrase)
  }

  function KeyColumn(rows: seq<WalletRow>): (r: seq<Sealed>)
    ensures |r| == |rows| && forall i :: 0 <= i < |r| ==> r[i] == rows[i].privateKey
  {
    seq(|rows|, i requires 0 <= i < |rows| => rows[i].privateKey)
  }

  /** `findUserHdWalletBySeedPhrase`, after the data key has been made sure of. */
  function FindBySeedPhrase(enc: Encryption, b: Backend, seed: string): (r: Option<nat>)
    ensures r.Some? ==> r.value < |b.hdWallets|
  {
    Lookup(enc, ActiveKey(b), SeedColumn(b.hdWallets), seed)
  }

  /** `findUserWalletByPrivateKey`, after the data key has been made sure of. */
  function FindByPrivateKey(enc: Encryption, b: Backend, privateKey: string): (r: Option<nat>)
    ensures r.Some? ==> r.value < |b.wallets|
  {
    Lookup(enc, ActiveKey(b), KeyColumn(b.wallets), privateKey)
  }

  predicate SameAddress(a: string, b: string) {
    Lower(a) == Lower(b)
  }

  /** `checkAddress`. */
  predicate HasAddress(b: Backend, address: string) {
    exists w | w in b.wallets :: SameAddress(w.address, address)
  }

  predicate UsernameExists(users: seq<UserRow>, username: string) {
    exists u | u in users :: u.username == username
  }

  predicate EmailExists(b: Backend, email: Option<string>) {
    email.Some? && exists u | u in b.users :: u.email == email
  }

  /** The first of the generated words that no user has; the source draws until there is one. */
  function FreshUsername(users: seq<UserRow>, words: seq<string>): (r: Option<string>)
    ensures r.Some? ==> r.value in words && !UsernameExists(users, r.value)
    ensures r.None? ==> forall w :: w in words ==> UsernameExists(users, w)
  {
    if |words| == 0 then None
    else if !UsernameExists(users, words[0]) then Some(words[0])
    else FreshUsername(users, words[1..])
  }

  // ------------------------------------------------------------------ registration

  /** A truthy string property. */
  predicate IsGiven(s: Option<string>) {
    s.Some? && |s.value| > 0
  }

  /** The seed phrase that `register` works with from its first check on. */
  function SeedOf(input: RegisterInput): Option<string> {
    if IsGiven(input.seedPhrase) then Some(Normalise(input.seedPhrase.value)) else input.seedPhrase
  }

  /** What `createHdWallet` stores: only a non-empty phrase is encrypted. */
  function SealedSeed(enc: Encryption, b: Backend, seed: Option<string>): Sealed {
    if IsGiven(seed) then Seal(enc, ActiveKey(b), seed.value) else Sealed(seed, None)
  }

  /** The unique index on the seed phrase column; null is never a duplicate. */
  predicate SeedStored(b: Backend, text: Option<string>) {
    text.Some? && exists h | h in b.hdWallets :: h.seedPhrase.text == text
  }

  /** The checks that come before the first insertion. */
  function CheckNew(enc: Encryption, b: Backend, input: RegisterInput, words: seq<string>): (r: Outcome)
    ensures r.reply.Registered? ==> FreshUsername(r.after.users, words).Some?
    ensures r.reply != Refused(SeedPhraseTaken)
  {
    var b1 := if IsGiven(input.seedPhrase) then WithDataKey(b) else b;
    if input.password != input.confirmPassword then Outcome(b, Refused(PasswordMismatch))
    else if IsGiven(input.seedPhrase) && FindBySeedPhrase(enc, b1, SeedOf(input).value).Some? then
      Outcome(b1, Refused(HdWalletExists))
    else
      var b2 := if |input.privateKey| > 0 then WithDataKey(b1) else b1;
      if |input.privateKey| > 0 && FindByPrivateKey(enc, b2, input.privateKey).Some? then
        Outcome(b2, Refused(WalletExists))
      else if HasAddress(b2, input.walletAddress) then Outcome(b2, Refused(AddressExists))
      else if FreshUsername(b2.users, words).None? then Outcome(b2, Refused(NoFreshUsername))
      else if EmailExists(b2, input.email) then Outcome(b2, Refused(EmailTaken))
      else Outcome(b2, Registered(|b2.users|))
  }

  function InsertUser(b: Backend, input: RegisterInput, username: string): Backend {
    b.(users := b.users + [UserRow(username, input.email)])
  }

  /** `createHdWallet`; it fails on a seed phrase that the column already stores. */
  function InsertHdWallet(enc: Encryption, b: Backend, userId: UserId, input: RegisterInput): Option<Backend> {
    var b1 := WithDataKey(b);
    var sealed := SealedSeed(enc, b1, SeedOf(input));
    if SeedStored(b1, sealed.text) then None
    else Some(b1.(hdWallets := b1.hdWallets + [HdWalletRow(userId, sealed, IsGiven(SeedOf(input)), input.networkId)]))
  }

  /** `createUserWallet`. */
  function InsertWallet(enc: Encryption, b: Backend, userId: UserId, hdWalletId: nat, input: RegisterInput): Backend {
    var b1 := WithDataKey(b);
    b1.(wallets := b1.wallets +
      [WalletRow(userId, hdWalletId, input.walletAddress, Seal(enc, ActiveKey(b1), input.privateKey), input.networkId)])
  }

  /** `createDefaultSetting`. */
  function InsertSetting(b: Backend, userId: UserId, walletId: nat, networkId: NetworkId): Backend {
    if exists s | s in b.settings :: s.userId == userId then b
    else b.(settings := b.settings + [SettingRow(userId, walletId, networkId)])
  }

  /** The insertions are no transaction: a user stays when its HD wallet is refused. */
  function InsertAll(enc: Encryption, b: Backend, input: RegisterInput, username: string): Outcome {
    var userId := |b.users|;
    var b1 := InsertUser(b, input, username);
    var b2 := InsertHdWallet(enc, b1, userId, input);
    if b2.None? then Outcome(WithDataKey(b1), Refused(SeedPhraseTaken))
    else
      var b3 := InsertWallet(enc, b2.value, userId, |b.hdWallets|, input);
      Outcome(InsertSetting(b3, userId, |b.wallets|, input.networkId), Registered(userId))
  }

  /** `register`. */
  function Register(enc: Encryption, b: Backend, input: RegisterInput, words: seq<string>): Outcome {
    var checked := CheckNew(enc, b, input, words);
    if checked.reply.Refused? then checked
    else InsertAll(enc, checked.after, input, FreshUsername(checked.after.users, words).value)
  }

  // ------------------------------------------------------------------ recovery

  datatype Recovery = InvalidPhrase | NotFound | Recovered(userId: UserId)

  function VerifyPrivateKey(enc: Encryption, b: Backend, privateKey: string): Recovery {
    var found := FindByPrivateKey(enc, WithDataKey(b), privateKey);
    if found.None? then NotFound else Recovered(b.wallets[found.value].userId)
  }

  function VerifySeedPhrase(enc: Encryption, b: Backend, seedPhrase: string): Recovery {
    if !IsValidPhrase(Normalise(seedPhrase)) then InvalidPhrase
    else
      var found := FindBySeedPhrase(enc, WithDataKey(b), Normalise(seedPhrase));
      if found.None? then NotFound else Recovered(b.hdWallets[found.value].userId)
  }

  // ------------------------------------------------------------------ runs

  /** A request, or an operator turning encryption on or providing the master key. */
  datatype Step =
    | RegisterUser(input: RegisterInput, words: seq<string>)
    | RecoverByPrivateKey(privateKey: string)
    | RecoverBySeedPhrase(seedPhrase: string)
    | EnableKms
    | AddMasterKey

  function Next(enc: Encryption, b: Backend, s: Step): Backend {
    match s
    case RegisterUser(input, words) => Register(enc, b, input, words).after
    case RecoverByPrivateKey(_) => WithDataKey(b)
    case RecoverBySeedPhrase(phrase) => if IsValidPhrase(Normalise(phrase)) then WithDataKey(b) else b
    case EnableKms => b.(kmsEnabled := true)
    case AddMasterKey => b.(hasMasterKey := true)
  }

  function Run(enc: Encryption, b: Backend, steps: seq<Step>): Backend
    decreases |steps|
  {
    if |steps| == 0 then b else Run(enc, Next(enc, b, steps[0]), steps[1..])
  }
}
