/** Room keys: two rows per room, one for each side, and what any two joined members can read. Groups and
    one-to-one rooms share the member table, the room ids and the key table. */
module RoomKeys {
  import opened Wrappers
  import opened TextCodecs
  import opened MessageCipher
  import G = GroupTables
  import B = BlockTables

  datatype Side = Originator | Participant
  datatype RoomKey = RoomKey(roomId: G.RoomId, side: Side, publicKey: string, privateKey: string, sharedKey: string,
                             iv: string)
  datatype KeyPair = KeyPair(publicKey: string, privateKey: string)

  /** The shared secret of curve prime192v1 has 24 bytes, the vector 16. */
  const AGREED_BYTES := 24
  type Agreed = b: seq<Byte> | |b| == AGREED_BYTES
    witness [0, 0, 0, 0, 0, 0, 0, 0, 0, 0, 0, 0, 0, 0, 0, 0, 0, 0, 0, 0, 0, 0, 0, 0]
  type Agreement = (string, string) -> Agreed

  /** What the random generator yields for one room. */
  datatype Material = Material(originator: KeyPair, participant: KeyPair, iv: CipherBlock)

  /** `createRoomKeys`: one shared key and vector, stored once for each side. */
  function KeyRows(agree: Agreement, roomId: G.RoomId, m: Material): seq<RoomKey> {
    var shared := ToBase64(agree(m.originator.publicKey, m.participant.privateKey));
    var iv := ToBase64(m.iv);
    [RoomKey(roomId, Originator, m.originator.publicKey, m.originator.privateKey, shared, iv),
     RoomKey(roomId, Participant, m.participant.publicKey, m.participant.privateKey, shared, iv)]
  }

  /** Each side has its own pair; both have the key agreed between the originator's public and the participant's
      private key, and the drawn vector. */
  predicate AreKeysOf(rows: seq<RoomKey>, agree: Agreement, roomId: G.RoomId, m: Material) {
    && |rows| == 2 && rows[0].side == Originator && rows[1].side == Participant
    && rows[0].publicKey == m.originator.publicKey && rows[0].privateKey == m.originator.privateKey
    && rows[1].publicKey == m.participant.publicKey && rows[1].privateKey == m.participant.privateKey
    && forall k :: 0 <= k < 2 ==>
         && rows[k].roomId == roomId && FromBase64(rows[k].iv) == m.iv
         && FromBase64(rows[k].sharedKey) == agree(m.originator.publicKey, m.participant.privateKey)
  }

  lemma {:induction false} KeyRowsAgree(agree: Agreement, roomId: G.RoomId, m: Material)
    ensures AreKeysOf(KeyRows(agree, roomId, m), agree, roomId, m)
  {
    Base64RoundTrip(m.iv);
    Base64RoundTrip(agree(m.originator.publicKey, m.participant.privateKey));
  }

  function FindByRoomAndSide(keys: seq<RoomKey>, roomId: G.RoomId, side: Side): (r: Option<RoomKey>)
    ensures r.Some? ==> r.value in keys && r.value.roomId == roomId && r.value.side == side
    ensures r.None? ==> forall k :: k in keys ==> !(k.roomId == roomId && k.side == side)
  {
    if |keys| == 0 then None
    else if keys[0].roomId == roomId && keys[0].side == side then Some(keys[0])
    else FindByRoomAndSide(keys[1..], roomId, side)
  }

  /** A one-to-one room: its id, its network and the addresses of its creator and of the other side. */
  datatype Single = Single(roomId: G.RoomId, networkId: B.NetworkId, owner: G.Address, peer: G.Address)

  datatype Store = Store(tables: G.Tables, singles: seq<Single>, keys: seq<RoomKey>)

  /** The owner reads the originator's row, everyone else the participant's. */
  function FindByUserAndRoom(s: Store, userId: G.UserId, roomId: G.RoomId): Option<RoomKey> {
    var joined := G.FindJoined(s.tables, userId, roomId);
    if joined.None? then None
    else FindByRoomAndSide(s.keys, roomId,
                           if s.tables.members[joined.value].role == G.Owner then Originator else Participant)
  }

  function EncryptMessage(cipher: BlockCipher, s: Store, userId: G.UserId, roomId: G.RoomId,
                          message: Text): Option<string> {
    var key := FindByUserAndRoom(s, userId, roomId);
    if key.None? then None else Encrypt(cipher, message, Secret(key.value.sharedKey, key.value.iv))
  }

  function DecryptMessage(cipher: BlockCipher, s: Store, userId: G.UserId, roomId: G.RoomId,
                          message: string): Option<Text> {
    var key := FindByUserAndRoom(s, userId, roomId);
    if key.None? then None else Decrypt(cipher, message, Secret(key.value.sharedKey, key.value.iv))
  }

  // ------------------------------------------------------------------ runs

  /** A group step, or a call that finds or opens a one-to-one room, together with the random material it
      uses if it creates a room. `blocked` is the answer of the blocking check. */
  datatype Step =
    | GroupStep(step: G.Step, material: Material)
    | OpenSingle(caller: B.Party, setup: B.Setup, blocked: bool, address: G.Address, networkId: B.NetworkId,
                 material: Material)

  predicate IsBetween(r: Single, address1: G.Address, address2: G.Address) {
    (r.owner == address1 || r.peer == address1) && (r.owner == address2 || r.peer == address2)
  }

  predicate HasSingle(s: Store, address1: G.Address, address2: G.Address, networkId: B.NetworkId) {
    exists r | r in s.singles :: r.networkId == networkId && IsBetween(r, address1, address2)
  }

  /** The call goes through to the creation of a room. */
  predicate Opens(s: Store, caller: B.Party, setup: B.Setup, blocked: bool, address: G.Address,
                  networkId: B.NetworkId) {
    !blocked && B.Check(setup).None? && !HasSingle(s, caller.address, address, networkId) && address in s.tables.wallets
  }

  /** The caller becomes the owner of the new room and the holder of the address its member, both joined. */
  function OpenRoom(agree: Agreement, s: Store, caller: B.Party, address: G.Address, networkId: B.NetworkId,
                    m: Material): Store
    requires address in s.tables.wallets
  {
    var r := s.tables.rooms;
    Store(s.tables.(rooms := r + 1, members := s.tables.members +
            [G.MemberRow(r, caller.userId, caller.address, G.Owner, G.Joined),
             G.MemberRow(r, s.tables.wallets[address], address, G.Member, G.Joined)]),
          s.singles + [Single(r, networkId, caller.address, address)],
          s.keys + KeyRows(agree, r, m))
  }

  /** A room is opened exactly by a ready caller who does not block the other side, towards a registered address,
      when the pair has none on the network yet, whoever opened it. */
  lemma OpensIff(agree: Agreement, s: Store, k: Step)
    requires k.OpenSingle?
    ensures Next(agree, s, k).tables.rooms == s.tables.rooms + 1 <==>
            && !k.blocked && k.setup == B.Setup(true, true, true) && k.address in s.tables.wallets
            && forall i :: 0 <= i < |s.singles| && s.singles[i].networkId == k.networkId ==>
                 !({k.caller.address, k.address} <= {s.singles[i].owner, s.singles[i].peer})
    ensures Next(agree, s, k) == s || Next(agree, s, k).tables.rooms == s.tables.rooms + 1
  {
    forall i | 0 <= i < |s.singles|
      ensures IsBetween(s.singles[i], k.caller.address, k.address) <==>
              {k.caller.address, k.address} <= {s.singles[i].owner, s.singles[i].peer}
    {
      var r := s.singles[i];
      assert k.caller.address in {k.caller.address, k.address} && k.address in {k.caller.address, k.address};
    }
    assert HasSingle(s, k.caller.address, k.address, k.networkId) <==>
           exists i :: 0 <= i < |s.singles| && s.singles[i].networkId == k.networkId &&
                       IsBetween(s.singles[i], k.caller.address, k.address);
  }

  function Next(agree: Agreement, s: Store, k: Step): Store {
    match k
    case GroupStep(step, m) =>
      var u := G.Next(s.tables, step);
      Store(u, s.singles, if u.rooms > s.tables.rooms then s.keys + KeyRows(agree, s.tables.rooms, m) else s.keys)
    case OpenSingle(caller, setup, blocked, address, networkId, m) =>
      if Opens(s, caller, setup, blocked, address, networkId) then OpenRoom(agree, s, caller, address, networkId, m)
        else s
  }

  function Run(agree: Agreement, s: Store, steps: seq<Step>): Store
    decreases |steps|
  {
    if |steps| == 0 then s else Run(agree, Next(agree, s, steps[0]), steps[1..])
  }

  const EMPTY_STORE := Store(G.EMPTY_TABLES, [], [])

  predicate SameSecret(k: RoomKey, l: RoomKey) {
    k.sharedKey == l.sharedKey && k.iv == l.iv
  }

  predicate Agree(keys: seq<RoomKey>) {
    forall k, l :: k in keys && l in keys && k.roomId == l.roomId ==> SameSecret(k, l)
  }

  predicate Usable(keys: seq<RoomKey>, rooms: nat) {
    forall k :: k in keys ==> k.roomId < rooms && IsUsable(Secret(k.sharedKey, k.iv))
  }

  ghost predicate BothSides(keys: seq<RoomKey>, rooms: nat) {
    forall r, side :: 0 <= r < rooms ==> FindByRoomAndSide(keys, r, side).Some?
  }

  predicate RoomsExist(t: G.Tables) {
    forall i :: 0 <= i < |t.members| ==> t.members[i].roomId < t.rooms
  }

  ghost predicate Inv(s: Store) {
    Usable(s.keys, s.tables.rooms) && Agree(s.keys) && BothSides(s.keys, s.tables.rooms) && RoomsExist(s.tables)
  }

  /** AES-256 takes a key of 32 bytes: the 24 agreed bytes are 32 Base64 characters, each one byte. */
  lemma {:induction false} AgreedSecretUsable(shared: string, agreed: seq<Byte>, iv: seq<Byte>)
    requires |agreed| == AGREED_BYTES && shared == ToBase64(agreed) && |iv| == BLOCK_BYTES
    ensures IsUsable(Secret(shared, ToBase64(iv)))
  {
    assert |ToUtf8(shared)| == KEY_BYTES by {
      Base64Shape(agreed);
      AsciiLength(shared);
    }
    Base64RoundTrip(iv);
  }

  lemma {:induction false} FreshKeysUsable(agree: Agreement, roomId: G.RoomId, m: Material)
    ensures forall k :: k in KeyRows(agree, roomId, m) ==> IsUsable(Secret(k.sharedKey, k.iv))
  {
    var agreed: seq<Byte> := agree(m.originator.publicKey, m.participant.privateKey);
    AgreedSecretUsable(ToBase64(agreed), agreed, m.iv);
  }

  lemma AddKeepsRooms(t: G.Tables, userId: G.UserId, roomId: G.RoomId, addresses: seq<G.Address>)
    requires RoomsExist(t)
    ensures RoomsExist(G.AddMembers(t, userId, roomId, addresses).after)
  {
  }

  lemma CreateKeepsRooms(t: G.Tables, userId: G.UserId, own: G.Address, addresses: seq<G.Address>, canSend: bool)
    requires RoomsExist(t)
    ensures RoomsExist(G.CreateGroup(t, userId, own, addresses, canSend).after)
  {
  }

  lemma RequestKeepsRooms(t: G.Tables, s: G.Step)
    requires RoomsExist(t) && (s.Approve? || s.Remove? || s.EditRole? || s.Leave?)
    ensures RoomsExist(G.Next(t, s)) && G.Next(t, s).rooms == t.rooms
  {
  }

  lemma StatusKeepsRooms(t: G.Tables, s: G.Step)
    requires RoomsExist(t) && (s.Join? || s.Reject? || s.CancelInvite?)
    ensures RoomsExist(G.Next(t, s)) && G.Next(t, s).rooms == t.rooms
  {
  }

  lemma GroupStepKeepsRooms(t: G.Tables, s: G.Step)
    requires RoomsExist(t)
    ensures G.Next(t, s).rooms == t.rooms || G.Next(t, s).rooms == t.rooms + 1
    ensures RoomsExist(G.Next(t, s))
  {
    match s
    case Add(u, r, addresses) => AddKeepsRooms(t, u, r, addresses);
    case Create(u, own, addresses, canSend) => CreateKeepsRooms(t, u, own, addresses, canSend);
    case Approve(_, _, _, _) | Remove(_, _, _, _) | EditRole(_, _, _, _, _) | Leave(_, _, _) => RequestKeepsRooms(t, s);
    case Join(_, _, _) | Reject(_, _) | CancelInvite(_, _, _) => StatusKeepsRooms(t, s);
    case _ =>
  }

  lemma {:induction false} FindAppended(keys: seq<RoomKey>, added: seq<RoomKey>, roomId: G.RoomId, side: Side)
    requires FindByRoomAndSide(keys, roomId, side).Some? ||
             exists k :: k in added && k.roomId == roomId && k.side == side
    ensures FindByRoomAndSide(keys + added, roomId, side).Some?
  {
    var found := FindByRoomAndSide(keys + added, roomId, side);
    if FindByRoomAndSide(keys, roomId, side).Some? {
      assert FindByRoomAndSide(keys, roomId, side).value in keys + added;
    }
  }

  lemma KeysKeepInv(agree: Agreement, keys: seq<RoomKey>, rooms: nat, m: Material)
    requires Usable(keys, rooms) && Agree(keys) && BothSides(keys, rooms)
    ensures var after := keys + KeyRows(agree, rooms, m);
            Usable(after, rooms + 1) && Agree(after) && BothSides(after, rooms + 1)
  {
    var added := KeyRows(agree, rooms, m);
    FreshKeysUsable(agree, rooms, m);
    assert Usable(keys + added, rooms + 1);
    forall r, side | 0 <= r < rooms + 1 ensures FindByRoomAndSide(keys + added, r, side).Some? {
      assert added[0] in added && added[1] in added;
      FindAppended(keys, added, r, side);
    }
  }

  lemma StepKeepsInv(agree: Agreement, s: Store, k: Step)
    requires Inv(s)
    ensures Inv(Next(agree, s, k))
  {
    KeysKeepInv(agree, s.keys, s.tables.rooms, k.material);
    if k.GroupStep? {
      GroupStepKeepsRooms(s.tables, k.step);
    }
  }

  lemma {:induction false} RunKeepsInv(agree: Agreement, s: Store, steps: seq<Step>)
    requires Inv(s)
    ensures Inv(Run(agree, s, steps))
    decreases |steps|
  {
    if |steps| > 0 {
      StepKeepsInv(agree, s, steps[0]);
      RunKeepsInv(agree, Next(agree, s, steps[0]), steps[1..]);
    }
  }

  /** Both resolve to the same key and vector, and `v` decrypts what `u` encrypts: to the original with its
      unpaired surrogates replaced. */
  predicate Understand(cipher: BlockCipher, s: Store, u: G.UserId, v: G.UserId, roomId: G.RoomId, message: Text) {
    var mine, theirs := FindByUserAndRoom(s, u, roomId), FindByUserAndRoom(s, v, roomId);
    var sent := EncryptMessage(cipher, s, u, roomId, message);
    && mine.Some? && theirs.Some? && SameSecret(mine.value, theirs.value)
    && (mine.value.side == Originator <==> s.tables.members[G.FindJoined(s.tables, u, roomId).value].role == G.Owner)
    && sent.Some? && DecryptMessage(cipher, s, v, roomId, sent.value) == Some(Replaced(message))
  }

  lemma {:induction false} JoinedMembersUnderstand(cipher: BlockCipher, s: Store, u: G.UserId, v: G.UserId,
                                                   roomId: G.RoomId, message: Text)
    requires Inv(s) && G.FindJoined(s.tables, u, roomId).Some? && G.FindJoined(s.tables, v, roomId).Some?
    ensures Understand(cipher, s, u, v, roomId, message)
  {
    assert s.tables.members[G.FindJoined(s.tables, u, roomId).value].roomId < s.tables.rooms;
    var mine := FindByUserAndRoom(s, u, roomId);
    EncryptThenDecrypt(cipher, message, Secret(mine.value.sharedKey, mine.value.iv));
  }

  /** Nobody else is given a key: encryption and decryption fail exactly for users who have not joined the room. */
  lemma {:induction false} OnlyMembersEncrypt(cipher: BlockCipher, s: Store, u: G.UserId, roomId: G.RoomId,
                                              message: Text,
                                              sent: string)
    requires Inv(s)
    ensures EncryptMessage(cipher, s, u, roomId, message).Some? <==>
            exists m :: m in s.tables.members && m.roomId == roomId && m.userId == u && m.status == G.Joined
    ensures DecryptMessage(cipher, s, u, roomId, sent).Some? <==>
            exists m :: m in s.tables.members && m.roomId == roomId && m.userId == u && m.status == G.Joined
  {
    var w := G.Where(roomId, Some(u), Some(G.Joined), None);
    var joined := G.FindJoined(s.tables, u, roomId);
    assert forall m :: G.Matches(m, w) <==> m.roomId == roomId && m.userId == u && m.status == G.Joined;
    if joined.Some? {
      assert s.tables.members[joined.value].roomId < s.tables.rooms;
      assert s.tables.members[joined.value] in s.tables.members;
    }
  }

  /** Over every run, any two joined members of a room, group or one-to-one and whatever their roles have
      become, read each other's messages: exactly those come back as they were that have no unpaired
      surrogate. */
  lemma {:induction false} AnyTwoMembersUnderstand(agree: Agreement, cipher: BlockCipher, steps: seq<Step>,
                                                   u: G.UserId, v: G.UserId, roomId: G.RoomId, message: Text)
    requires G.FindJoined(Run(agree, EMPTY_STORE, steps).tables, u, roomId).Some?
    requires G.FindJoined(Run(agree, EMPTY_STORE, steps).tables, v, roomId).Some?
    ensures Understand(cipher, Run(agree, EMPTY_STORE, steps), u, v, roomId, message)
    ensures Replaced(message) == message <==> IsPaired(message)
  {
    RunKeepsInv(agree, EMPTY_STORE, steps);
    JoinedMembersUnderstand(cipher, Run(agree, EMPTY_STORE, steps), u, v, roomId, message);
    ReplacedIff(message);
  }

  /** Both sides of a room just opened are joined, so they understand each other. */
  lemma {:induction false} NewRoomIsUnderstood(agree: Agreement, cipher: BlockCipher, s: Store, caller: B.Party,
                                               address: G.Address, networkId: B.NetworkId, m: Material, message: Text)
    requires Inv(s) && address in s.tables.wallets
    ensures var c := OpenRoom(agree, s, caller, address, networkId, m);
            && Understand(cipher, c, caller.userId, s.tables.wallets[address], s.tables.rooms, message)
            && Understand(cipher, c, s.tables.wallets[address], caller.userId, s.tables.rooms, message)
            && (caller.userId != s.tables.wallets[address] ==>
                  && FindByUserAndRoom(c, caller.userId, s.tables.rooms).value.side == Originator
                  && FindByUserAndRoom(c, s.tables.wallets[address], s.tables.rooms).value.side == Participant)
  {
    var c, r := OpenRoom(agree, s, caller, address, networkId, m), s.tables.rooms;
    var owner, peer := c.tables.members[|s.tables.members|], c.tables.members[|s.tables.members| + 1];
    KeysKeepInv(agree, s.keys, r, m);
    assert G.Matches(owner, G.Where(r, Some(caller.userId), Some(G.Joined), None));
    assert G.Matches(peer, G.Where(r, Some(s.tables.wallets[address]), Some(G.Joined), None));
    assert forall i :: 0 <= i < |s.tables.members| ==> c.tables.members[i].roomId < r;
    JoinedMembersUnderstand(cipher, c, caller.userId, s.tables.wallets[address], r, message);
    JoinedMembersUnderstand(cipher, c, s.tables.wallets[address], caller.userId, r, message);
  }

  class RoomKeyService {
    var keys: seq<RoomKey>

    /** `createRoomKeys`: the agreement mixes the originator's public with the participant's private key. */
    method CreateRoomKeys(agree: Agreement, roomId: G.RoomId, m: Material) returns (saved: seq<RoomKey>)
      modifies this
      ensures saved == KeyRows(agree, roomId, m) && AreKeysOf(saved, agree, roomId, m)
      ensures keys == old(keys) + saved
    {
      var shared := ToBase64(agree(m.originator.publicKey, m.participant.privateKey));
      var iv := ToBase64(m.iv);
      var originator := RoomKey(roomId, Originator, m.originator.publicKey, m.originator.privateKey, shared, iv);
      var participant := RoomKey(roomId, Participant, m.participant.publicKey, m.participant.privateKey, shared, iv);
      saved := [originator, participant];
      KeyRowsAgree(agree, roomId, m);
      keys := keys + saved;
    }
  }
}
