/** Blocking, one-to-one rooms and the four ways of sending into a room, as transitions. */
module BlockTables {
  import opened Wrappers

  type UserId = nat
  type Address = string
  type NetworkId = nat

  /** A user with that user's only wallet address. */
  datatype Party = Party(userId: UserId, address: Address)

  datatype RoomStatus = Created | Deployed | Paused | DeployFailed | Cancelled | Blocked
  /** A one-to-one room with its two member rows. */
  datatype PeerRoom = PeerRoom(networkId: NetworkId, status: RoomStatus, owner: Party, peer: Party)

  datatype BlockRow = BlockRow(userId: UserId, blockedUserId: UserId, blockedAddress: Address, active: bool)

  datatype MessageStatus = InProgress | PendingRetry | Retrying | Completed | Failed | Hidden
  datatype Message = Message(roomId: nat, userId: UserId, status: MessageStatus)

  datatype Tables = Tables(wallets: map<Address, UserId>, blocks: seq<BlockRow>, rooms: seq<PeerRoom>,
                           messages: seq<Message>)

  const EMPTY_TABLES := Tables(map[], [], [], [])

  /** What the settings query returns for the calling user. */
  datatype Setup = NoUser | Setup(hasWallet: bool, hasNetwork: bool, autoSign: bool)

  datatype Refusal =
    | UserNotFound | WalletNotFound | NetworkNotFound | AutoSignOff | UserBlocked | PeerNotFound
    | RoomNotFound | RoomBlocked | RoomNotDeployed | NotJoined | InvalidInput | ReceiverNotMember
    | MessageNotFound | MessageNotFailed | NotYourMessage | NetworkMismatch | NullDereference
  datatype Reply = Accepted | Refused(reason: Refusal)
  datatype Outcome = Outcome(after: Tables, reply: Reply)

  function Check(s: Setup): Option<Refusal> {
    match s
    case NoUser => Some(UserNotFound)
    case Setup(wallet, network, autoSign) =>
      if !wallet then Some(WalletNotFound)
      else if !network then Some(NetworkNotFound)
      else if !autoSign then Some(AutoSignOff)
      else None
  }

  // ------------------------------------------------------------------ blocking

  predicate IsRow(b: BlockRow, userId: UserId, address: Address) {
    b.userId == userId && b.blockedAddress == address
  }

  /** The oldest block row of the user for the address; `activeOnly` adds the status to the query. */
  function FindBlock(blocks: seq<BlockRow>, userId: UserId, address: Address, activeOnly: bool,
                     from: nat := 0): (r: Option<nat>)
    requires from <= |blocks|
    ensures r.Some? ==> from <= r.value < |blocks| && IsRow(blocks[r.value], userId, address) &&
                        (activeOnly ==> blocks[r.value].active)
    ensures r.None? ==> forall i :: from <= i < |blocks| && IsRow(blocks[i], userId, address) ==>
                          activeOnly && !blocks[i].active
    decreases |blocks| - from
  {
    if from == |blocks| then None
    else if IsRow(blocks[from], userId, address) && (activeOnly ==> blocks[from].active) then Some(from)
    else FindBlock(blocks, userId, address, activeOnly, from + 1)
  }

  predicate Blocks(blocks: seq<BlockRow>, userId: UserId, address: Address) {
    exists b | b in blocks :: IsRow(b, userId, address) && b.active
  }

  predicate HasMember(room: PeerRoom, userId: UserId) {
    room.owner.userId == userId || room.peer.userId == userId
  }

  predicate HasAddress(room: PeerRoom, address: Address) {
    room.owner.address == address || room.peer.address == address
  }

  /** `updateP2PChatRoomStatus`: every room with a row of the user and a row of the address. */
  function SetPairStatus(rooms: seq<PeerRoom>, userId: UserId, address: Address, status: RoomStatus): (r: seq<PeerRoom>)
    ensures |r| == |rooms|
    ensures forall i :: 0 <= i < |r| ==>
              r[i] == if HasMember(rooms[i], userId) && HasAddress(rooms[i], address) then rooms[i].(status := status)
                      else rooms[i]
  {
    seq(|rooms|, i requires 0 <= i < |rooms| =>
      if HasMember(rooms[i], userId) && HasAddress(rooms[i], address) then rooms[i].(status := status) else rooms[i])
  }

  /** Blocking an unregistered address fails inside the transaction and leaves nothing behind. */
  function BlockUser(t: Tables, userId: UserId, address: Address): Outcome {
    var existing := FindBlock(t.blocks, userId, address, false);
    if existing.None? && address !in t.wallets then Outcome(t, Refused(NullDereference))
    else
      var blocks :=
        if existing.Some? then t.blocks[existing.value := t.blocks[existing.value].(active := true)]
        else t.blocks + [BlockRow(userId, t.wallets[address], address, true)];
      Outcome(t.(blocks := blocks, rooms := SetPairStatus(t.rooms, userId, address, Blocked)), Accepted)
  }

  /** The opposite direction is read outside the transaction, hence from the old rows. */
  function UnblockUser(t: Tables, userId: UserId, address: Address, requestAddress: Address): Outcome {
    var existing := FindBlock(t.blocks, userId, address, true);
    if existing.None? then Outcome(t, Accepted)
    else
      var row := t.blocks[existing.value];
      var opposite := FindBlock(t.blocks, row.blockedUserId, requestAddress, true);
      Outcome(t.(blocks := t.blocks[existing.value := row.(active := false)],
                 rooms := if opposite.None? then SetPairStatus(t.rooms, userId, address, Deployed) else t.rooms),
              Accepted)
  }

  // ------------------------------------------------------------------ one-to-one rooms

  /** The oldest room on the network with a row for each address. */
  function FindRoom(rooms: seq<PeerRoom>, address1: Address, address2: Address, networkId: NetworkId,
                    from: nat := 0): (r: Option<nat>)
    requires from <= |rooms|
    ensures r.Some? ==> from <= r.value < |rooms| && rooms[r.value].networkId == networkId &&
                        HasAddress(rooms[r.value], address1) && HasAddress(rooms[r.value], address2)
    ensures r.None? ==> forall i :: from <= i < |rooms| && rooms[i].networkId == networkId ==>
                          !HasAddress(rooms[i], address1) || !HasAddress(rooms[i], address2)
    decreases |rooms| - from
  {
    if from == |rooms| then None
    else if rooms[from].networkId == networkId && HasAddress(rooms[from], address1) && HasAddress(rooms[from], address2)
    then Some(from)
    else FindRoom(rooms, address1, address2, networkId, from + 1)
  }

  /** The caller has an active block on the user who holds the address. */
  predicate BlocksHolder(t: Tables, userId: UserId, address: Address) {
    address in t.wallets && exists b | b in t.blocks ::
      b.userId == userId && b.active && b.blockedUserId == t.wallets[address]
  }

  datatype RoomReply = Room(id: nat) | NoRoom(reason: Refusal)

  function FindOrAddRoom(t: Tables, caller: Party, setup: Setup, address: Address, networkId: NetworkId)
    : (Tables, RoomReply)
  {
    if BlocksHolder(t, caller.userId, address) then (t, NoRoom(UserBlocked))
    else if Check(setup).Some? then (t, NoRoom(Check(setup).value))
    else
      var found := FindRoom(t.rooms, caller.address, address, networkId);
      if found.Some? then (t, Room(found.value))
      else if address !in t.wallets then (t, NoRoom(PeerNotFound))
      else (t.(rooms := t.rooms + [PeerRoom(networkId, Deployed, caller, Party(t.wallets[address], address))]),
            Room(|t.rooms|))
  }

  // ------------------------------------------------------------------ sending

  /** `getDeployedRoomById`. */
  function Gate(t: Tables, roomId: nat): Option<Refusal> {
    if roomId >= |t.rooms| then Some(RoomNotFound)
    else if t.rooms[roomId].status == Blocked then Some(RoomBlocked)
    else if t.rooms[roomId].status != Deployed then Some(RoomNotDeployed)
    else None
  }

  /** A saved message stays when queueing it fails afterwards. */
  function Save(t: Tables, roomId: nat, userId: UserId, canSend: bool): Outcome {
    Outcome(t.(messages := t.messages + [Message(roomId, userId, InProgress)]),
            if canSend then Accepted else Refused(NetworkMismatch))
  }

  function SendMessage(t: Tables, userId: UserId, setup: Setup, roomId: nat, typeValid: bool, canSend: bool): Outcome {
    if Check(setup).Some? then Outcome(t, Refused(Check(setup).value))
    else if Gate(t, roomId).Some? then Outcome(t, Refused(Gate(t, roomId).value))
    else if !HasMember(t.rooms[roomId], userId) then Outcome(t, Refused(NotJoined))
    else if !typeValid then Outcome(t, Refused(InvalidInput))
    else Save(t, roomId, userId, canSend)
  }

  function ResendMessage(t: Tables, userId: UserId, setup: Setup, messageId: nat, canSend: bool): Outcome {
    if Check(setup).Some? then Outcome(t, Refused(Check(setup).value))
    else if messageId >= |t.messages| then Outcome(t, Refused(MessageNotFound))
    else
      var m := t.messages[messageId];
      if m.status != Failed then Outcome(t, Refused(MessageNotFailed))
      else if m.userId != userId then Outcome(t, Refused(NotYourMessage))
      else if Gate(t, m.roomId).Some? then Outcome(t, Refused(Gate(t, m.roomId).value))
      else Outcome(t.(messages := t.messages[messageId := m.(status := InProgress)]),
                   if canSend then Accepted else Refused(NetworkMismatch))
  }

  /** `inputValid` stands for the wallet, network, address-format and token checks. */
  function SendRedPacket(t: Tables, userId: UserId, setup: Setup, roomId: nat, toAddress: Address, inputValid: bool,
                         canSend: bool): Outcome {
    if Check(setup).Some? then Outcome(t, Refused(Check(setup).value))
    else if Gate(t, roomId).Some? then Outcome(t, Refused(Gate(t, roomId).value))
    else if !HasMember(t.rooms[roomId], userId) then Outcome(t, Refused(NotJoined))
    else if !inputValid then Outcome(t, Refused(InvalidInput))
    else if !HasAddress(t.rooms[roomId], toAddress) then Outcome(t, Refused(ReceiverNotMember))
    else Save(t, roomId, userId, canSend)
  }

  /** Has its own room check, without the separate answer for blocked rooms. */
  function SendFile(t: Tables, userId: UserId, setup: Setup, roomId: nat, networkUsed: bool): Outcome {
    if Check(setup).Some? then Outcome(t, Refused(Check(setup).value))
    else if roomId >= |t.rooms| then Outcome(t, Refused(NullDereference))
    else if t.rooms[roomId].status != Deployed then Outcome(t, Refused(RoomNotDeployed))
    else if !networkUsed then Outcome(t, Refused(NetworkMismatch))
    else if !HasMember(t.rooms[roomId], userId) then Outcome(t, Refused(NotJoined))
    else Save(t, roomId, userId, true)
  }

  // ------------------------------------------------------------------ runs

  datatype Step =
    | Block(caller: Party, address: Address)
    | Unblock(caller: Party, address: Address)
    | OpenRoom(caller: Party, setup: Setup, address: Address, networkId: NetworkId)
    | Send(userId: UserId, setup: Setup, roomId: nat, typeValid: bool, canSend: bool)
    | Resend(userId: UserId, setup: Setup, messageId: nat, canSend: bool)
    | RedPacket(userId: UserId, setup: Setup, roomId: nat, toAddress: Address, inputValid: bool, canSend: bool)
    | File(userId: UserId, setup: Setup, roomId: nat, networkUsed: bool)
    | WorkerMessage(messageId: nat, status: MessageStatus)
    | NewWallet(address: Address, userId: UserId)

  function Perform(t: Tables, s: Step): Outcome {
    match s
    case Block(caller, address) => BlockUser(t, caller.userId, address)
    case Unblock(caller, address) => UnblockUser(t, caller.userId, address, caller.address)
    case OpenRoom(caller, setup, address, networkId) =>
      var (u, reply) := FindOrAddRoom(t, caller, setup, address, networkId);
      Outcome(u, if reply.Room? then Accepted else Refused(reply.reason))
    case Send(userId, setup, roomId, typeValid, canSend) => SendMessage(t, userId, setup, roomId, typeValid, canSend)
    case Resend(userId, setup, messageId, canSend) => ResendMessage(t, userId, setup, messageId, canSend)
    case RedPacket(userId, setup, roomId, to, inputValid, canSend) =>
      SendRedPacket(t, userId, setup, roomId, to, inputValid, canSend)
    case File(userId, setup, roomId, networkUsed) => SendFile(t, userId, setup, roomId, networkUsed)
    case WorkerMessage(id, status) =>
      Outcome(if id < |t.messages| then t.(messages := t.messages[id := t.messages[id].(status := status)])
              else t, Accepted)
    case NewWallet(address, userId) =>
      if address in t.wallets || userId in t.wallets.Values then Outcome(t, Refused(InvalidInput))
      else Outcome(t.(wallets := t.wallets[address := userId]), Accepted)
  }

  function Next(t: Tables, s: Step): Tables {
    Perform(t, s).after
  }

  function Run(t: Tables, steps: seq<Step>): Tables
    decreases |steps|
  {
    if |steps| == 0 then t else Run(Next(t, steps[0]), steps[1..])
  }

  predicate IsHolder(t: Tables, p: Party) {
    p.address in t.wallets && t.wallets[p.address] == p.userId
  }

  /** Callers act as themselves and on someone else. */
  predicate Admissible(t: Tables, s: Step) {
    match s
    case Block(caller, address) => IsHolder(t, caller) && address != caller.address
    case Unblock(caller, address) => IsHolder(t, caller) && address != caller.address
    case OpenRoom(caller, _, address, _) => IsHolder(t, caller) && address != caller.address
    case _ => true
  }

  predicate AdmissibleRun(t: Tables, steps: seq<Step>)
    decreases |steps|
  {
    |steps| == 0 || (Admissible(t, steps[0]) && AdmissibleRun(Next(t, steps[0]), steps[1..]))
  }
}
