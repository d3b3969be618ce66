/** What each answer of the blocking, room and message services means to its caller, stated on the states
    before and after. */
module BlockReplies {
  import opened Wrappers
  import opened BlockTables
  import opened BlockProtocol

  /** Whoever of them calls as itself about someone else, the invariant still holds. */
  ghost predicate KeepsInv(t: Tables, u: Tables, userId: UserId, address: Address) {
    forall own: Address :: IsHolder(t, Party(userId, own)) && own != address && Inv(t) ==> Inv(u)
  }

  predicate IsOfPair(room: PeerRoom, userId: UserId, address: Address) {
    HasMember(room, userId) && HasAddress(room, address)
  }

  /** The pair's rooms have the status, and nothing else about any room changed. */
  predicate PairHas(rooms: seq<PeerRoom>, after: seq<PeerRoom>, userId: UserId, address: Address, status: RoomStatus) {
    |after| == |rooms| && forall r :: 0 <= r < |rooms| ==>
      after[r] == if IsOfPair(rooms[r], userId, address) then rooms[r].(status := status) else rooms[r]
  }

  /** The one direction has changed to this, and no other. */
  ghost predicate DirectionIs(t: Tables, u: Tables, userId: UserId, address: Address, active: bool) {
    forall v: UserId, a: Address ::
      Blocks(u.blocks, v, a) <==> if v == userId && a == address then active else Blocks(t.blocks, v, a)
  }

  predicate HasBlockRow(t: Tables, userId: UserId, address: Address) {
    exists i :: 0 <= i < |t.blocks| && t.blocks[i].userId == userId && t.blocks[i].blockedAddress == address
  }

  /** Refused exactly for an unregistered address that was never blocked; otherwise the direction is active, the
      pair's rooms are blocked, and nothing else has changed. */
  ghost predicate BlockMeans(t: Tables, o: Outcome, userId: UserId, address: Address) {
    && KeepsInv(t, o.after, userId, address)
    && o.after == t.(blocks := o.after.blocks, rooms := o.after.rooms)
    && if address !in t.wallets && !HasBlockRow(t, userId, address) then o == Outcome(t, Refused(NullDereference))
       else
         && o.reply == Accepted && PairHas(t.rooms, o.after.rooms, userId, address, Blocked)
         && (BlockRowsUnique(t) ==> DirectionIs(t, o.after, userId, address, true))
  }

  lemma BlockIsMeant(t: Tables, userId: UserId, address: Address)
    ensures BlockMeans(t, BlockUser(t, userId, address), userId, address)
  {
    var o := BlockUser(t, userId, address);
    forall own: Address | IsHolder(t, Party(userId, own)) && own != address && Inv(t) ensures Inv(o.after) {
      BlockKeepsInv(t, Party(userId, own), address);
    }
    var existing := FindBlock(t.blocks, userId, address, false);
    assert existing.Some? <==> HasBlockRow(t, userId, address);
    if BlockRowsUnique(t) && o.reply == Accepted {
      BlockActivates(t, userId, address);
    }
  }

  /** The direction is inactive, and the pair's rooms are deployed again unless the holder of the address still
      blocks the request's. */
  ghost predicate UnblockMeans(t: Tables, o: Outcome, userId: UserId, address: Address, requestAddress: Address) {
    && (IsHolder(t, Party(userId, requestAddress)) && requestAddress != address && Inv(t) ==> Inv(o.after))
    && o.reply == Accepted && o.after == t.(blocks := o.after.blocks, rooms := o.after.rooms)
    && (!Blocks(t.blocks, userId, address) ==> o.after == t)
    && (BlockRowsUnique(t) && Blocks(t.blocks, userId, address) ==>
          && DirectionIs(t, o.after, userId, address, false)
          && if Blocks(t.blocks, t.wallets[address], requestAddress) then o.after.rooms == t.rooms
             else PairHas(t.rooms, o.after.rooms, userId, address, Deployed))
  }

  lemma UnblockIsMeant(t: Tables, userId: UserId, address: Address, requestAddress: Address)
    ensures UnblockMeans(t, UnblockUser(t, userId, address, requestAddress), userId, address, requestAddress)
  {
    var existing := FindBlock(t.blocks, userId, address, true);
    if existing.None? {
      assert !Blocks(t.blocks, userId, address);
    } else {
      assert t.blocks[existing.value] in t.blocks;
      if BlockRowsUnique(t) {
        UnblockDeactivates(t, userId, address, requestAddress);
        var opposite := FindBlock(t.blocks, t.wallets[address], requestAddress, true);
        assert opposite.Some? <==> Blocks(t.blocks, t.wallets[address], requestAddress);
      }
    }
    if IsHolder(t, Party(userId, requestAddress)) && requestAddress != address && Inv(t) {
      UnblockKeepsInv(t, Party(userId, requestAddress), address);
    }
  }

  // ------------------------------------------------------------------ the caller's settings

  /** The caller has a default wallet with a network, and signs automatically. */
  predicate IsReady(setup: Setup) {
    setup.Setup? && setup.hasWallet && setup.hasNetwork && setup.autoSign
  }

  /** The first thing that is missing. */
  predicate IsMissing(setup: Setup, reason: Refusal) {
    match reason
    case UserNotFound => setup == NoUser
    case WalletNotFound => setup.Setup? && !setup.hasWallet
    case NetworkNotFound => setup.Setup? && setup.hasWallet && !setup.hasNetwork
    case AutoSignOff => setup.Setup? && setup.hasWallet && setup.hasNetwork && !setup.autoSign
    case _ => false
  }

  lemma CheckIff(setup: Setup)
    ensures Check(setup).None? <==> IsReady(setup)
    ensures forall reason :: Check(setup) == Some(reason) <==> IsMissing(setup, reason)
  {
  }

  // ------------------------------------------------------------------ opening a room

  predicate IsRoomOf(room: PeerRoom, address1: Address, address2: Address, networkId: NetworkId) {
    room.networkId == networkId && HasAddress(room, address1) && HasAddress(room, address2)
  }

  /** Refused while the caller blocks the holder of the address or lacks a setting; otherwise the pair's oldest
      room on the network, or, for a registered address, a new deployed one. */
  ghost predicate OpenMeans(t: Tables, u: Tables, reply: RoomReply, caller: Party, setup: Setup, address: Address,
                            networkId: NetworkId)
  {
    && (IsHolder(t, caller) && address != caller.address && Inv(t) ==> Inv(u))
    && if IsBlocked(t, caller.userId, address) then u == t && reply == NoRoom(UserBlocked)
       else if !IsReady(setup) then u == t && reply.NoRoom? && IsMissing(setup, reply.reason)
       else if exists r :: 0 <= r < |t.rooms| && IsRoomOf(t.rooms[r], caller.address, address, networkId) then
         && u == t && reply.Room? && reply.id < |t.rooms|
         && IsRoomOf(t.rooms[reply.id], caller.address, address, networkId)
         && forall r :: 0 <= r < reply.id ==> !IsRoomOf(t.rooms[r], caller.address, address, networkId)
       else if address !in t.wallets then u == t && reply == NoRoom(PeerNotFound)
       else
         && reply == Room(|t.rooms|)
         && u == t.(rooms := t.rooms + [PeerRoom(networkId, Deployed, caller, Party(t.wallets[address], address))])
  }

  /** The user has an active block on the holder of the address. */
  predicate IsBlocked(t: Tables, userId: UserId, address: Address) {
    address in t.wallets && exists i :: 0 <= i < |t.blocks| && t.blocks[i].userId == userId && t.blocks[i].active &&
                                        t.blocks[i].blockedUserId == t.wallets[address]
  }

  lemma {:induction false} FoundIsFirst(rooms: seq<PeerRoom>, address1: Address, address2: Address,
                                        networkId: NetworkId, from: nat)
    requires from <= |rooms|
    ensures var found := FindRoom(rooms, address1, address2, networkId, from);
            found.Some? ==> forall r :: from <= r < found.value ==> !IsRoomOf(rooms[r], address1, address2, networkId)
    decreases |rooms| - from
  {
    if from < |rooms| && !IsRoomOf(rooms[from], address1, address2, networkId) {
      FoundIsFirst(rooms, address1, address2, networkId, from + 1);
    }
  }

  lemma OpenIsMeant(t: Tables, caller: Party, setup: Setup, address: Address, networkId: NetworkId)
    ensures var (u, reply) := FindOrAddRoom(t, caller, setup, address, networkId);
            OpenMeans(t, u, reply, caller, setup, address, networkId)
  {
    CheckIff(setup);
    FoundIsFirst(t.rooms, caller.address, address, networkId, 0);
    if Inv(t) && IsHolder(t, caller) && address != caller.address {
      OpenKeepsInv(t, caller, setup, address, networkId);
    }
  }

  // ------------------------------------------------------------------ sending

  predicate IsOpenTo(t: Tables, roomId: nat, userId: UserId) {
    roomId < |t.rooms| && t.rooms[roomId].status == Deployed && HasMember(t.rooms[roomId], userId)
  }

  /** The message is saved, and accepted if it can be queued. */
  predicate IsSaved(t: Tables, o: Outcome, roomId: nat, userId: UserId, canSend: bool) {
    && o.after == t.(messages := t.messages + [Message(roomId, userId, InProgress)])
    && o.reply == if canSend then Accepted else Refused(NetworkMismatch)
  }

  /** Which refusal a room gives that is not deployed, or not the caller's. */
  predicate IsClosed(t: Tables, roomId: nat, userId: UserId, reason: Refusal) {
    if roomId >= |t.rooms| then reason == RoomNotFound
    else if t.rooms[roomId].status == Blocked then reason == RoomBlocked
    else if t.rooms[roomId].status != Deployed then reason == RoomNotDeployed
    else !HasMember(t.rooms[roomId], userId) && reason == NotJoined
  }

  /** A refusal saves nothing. */
  predicate IsRefused(t: Tables, o: Outcome, reason: Refusal) {
    o == Outcome(t, Refused(reason))
  }

  /** A message is saved exactly by a ready member of a deployed room for a valid type, and then accepted
      exactly if it can be queued. */
  ghost predicate SendMeans(t: Tables, o: Outcome, userId: UserId, setup: Setup, roomId: nat, typeValid: bool,
                            canSend: bool)
  {
    && (Inv(t) ==> Inv(o.after))
    && if !IsReady(setup) then exists reason :: IsMissing(setup, reason) && IsRefused(t, o, reason)
       else if !IsOpenTo(t, roomId, userId) then
         exists reason :: IsClosed(t, roomId, userId, reason) && IsRefused(t, o, reason)
       else if !typeValid then IsRefused(t, o, InvalidInput)
       else IsSaved(t, o, roomId, userId, canSend)
  }

  lemma MessagesKeepInv(t: Tables, messages: seq<Message>)
    ensures Inv(t) ==> Inv(t.(messages := messages))
  {
    var u := t.(messages := messages);
    assert forall r :: 0 <= r < |t.rooms| ==> PairBlocked(u, t.rooms[r]) == PairBlocked(t, t.rooms[r]);
  }

  lemma GateIff(t: Tables, roomId: nat, userId: UserId)
    ensures IsOpenTo(t, roomId, userId) <==> Gate(t, roomId).None? && HasMember(t.rooms[roomId], userId)
    ensures Gate(t, roomId).Some? ==> IsClosed(t, roomId, userId, Gate(t, roomId).value)
  {
  }

  lemma SendIsMeant(t: Tables, userId: UserId, setup: Setup, roomId: nat, typeValid: bool, canSend: bool)
    ensures SendMeans(t, SendMessage(t, userId, setup, roomId, typeValid, canSend), userId, setup, roomId, typeValid,
                      canSend)
  {
    var o := SendMessage(t, userId, setup, roomId, typeValid, canSend);
    MessagesKeepInv(t, o.after.messages);
    CheckIff(setup);
    GateIff(t, roomId, userId);
    if o.reply.Refused? && o.after == t {
      assert IsRefused(t, o, o.reply.reason);
    }
  }

  /** The same for a red packet, which must also name an address of the room. */
  ghost predicate RedPacketMeans(t: Tables, o: Outcome, userId: UserId, setup: Setup, roomId: nat, toAddress: Address,
                                 inputValid: bool, canSend: bool)
  {
    && (Inv(t) ==> Inv(o.after))
    && if !IsReady(setup) then exists reason :: IsMissing(setup, reason) && IsRefused(t, o, reason)
       else if !IsOpenTo(t, roomId, userId) then
         exists reason :: IsClosed(t, roomId, userId, reason) && IsRefused(t, o, reason)
       else if !inputValid then IsRefused(t, o, InvalidInput)
       else if !HasAddress(t.rooms[roomId], toAddress) then IsRefused(t, o, ReceiverNotMember)
       else IsSaved(t, o, roomId, userId, canSend)
  }

  lemma RedPacketIsMeant(t: Tables, userId: UserId, setup: Setup, roomId: nat, toAddress: Address, inputValid: bool,
                         canSend: bool)
    ensures RedPacketMeans(t, SendRedPacket(t, userId, setup, roomId, toAddress, inputValid, canSend),
                           userId, setup, roomId, toAddress, inputValid, canSend)
  {
    var o := SendRedPacket(t, userId, setup, roomId, toAddress, inputValid, canSend);
    MessagesKeepInv(t, o.after.messages);
    CheckIff(setup);
    GateIff(t, roomId, userId);
    if o.reply.Refused? && o.after == t {
      assert IsRefused(t, o, o.reply.reason);
    }
  }

  /** A file message is saved exactly by a ready member of a deployed room in a network in use. */
  ghost predicate FileMeans(t: Tables, o: Outcome, userId: UserId, setup: Setup, roomId: nat, networkUsed: bool) {
    && (Inv(t) ==> Inv(o.after))
    && if !IsReady(setup) then exists reason :: IsMissing(setup, reason) && IsRefused(t, o, reason)
       else if roomId >= |t.rooms| then IsRefused(t, o, NullDereference)
       else if t.rooms[roomId].status != Deployed then IsRefused(t, o, RoomNotDeployed)
       else if !networkUsed then IsRefused(t, o, NetworkMismatch)
       else if !HasMember(t.rooms[roomId], userId) then IsRefused(t, o, NotJoined)
       else IsSaved(t, o, roomId, userId, true)
  }

  lemma FileIsMeant(t: Tables, userId: UserId, setup: Setup, roomId: nat, networkUsed: bool)
    ensures FileMeans(t, SendFile(t, userId, setup, roomId, networkUsed), userId, setup, roomId, networkUsed)
  {
    var o := SendFile(t, userId, setup, roomId, networkUsed);
    MessagesKeepInv(t, o.after.messages);
    CheckIff(setup);
    if o.reply.Refused? && o.after == t {
      assert IsRefused(t, o, o.reply.reason);
    }
  }

  /** Exactly the caller's own failed message in a deployed room is in progress again, and accepted if it can be
      queued. */
  ghost predicate ResendMeans(t: Tables, o: Outcome, userId: UserId, setup: Setup, messageId: nat, canSend: bool) {
    && (Inv(t) ==> Inv(o.after))
    && if !IsReady(setup) then exists reason :: IsMissing(setup, reason) && IsRefused(t, o, reason)
       else if messageId >= |t.messages| then IsRefused(t, o, MessageNotFound)
       else
         var m := t.messages[messageId];
         if m.status != Failed then IsRefused(t, o, MessageNotFailed)
         else if m.userId != userId then IsRefused(t, o, NotYourMessage)
         else if m.roomId >= |t.rooms| then IsRefused(t, o, RoomNotFound)
         else if t.rooms[m.roomId].status == Blocked then IsRefused(t, o, RoomBlocked)
         else if t.rooms[m.roomId].status != Deployed then IsRefused(t, o, RoomNotDeployed)
         else
           && o.after == t.(messages := t.messages[messageId := Message(m.roomId, m.userId, InProgress)])
           && o.reply == if canSend then Accepted else Refused(NetworkMismatch)
  }

  lemma ResendIsMeant(t: Tables, userId: UserId, setup: Setup, messageId: nat, canSend: bool)
    ensures ResendMeans(t, ResendMessage(t, userId, setup, messageId, canSend), userId, setup, messageId, canSend)
  {
    var o := ResendMessage(t, userId, setup, messageId, canSend);
    MessagesKeepInv(t, o.after.messages);
    CheckIff(setup);
    if o.reply.Refused? && o.after == t {
      assert IsRefused(t, o, o.reply.reason);
    }
  }
}
