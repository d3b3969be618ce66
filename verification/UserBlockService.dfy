/** The blocking, room and message services as they run, each method proved to make exactly the
    transition of module BlockTables. */
module UserBlockService {
  import opened Wrappers
  import opened BlockTables
  import opened BlockProtocol
  import opened BlockReplies

  class ChatBackend {
    var wallets: map<Address, UserId>
    var blocks: seq<BlockRow>
    var rooms: seq<PeerRoom>
    var messages: seq<Message>

    function Snapshot(): Tables
      reads this
    {
      Tables(wallets, blocks, rooms, messages)
    }

    constructor ()
      ensures Snapshot() == EMPTY_TABLES
    {
      wallets, blocks, rooms, messages := map[], [], [], [];
    }

    /** The ids of the one-to-one rooms that join a row of the user with a row of the address. */
    method PeerRoomsOfPair(userId: UserId, address: Address) returns (ids: set<nat>)
      ensures ids == set i | 0 <= i < |rooms| && HasMember(rooms[i], userId) && HasAddress(rooms[i], address)
    {
      ids := set i | 0 <= i < |rooms| && HasMember(rooms[i], userId) && HasAddress(rooms[i], address);
    }

    method UpdatePeerRoomStatus(userId: UserId, address: Address, status: RoomStatus)
      modifies `rooms
      ensures rooms == SetPairStatus(old(rooms), userId, address, status)
    {
      var ids := PeerRoomsOfPair(userId, address);
      if ids == {} {
        forall i | 0 <= i < |rooms| ensures rooms[i] == SetPairStatus(rooms, userId, address, status)[i] {
          assert i !in ids;
        }
        return;
      }
      var updated := rooms;
      for i := 0 to |rooms|
        invariant |updated| == |rooms| && rooms == old(rooms)
        invariant forall k :: 0 <= k < i ==> updated[k] == SetPairStatus(rooms, userId, address, status)[k]
        invariant forall k :: i <= k < |rooms| ==> updated[k] == rooms[k]
      {
        if i in ids {
          updated := updated[i := updated[i].(status := status)];
        }
      }
      rooms := updated;
    }

    method Block(userId: UserId, address: Address) returns (reply: Reply)
      modifies `blocks, `rooms
      ensures Outcome(Snapshot(), reply) == BlockUser(old(Snapshot()), userId, address)
      ensures BlockMeans(old(Snapshot()), Outcome(Snapshot(), reply), userId, address)
    {
      BlockIsMeant(Snapshot(), userId, address);
      var existing := FindBlock(blocks, userId, address, false);
      if existing.Some? {
        blocks := blocks[existing.value := blocks[existing.value].(active := true)];
      } else if address in wallets {
        blocks := blocks + [BlockRow(userId, wallets[address], address, true)];
      } else {
        return Refused(NullDereference);
      }
      UpdatePeerRoomStatus(userId, address, Blocked);
      reply := Accepted;
    }

    method Unblock(userId: UserId, address: Address, requestAddress: Address) returns (reply: Reply)
      modifies `blocks, `rooms
      ensures Outcome(Snapshot(), reply) == UnblockUser(old(Snapshot()), userId, address, requestAddress)
      ensures UnblockMeans(old(Snapshot()), Outcome(Snapshot(), reply), userId, address, requestAddress)
    {
      UnblockIsMeant(Snapshot(), userId, address, requestAddress);
      var existing := FindBlock(blocks, userId, address, true);
      if existing.None? {
        return Accepted;
      }
      var committed := blocks;
      blocks := blocks[existing.value := blocks[existing.value].(active := false)];
      var opposite := FindBlock(committed, committed[existing.value].blockedUserId, requestAddress, true);
      if opposite.None? {
        UpdatePeerRoomStatus(userId, address, Deployed);
      }
      reply := Accepted;
    }

    method FindOrAddSingleChatRoom(caller: Party, setup: Setup, address: Address, networkId: NetworkId)
      returns (reply: RoomReply)
      modifies `rooms
      ensures (Snapshot(), reply) == FindOrAddRoom(old(Snapshot()), caller, setup, address, networkId)
      ensures OpenMeans(old(Snapshot()), Snapshot(), reply, caller, setup, address, networkId)
    {
      OpenIsMeant(Snapshot(), caller, setup, address, networkId);
      if BlocksHolder(Snapshot(), caller.userId, address) {
        return NoRoom(UserBlocked);
      }
      var problem := Check(setup);
      if problem.Some? {
        return NoRoom(problem.value);
      }
      var found := FindRoom(rooms, caller.address, address, networkId);
      if found.Some? {
        return Room(found.value);
      }
      if address !in wallets {
        return NoRoom(PeerNotFound);
      }
      reply := Room(|rooms|);
      rooms := rooms + [PeerRoom(networkId, Deployed, caller, Party(wallets[address], address))];
    }

    method Send(userId: UserId, setup: Setup, roomId: nat, typeValid: bool, canSend: bool) returns (reply: Reply)
      modifies `messages
      ensures Outcome(Snapshot(), reply) == SendMessage(old(Snapshot()), userId, setup, roomId, typeValid, canSend)
      ensures SendMeans(old(Snapshot()), Outcome(Snapshot(), reply), userId, setup, roomId, typeValid, canSend)
    {
      SendIsMeant(Snapshot(), userId, setup, roomId, typeValid, canSend);
      var problem := Check(setup);
      if problem.Some? {
        return Refused(problem.value);
      }
      var closed := Gate(Snapshot(), roomId);
      if closed.Some? {
        return Refused(closed.value);
      }
      if !HasMember(rooms[roomId], userId) {
        return Refused(NotJoined);
      }
      if !typeValid {
        return Refused(InvalidInput);
      }
      messages := messages + [Message(roomId, userId, InProgress)];
      reply := if canSend then Accepted else Refused(NetworkMismatch);
    }

    method Resend(userId: UserId, setup: Setup, messageId: nat, canSend: bool) returns (reply: Reply)
      modifies `messages
      ensures Outcome(Snapshot(), reply) == ResendMessage(old(Snapshot()), userId, setup, messageId, canSend)
      ensures ResendMeans(old(Snapshot()), Outcome(Snapshot(), reply), userId, setup, messageId, canSend)
    {
      ResendIsMeant(Snapshot(), userId, setup, messageId, canSend);
      var problem := Check(setup);
      if problem.Some? {
        return Refused(problem.value);
      }
      if messageId >= |messages| {
        return Refused(MessageNotFound);
      }
      var message := messages[messageId];
      if message.status != Failed {
        return Refused(MessageNotFailed);
      }
      if message.userId != userId {
        return Refused(NotYourMessage);
      }
      var closed := Gate(Snapshot(), message.roomId);
      if closed.Some? {
        return Refused(closed.value);
      }
      messages := messages[messageId := message.(status := InProgress)];
      reply := if canSend then Accepted else Refused(NetworkMismatch);
    }

    method RedPacket(userId: UserId, setup: Setup, roomId: nat, toAddress: Address, inputValid: bool, canSend: bool)
      returns (reply: Reply)
      modifies `messages
      ensures Outcome(Snapshot(), reply) ==
              SendRedPacket(old(Snapshot()), userId, setup, roomId, toAddress, inputValid, canSend)
      ensures RedPacketMeans(old(Snapshot()), Outcome(Snapshot(), reply), userId, setup, roomId,
                             toAddress, inputValid, canSend)
    {
      RedPacketIsMeant(Snapshot(), userId, setup, roomId, toAddress, inputValid, canSend);
      var problem := Check(setup);
      if problem.Some? {
        return Refused(problem.value);
      }
      var closed := Gate(Snapshot(), roomId);
      if closed.Some? {
        return Refused(closed.value);
      }
      if !HasMember(rooms[roomId], userId) {
        return Refused(NotJoined);
      }
      if !inputValid {
        return Refused(InvalidInput);
      }
      if !HasAddress(rooms[roomId], toAddress) {
        return Refused(ReceiverNotMember);
      }
      messages := messages + [Message(roomId, userId, InProgress)];
      reply := if canSend then Accepted else Refused(NetworkMismatch);
    }

    method CreateFileMessage(userId: UserId, setup: Setup, roomId: nat, networkUsed: bool) returns (reply: Reply)
      modifies `messages
      ensures Outcome(Snapshot(), reply) == SendFile(old(Snapshot()), userId, setup, roomId, networkUsed)
      ensures FileMeans(old(Snapshot()), Outcome(Snapshot(), reply), userId, setup, roomId, networkUsed)
    {
      FileIsMeant(Snapshot(), userId, setup, roomId, networkUsed);
      var problem := Check(setup);
      if problem.Some? {
        return Refused(problem.value);
      }
      if roomId >= |rooms| {
        return Refused(NullDereference);
      }
      if rooms[roomId].status != Deployed {
        return Refused(RoomNotDeployed);
      }
      if !networkUsed {
        return Refused(NetworkMismatch);
      }
      if !HasMember(rooms[roomId], userId) {
        return Refused(NotJoined);
      }
      messages := messages + [Message(roomId, userId, InProgress)];
      reply := Accepted;
    }
  }
}
