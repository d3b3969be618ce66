/** Blocking results over runs: blocked rooms and active blocks agree, blocked rooms accept nothing,
    and each pair has one room per network. */
module BlockProtocol {
  import opened Wrappers
  import opened BlockTables

  // ------------------------------------------------------------------ the invariant

  ghost predicate OneWalletPerUser(wallets: map<Address, UserId>) {
    forall a, b :: a in wallets && b in wallets && wallets[a] == wallets[b] ==> a == b
  }

  /** Each (user, blocked address) has at most one block row, and rows name the holder of the address. */
  ghost predicate BlockRowsUnique(t: Tables) {
    && (forall i, j :: 0 <= i < j < |t.blocks| ==> !IsRow(t.blocks[j], t.blocks[i].userId, t.blocks[i].blockedAddress))
    && (forall i :: 0 <= i < |t.blocks| ==> IsHolder(t, Party(t.blocks[i].blockedUserId, t.blocks[i].blockedAddress)))
  }

  ghost predicate PartiesHold(t: Tables) {
    forall r :: 0 <= r < |t.rooms| ==>
      IsHolder(t, t.rooms[r].owner) && IsHolder(t, t.rooms[r].peer) && t.rooms[r].owner != t.rooms[r].peer
  }

  predicate SamePair(r: PeerRoom, s: PeerRoom) {
    (r.owner == s.owner && r.peer == s.peer) || (r.owner == s.peer && r.peer == s.owner)
  }

  ghost predicate OneRoomPerPair(rooms: seq<PeerRoom>) {
    forall i, j :: 0 <= i < j < |rooms| && rooms[i].networkId == rooms[j].networkId ==> !SamePair(rooms[i], rooms[j])
  }

  /** At least one member of the room blocks the other. */
  ghost predicate PairBlocked(t: Tables, room: PeerRoom) {
    Blocks(t.blocks, room.owner.userId, room.peer.address) || Blocks(t.blocks, room.peer.userId, room.owner.address)
  }

  ghost predicate BlockedHasReason(t: Tables) {
    forall r :: 0 <= r < |t.rooms| && t.rooms[r].status == Blocked ==> PairBlocked(t, t.rooms[r])
  }

  ghost predicate DeployedOrBlocked(rooms: seq<PeerRoom>) {
    forall r :: 0 <= r < |rooms| ==> rooms[r].status == Deployed || rooms[r].status == Blocked
  }

  ghost predicate Inv(t: Tables) {
    && OneWalletPerUser(t.wallets) && BlockRowsUnique(t) && PartiesHold(t)
    && OneRoomPerPair(t.rooms) && DeployedOrBlocked(t.rooms) && BlockedHasReason(t)
  }

  /** A room is blocked exactly when one of its members blocks the other. */
  ghost predicate Agrees(t: Tables, r: nat)
    requires r < |t.rooms|
  {
    t.rooms[r].status == Blocked <==> PairBlocked(t, t.rooms[r])
  }

  ghost predicate AllAgree(t: Tables) {
    forall r :: 0 <= r < |t.rooms| ==> Agrees(t, r)
  }

  // ------------------------------------------------------------------ block and unblock

  /** The rooms the status update selects are the caller's rooms with the holder of the address. */
  lemma SelectedRooms(t: Tables, room: PeerRoom, caller: Party, address: Address)
    requires OneWalletPerUser(t.wallets) && IsHolder(t, caller) && address != caller.address
    requires IsHolder(t, room.owner) && IsHolder(t, room.peer)
    ensures HasMember(room, caller.userId) && HasAddress(room, address) <==>
            (room.owner == caller && room.peer.address == address) ||
            (room.peer == caller && room.owner.address == address)
  {
  }

  /** Changing one direction's row changes no other direction. */
  lemma BlockActivates(t: Tables, userId: UserId, address: Address)
    requires BlockRowsUnique(t) && BlockUser(t, userId, address).reply == Accepted
    ensures var u := BlockUser(t, userId, address).after;
            forall v: UserId, a: Address :: Blocks(u.blocks, v, a) <==>
              Blocks(t.blocks, v, a) || (v == userId && a == address)
    ensures BlockRowsUnique(BlockUser(t, userId, address).after)
  {
    var u := BlockUser(t, userId, address).after;
    var existing := FindBlock(t.blocks, userId, address, false);
    var k := if existing.Some? then existing.value else |t.blocks|;
    assert u.blocks[k] in u.blocks;
    forall v: UserId, a: Address
      ensures Blocks(u.blocks, v, a) <==> Blocks(t.blocks, v, a) || (v == userId && a == address)
    {
      if Blocks(t.blocks, v, a) && !(v == userId && a == address) {
        var i :| 0 <= i < |t.blocks| && IsRow(t.blocks[i], v, a) && t.blocks[i].active;
        assert u.blocks[i] == t.blocks[i];
      }
    }
  }

  lemma UnblockDeactivates(t: Tables, userId: UserId, address: Address, requestAddress: Address)
    requires BlockRowsUnique(t) && FindBlock(t.blocks, userId, address, true).Some?
    ensures var u := UnblockUser(t, userId, address, requestAddress).after;
            forall v: UserId, a: Address :: Blocks(u.blocks, v, a) <==>
              Blocks(t.blocks, v, a) && !(v == userId && a == address)
    ensures BlockRowsUnique(UnblockUser(t, userId, address, requestAddress).after)
  {
    var u := UnblockUser(t, userId, address, requestAddress).after;
    var k := FindBlock(t.blocks, userId, address, true).value;
    forall v: UserId, a: Address
      ensures Blocks(u.blocks, v, a) <==> Blocks(t.blocks, v, a) && !(v == userId && a == address)
    {
      if Blocks(u.blocks, v, a) {
        var i :| 0 <= i < |u.blocks| && IsRow(u.blocks[i], v, a) && u.blocks[i].active;
        assert u.blocks[i] == t.blocks[i] && t.blocks[i] in t.blocks;
      }
      if Blocks(t.blocks, v, a) && !(v == userId && a == address) {
        var i :| 0 <= i < |t.blocks| && IsRow(t.blocks[i], v, a) && t.blocks[i].active;
        assert u.blocks[i] == t.blocks[i];
      }
    }
  }

  lemma BlockKeepsInv(t: Tables, caller: Party, address: Address)
    requires Inv(t) && IsHolder(t, caller) && address != caller.address
    ensures Inv(BlockUser(t, caller.userId, address).after)
    ensures AllAgree(t) ==> AllAgree(BlockUser(t, caller.userId, address).after)
  {
    var u := BlockUser(t, caller.userId, address).after;
    if BlockUser(t, caller.userId, address).reply == Accepted {
      BlockActivates(t, caller.userId, address);
      forall r | 0 <= r < |t.rooms|
        ensures (u.rooms[r].status == Blocked ==> PairBlocked(u, u.rooms[r])) && (Agrees(t, r) ==> Agrees(u, r))
      {
        SelectedRooms(t, t.rooms[r], caller, address);
      }
    }
  }

  lemma UnblockRoomAgrees(t: Tables, caller: Party, address: Address, r: nat)
    requires Inv(t) && IsHolder(t, caller) && address != caller.address
    requires r < |t.rooms| && FindBlock(t.blocks, caller.userId, address, true).Some?
    ensures var u := UnblockUser(t, caller.userId, address, caller.address).after;
            (u.rooms[r].status == Blocked ==> PairBlocked(u, u.rooms[r])) && (Agrees(t, r) ==> Agrees(u, r))
  {
    var other := t.blocks[FindBlock(t.blocks, caller.userId, address, true).value].blockedUserId;
    UnblockDeactivates(t, caller.userId, address, caller.address);
    assert FindBlock(t.blocks, other, caller.address, true).Some? <==> Blocks(t.blocks, other, caller.address);
    SelectedRooms(t, t.rooms[r], caller, address);
  }

  lemma UnblockKeepsInv(t: Tables, caller: Party, address: Address)
    requires Inv(t) && IsHolder(t, caller) && address != caller.address
    ensures Inv(UnblockUser(t, caller.userId, address, caller.address).after)
    ensures AllAgree(t) ==> AllAgree(UnblockUser(t, caller.userId, address, caller.address).after)
  {
    var u := UnblockUser(t, caller.userId, address, caller.address).after;
    if FindBlock(t.blocks, caller.userId, address, true).Some? {
      UnblockDeactivates(t, caller.userId, address, caller.address);
      forall r | 0 <= r < |t.rooms|
        ensures (u.rooms[r].status == Blocked ==> PairBlocked(u, u.rooms[r])) && (Agrees(t, r) ==> Agrees(u, r))
      {
        UnblockRoomAgrees(t, caller, address, r);
      }
    }
  }

  // ------------------------------------------------------------------ opening rooms

  lemma BlocksHolderIff(t: Tables, userId: UserId, address: Address)
    requires OneWalletPerUser(t.wallets) && BlockRowsUnique(t)
    ensures BlocksHolder(t, userId, address) <==> Blocks(t.blocks, userId, address)
  {
    if Blocks(t.blocks, userId, address) {
      var i :| 0 <= i < |t.blocks| && IsRow(t.blocks[i], userId, address) && t.blocks[i].active;
      assert t.blocks[i] in t.blocks;
    }
    if BlocksHolder(t, userId, address) {
      var i :| 0 <= i < |t.blocks| && t.blocks[i].userId == userId && t.blocks[i].active &&
        t.blocks[i].blockedUserId == t.wallets[address];
      assert t.blocks[i].blockedAddress == address && t.blocks[i] in t.blocks;
    }
  }

  lemma OpenKeepsInv(t: Tables, caller: Party, setup: Setup, address: Address, networkId: NetworkId)
    requires Inv(t) && IsHolder(t, caller) && address != caller.address
    ensures Inv(FindOrAddRoom(t, caller, setup, address, networkId).0)
  {
  }

  /** A newly created room agrees with the blocks exactly when the other side does not block the caller:
      the code itself refuses only when the caller blocks the other side. */
  lemma CreationAgreesIff(t: Tables, caller: Party, setup: Setup, address: Address, networkId: NetworkId)
    requires Inv(t) && AllAgree(t) && IsHolder(t, caller) && address != caller.address
    requires FindOrAddRoom(t, caller, setup, address, networkId).0 != t
    ensures AllAgree(FindOrAddRoom(t, caller, setup, address, networkId).0)
            <==> !Blocks(t.blocks, t.wallets[address], caller.address)
  {
    var u := FindOrAddRoom(t, caller, setup, address, networkId).0;
    BlocksHolderIff(t, caller.userId, address);
    assert forall r :: 0 <= r < |t.rooms| ==> Agrees(u, r) == Agrees(t, r);
    assert Agrees(u, |t.rooms|) <==> !PairBlocked(u, u.rooms[|t.rooms|]);
  }

  const ALICE := Party(1, "a")
  const BOB := Party(2, "b")
  const BEFORE_OPENING := Tables(map["a" := 1, "b" := 2], [BlockRow(2, 1, "a", true)], [], [])

  lemma BeforeOpening()
    ensures Next(Next(Next(EMPTY_TABLES, NewWallet("a", 1)), NewWallet("b", 2)), Block(BOB, "a")) == BEFORE_OPENING
    ensures Admissible(Next(Next(EMPTY_TABLES, NewWallet("a", 1)), NewWallet("b", 2)), Block(BOB, "a"))
  {
    var t1 := Next(EMPTY_TABLES, NewWallet("a", 1));
    assert t1 == Tables(map["a" := 1], [], [], []);
    var t2 := Next(t1, NewWallet("b", 2));
    assert t2 == Tables(map["a" := 1, "b" := 2], [], [], []);
  }

  /** The code can leave a deployed room beside an active block: Bob blocks Alice, then Alice opens a room. */
  lemma CreationCanDisagree()
    ensures var s := OpenRoom(ALICE, Setup(true, true, true), "b", 0);
            Admissible(BEFORE_OPENING, s) && AllAgree(BEFORE_OPENING) && !AllAgree(Next(BEFORE_OPENING, s))
  {
    var s := OpenRoom(ALICE, Setup(true, true, true), "b", 0);
    var u := Next(BEFORE_OPENING, s);
    assert BEFORE_OPENING.blocks[0] in BEFORE_OPENING.blocks;
    assert u.rooms == [PeerRoom(0, Deployed, ALICE, BOB)];
    assert !Agrees(u, 0);
  }

  // ------------------------------------------------------------------ every step, every run

  /** Sending, worker progress and new wallets change neither blocks nor rooms. */
  lemma OtherStepsKeepRooms(t: Tables, s: Step)
    requires !s.Block? && !s.Unblock? && !s.OpenRoom?
    ensures Next(t, s).blocks == t.blocks && Next(t, s).rooms == t.rooms
    ensures Next(t, s).wallets == t.wallets ||
            (s.NewWallet? && s.address !in t.wallets && s.userId !in t.wallets.Values &&
             Next(t, s).wallets == t.wallets[s.address := s.userId])
  {
  }

  lemma StepKeepsInv(t: Tables, s: Step)
    requires Inv(t) && Admissible(t, s)
    ensures Inv(Next(t, s))
    ensures AllAgree(t) && !s.OpenRoom? ==> AllAgree(Next(t, s))
  {
    match s
    case Block(caller, address) => BlockKeepsInv(t, caller, address);
    case Unblock(caller, address) => UnblockKeepsInv(t, caller, address);
    case OpenRoom(caller, setup, address, networkId) => OpenKeepsInv(t, caller, setup, address, networkId);
    case _ =>
      OtherStepsKeepRooms(t, s);
      assert forall r :: 0 <= r < |t.rooms| ==> Agrees(Next(t, s), r) == Agrees(t, r);
  }

  lemma {:induction false} RunKeepsInv(t: Tables, steps: seq<Step>)
    requires Inv(t) && AdmissibleRun(t, steps)
    ensures Inv(Run(t, steps))
    decreases |steps|
  {
    if |steps| > 0 {
      StepKeepsInv(t, steps[0]);
      RunKeepsInv(Next(t, steps[0]), steps[1..]);
    }
  }

  /** No room is created towards someone who blocks the caller. */
  ghost predicate NoBlockedCreation(t: Tables, steps: seq<Step>)
    requires Inv(t) && AdmissibleRun(t, steps)
    decreases |steps|
  {
    |steps| > 0 ==>
      var s, u := steps[0], Next(t, steps[0]);
      StepKeepsInv(t, s);
      && (s.OpenRoom? && u != t ==> s.address in t.wallets && !Blocks(t.blocks, t.wallets[s.address], s.caller.address))
      && NoBlockedCreation(u, steps[1..])
  }

  ghost predicate AgreesThroughout(t: Tables, steps: seq<Step>)
    decreases |steps|
  {
    AllAgree(t) && (|steps| > 0 ==> AgreesThroughout(Next(t, steps[0]), steps[1..]))
  }

  /** Throughout a run, a one-to-one room is blocked exactly when one side blocks the other, if and only
      if the run creates no room towards someone who blocks the caller. */
  lemma {:induction false} BlockAgreementIff(t: Tables, steps: seq<Step>)
    requires Inv(t) && AllAgree(t) && AdmissibleRun(t, steps)
    ensures AgreesThroughout(t, steps) <==> NoBlockedCreation(t, steps)
    decreases |steps|
  {
    if |steps| > 0 {
      var s, u := steps[0], Next(t, steps[0]);
      StepKeepsInv(t, s);
      if s.OpenRoom? && u != t {
        CreationAgreesIff(t, s.caller, s.setup, s.address, s.networkId);
      }
      if AllAgree(u) {
        BlockAgreementIff(u, steps[1..]);
      }
    }
  }

  // ------------------------------------------------------------------ blocked rooms accept nothing

  predicate SendsInto(t: Tables, s: Step, roomId: nat) {
    match s
    case Send(_, _, r, _, _) => r == roomId
    case RedPacket(_, _, r, _, _, _) => r == roomId
    case File(_, _, r, _) => r == roomId
    case Resend(_, _, id, _) => id < |t.messages| && t.messages[id].roomId == roomId
    case _ => false
  }

  /** Every attempt to send into the room during the run is refused and changes nothing. */
  ghost predicate AllRefused(t: Tables, steps: seq<Step>, roomId: nat)
    decreases |steps|
  {
    |steps| > 0 ==>
      && (SendsInto(t, steps[0], roomId) ==> Perform(t, steps[0]).reply.Refused? && Next(t, steps[0]) == t)
      && AllRefused(Next(t, steps[0]), steps[1..], roomId)
  }

  /** No step of the run is an unblock that leaves both directions of the room inactive. */
  ghost predicate NeverReleased(t: Tables, steps: seq<Step>, roomId: nat)
    requires roomId < |t.rooms|
    decreases |steps|
  {
    |steps| > 0 ==>
      var u := Next(t, steps[0]);
      && roomId < |u.rooms|
      && (steps[0].Unblock? ==> PairBlocked(u, u.rooms[roomId]))
      && NeverReleased(u, steps[1..], roomId)
  }

  lemma StepKeepsBlocked(t: Tables, s: Step, roomId: nat)
    requires Inv(t) && Admissible(t, s) && roomId < |t.rooms| && t.rooms[roomId].status == Blocked
    ensures roomId < |Next(t, s).rooms|
    ensures SamePair(Next(t, s).rooms[roomId], t.rooms[roomId])
    ensures Next(t, s).rooms[roomId].status == Blocked ||
            (s.Unblock? && !PairBlocked(Next(t, s), Next(t, s).rooms[roomId]))
  {
    if s.Unblock? {
      var existing := FindBlock(t.blocks, s.caller.userId, s.address, true);
      if existing.Some? {
        UnblockDeactivates(t, s.caller.userId, s.address, s.caller.address);
        SelectedRooms(t, t.rooms[roomId], s.caller, s.address);
      }
    }
  }

  /** From a blocked room on, nothing is accepted until an unblock leaves both directions inactive. */
  lemma {:induction false} GateOverTraces(t: Tables, steps: seq<Step>, roomId: nat)
    requires Inv(t) && AdmissibleRun(t, steps)
    requires roomId < |t.rooms| && t.rooms[roomId].status == Blocked && NeverReleased(t, steps, roomId)
    ensures AllRefused(t, steps, roomId)
    ensures roomId < |Run(t, steps).rooms| && Run(t, steps).rooms[roomId].status == Blocked
    decreases |steps|
  {
    if |steps| > 0 {
      StepKeepsInv(t, steps[0]);
      StepKeepsBlocked(t, steps[0], roomId);
      GateOverTraces(Next(t, steps[0]), steps[1..], roomId);
    }
  }

  /** A successful block blocks the pair's existing rooms, so the gate closes behind it. */
  lemma BlockClosesGate(t: Tables, caller: Party, address: Address, roomId: nat, steps: seq<Step>)
    requires Inv(t) && IsHolder(t, caller) && address != caller.address && roomId < |t.rooms|
    requires HasMember(t.rooms[roomId], caller.userId) && HasAddress(t.rooms[roomId], address)
    requires BlockUser(t, caller.userId, address).reply == Accepted
    requires var u := BlockUser(t, caller.userId, address).after;
             AdmissibleRun(u, steps) && NeverReleased(u, steps, roomId)
    ensures AllRefused(BlockUser(t, caller.userId, address).after, steps, roomId)
  {
    BlockKeepsInv(t, caller, address);
    GateOverTraces(BlockUser(t, caller.userId, address).after, steps, roomId);
  }

  /** The unblock that leaves both directions inactive reopens the room. */
  lemma LastUnblockReopens(t: Tables, caller: Party, address: Address, roomId: nat)
    requires Inv(t) && IsHolder(t, caller) && address != caller.address && roomId < |t.rooms|
    requires HasMember(t.rooms[roomId], caller.userId) && HasAddress(t.rooms[roomId], address)
    requires Blocks(t.blocks, caller.userId, address)
    ensures var u := UnblockUser(t, caller.userId, address, caller.address).after;
            u.rooms[roomId].status == Deployed || PairBlocked(u, u.rooms[roomId])
  {
    UnblockDeactivates(t, caller.userId, address, caller.address);
    SelectedRooms(t, t.rooms[roomId], caller, address);
    var row := t.blocks[FindBlock(t.blocks, caller.userId, address, true).value];
    assert FindBlock(t.blocks, row.blockedUserId, caller.address, true).Some? ==>
      Blocks(t.blocks, row.blockedUserId, caller.address);
  }

  // ------------------------------------------------------------------ one room per pair

  /** Once a pair has a room on a network, opening from either side returns it unless it is refused. */
  lemma PairFindsTheRoom(t: Tables, caller: Party, address: Address, setup: Setup, networkId: NetworkId, roomId: nat)
    requires Inv(t) && IsHolder(t, caller) && address != caller.address
    requires roomId < |t.rooms| && t.rooms[roomId].networkId == networkId
    requires HasAddress(t.rooms[roomId], caller.address) && HasAddress(t.rooms[roomId], address)
    ensures FindOrAddRoom(t, caller, setup, address, networkId) ==
            (t, if BlocksHolder(t, caller.userId, address) then NoRoom(UserBlocked)
                else if Check(setup).Some? then NoRoom(Check(setup).value)
                else Room(roomId))
  {
    var found := FindRoom(t.rooms, caller.address, address, networkId);
    assert found.Some?;
    if found.value != roomId {
      assert SamePair(t.rooms[found.value], t.rooms[roomId]);
    }
  }

  /** Every room stays, with its parties and its network. */
  ghost predicate RoomsStay(t: Tables, u: Tables) {
    |t.rooms| <= |u.rooms| && forall r :: 0 <= r < |t.rooms| ==> u.rooms[r] == t.rooms[r].(status := u.rooms[r].status)
  }

  lemma StepKeepsRooms(t: Tables, s: Step)
    ensures RoomsStay(t, Next(t, s))
  {
    if !s.Block? && !s.Unblock? && !s.OpenRoom? {
      OtherStepsKeepRooms(t, s);
    }
  }

  lemma {:induction false} RunKeepsRooms(t: Tables, steps: seq<Step>)
    ensures RoomsStay(t, Run(t, steps))
    decreases |steps|
  {
    if |steps| > 0 {
      var u, v := Next(t, steps[0]), Run(t, steps);
      StepKeepsRooms(t, steps[0]);
      RunKeepsRooms(u, steps[1..]);
      assert forall r :: 0 <= r < |t.rooms| ==> v.rooms[r] == u.rooms[r].(status := v.rooms[r].status);
    }
  }

  /** Over every run: the room that one call returns is the one that either side gets after any later run,
      unless that call is refused. */
  lemma {:induction false} EitherSideFindsTheRoom(before: seq<Step>, caller: Party, setup: Setup, address: Address,
                                                  networkId: NetworkId, later: seq<Step>, again: Party, setup2: Setup,
                                                  to: Address)
    requires AdmissibleRun(EMPTY_TABLES, before)
    requires IsHolder(Run(EMPTY_TABLES, before), caller) && address != caller.address
    requires FindOrAddRoom(Run(EMPTY_TABLES, before), caller, setup, address, networkId).1.Room?
    requires AdmissibleRun(FindOrAddRoom(Run(EMPTY_TABLES, before), caller, setup, address, networkId).0, later)
    requires (again.address == caller.address && to == address) || (again.address == address && to == caller.address)
    requires IsHolder(Run(FindOrAddRoom(Run(EMPTY_TABLES, before), caller, setup, address, networkId).0, later), again)
    ensures var (u, first) := FindOrAddRoom(Run(EMPTY_TABLES, before), caller, setup, address, networkId);
            var v := Run(u, later);
            FindOrAddRoom(v, again, setup2, to, networkId) ==
            (v, if BlocksHolder(v, again.userId, to) then NoRoom(UserBlocked)
                else if Check(setup2).Some? then NoRoom(Check(setup2).value)
                else first)
  {
    var t := Run(EMPTY_TABLES, before);
    RunKeepsInv(EMPTY_TABLES, before);
    OpenKeepsInv(t, caller, setup, address, networkId);
    var u, first := FindOrAddRoom(t, caller, setup, address, networkId).0,
      FindOrAddRoom(t, caller, setup, address, networkId).1;
    RunKeepsInv(u, later);
    RunKeepsRooms(u, later);
    PairFindsTheRoom(Run(u, later), again, to, setup2, networkId, first.id);
  }

  /** From the empty tables, every run leaves at most one room per pair and network, one block row per
      direction, and a reason behind every blocked room. */
  lemma ReachableStates(steps: seq<Step>)
    requires AdmissibleRun(EMPTY_TABLES, steps)
    ensures var t := Run(EMPTY_TABLES, steps);
            OneRoomPerPair(t.rooms) && BlockRowsUnique(t) && BlockedHasReason(t)
  {
    RunKeepsInv(EMPTY_TABLES, steps);
  }
}
