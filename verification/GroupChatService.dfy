/** The services as they run: methods that change the tables in place, each proved to make exactly
    the transition of module GroupTables. */
module GroupChatService {
  import opened Wrappers
  import opened GroupTables
  import opened GroupInvariants
  import opened GroupReplies

  /** The table after one addition, run to its end. */
  function AddRow(rows: seq<MemberRow>, wallets: map<Address, UserId>, roomId: RoomId, a: Address): seq<MemberRow> {
    if HasActive(rows, roomId, a) || a !in wallets then rows
    else rows + [MemberRow(roomId, wallets[a], a, Member, Invited)]
  }

  /** The state of the additions after those for `added`. */
  ghost predicate AddedSoFar(before: seq<MemberRow>, rows: seq<MemberRow>, wallets: map<Address, UserId>,
                             roomId: RoomId, added: seq<Address>, allAdded: bool)
  {
    && rows == before + InvitedRows(wallets, roomId, Firsts(added))
    && (allAdded <==> AllNew(wallets, added))
  }

  /** Every address is registered, and none is repeated. */
  ghost predicate AllNew(wallets: map<Address, UserId>, addresses: seq<Address>) {
    Distinct(addresses) && forall a :: a in addresses ==> a in wallets
  }

  /** An address is active exactly when it is a registered one among those added. */
  lemma ActiveAfter(rows: seq<MemberRow>, wallets: map<Address, UserId>, roomId: RoomId, added: seq<Address>,
                    a: Address)
    requires !HasActive(rows, roomId, a)
    ensures HasActive(rows + InvitedRows(wallets, roomId, added), roomId, a) <==> a in added && a in wallets
  {
    if a in added && a in wallets {
      assert MemberRow(roomId, wallets[a], a, Member, Invited) in rows + InvitedRows(wallets, roomId, added);
    }
  }

  lemma InvitedNext(wallets: map<Address, UserId>, roomId: RoomId, front: seq<Address>, a: Address)
    ensures InvitedRows(wallets, roomId, front + [a]) ==
            InvitedRows(wallets, roomId, front) +
            if a in wallets then [MemberRow(roomId, wallets[a], a, Member, Invited)] else []
  {
    assert (front + [a])[..|front|] == front;
  }

  lemma FirstsNext(front: seq<Address>, a: Address)
    ensures Firsts(front + [a]) == if a in front then Firsts(front) else Firsts(front) + [a]
  {
    assert (front + [a])[..|front|] == front;
  }

  lemma DistinctNext(front: seq<Address>, a: Address)
    ensures Distinct(front + [a]) <==> Distinct(front) && a !in front
  {
    var all := front + [a];
    assert forall i :: 0 <= i < |front| ==> all[i] == front[i];
    if a in front {
      var i :| 0 <= i < |front| && front[i] == a;
      assert all[i] == all[|front|];
    }
  }

  lemma AllNewNext(wallets: map<Address, UserId>, front: seq<Address>, a: Address)
    ensures AllNew(wallets, front + [a]) <==> AllNew(wallets, front) && a !in front && a in wallets
  {
    DistinctNext(front, a);
    assert forall x :: x in front + [a] <==> x in front || x == a;
  }

  lemma RowsNext(before: seq<MemberRow>, wallets: map<Address, UserId>, roomId: RoomId, added: seq<Address>, a: Address)
    requires !HasActive(before, roomId, a)
    ensures before + InvitedRows(wallets, roomId, Firsts(added + [a])) ==
            AddRow(before + InvitedRows(wallets, roomId, Firsts(added)), wallets, roomId, a)
  {
    ActiveAfter(before, wallets, roomId, Firsts(added), a);
    FirstsNext(added, a);
    if a !in added {
      InvitedNext(wallets, roomId, Firsts(added), a);
      Regrouped(before, InvitedRows(wallets, roomId, Firsts(added)),
                if a in wallets then [MemberRow(roomId, wallets[a], a, Member, Invited)] else []);
    }
  }

  lemma Regrouped(a: seq<MemberRow>, b: seq<MemberRow>, c: seq<MemberRow>)
    ensures a + (b + c) == a + b + c && a + b + [] == a + b
  {
  }

  lemma AddedNext(before: seq<MemberRow>, rows: seq<MemberRow>, wallets: map<Address, UserId>, roomId: RoomId,
                  added: seq<Address>, allAdded: bool, a: Address)
    requires AddedSoFar(before, rows, wallets, roomId, added, allAdded) && !HasActive(before, roomId, a)
    ensures AddedSoFar(before, AddRow(rows, wallets, roomId, a), wallets, roomId, added + [a],
                       allAdded && !HasActive(rows, roomId, a) && a in wallets)
  {
    RowsNext(before, wallets, roomId, added, a);
    ActiveAfter(before, wallets, roomId, Firsts(added), a);
    AllNewNext(wallets, added, a);
  }

  /** What the additions come to after the checks. */
  lemma AdditionsMean(t: Tables, u: Tables, userId: UserId, roomId: RoomId, addresses: seq<Address>, allAdded: bool,
                      reply: Reply)
    requires PassesChecks(t, userId, roomId, addresses)
    requires u == t.(members := u.members) && AddedSoFar(t.members, u.members, t.wallets, roomId, addresses, allAdded)
    requires reply == Accepted <==> allAdded
    ensures AddMeans(t, Outcome(u, reply), userId, roomId, addresses)
  {
    SomeActiveIff(t, roomId, addresses);
    if Inv(t) {
      FirstsKeepInv(t, userId, roomId, addresses);
    }
  }

  lemma AdditionsAgree(t: Tables, u: Tables, userId: UserId, roomId: RoomId, addresses: seq<Address>, allAdded: bool)
    requires PassesChecks(t, userId, roomId, addresses) && Distinct(addresses)
    requires u == t.(members := u.members) && AddedSoFar(t.members, u.members, t.wallets, roomId, addresses, allAdded)
    ensures Outcome(u, if allAdded then Accepted else Refused(NotRegistered)) ==
            AddMembers(t, userId, roomId, addresses)
  {
    FirstsOfDistinct(addresses);
  }

  class GroupChat {
    var members: seq<MemberRow>
    var notis: seq<Notification>
    var rooms: nat
    var now: nat
    var wallets: map<Address, UserId>

    function Snapshot(): Tables
      reads this
    {
      Tables(members, notis, rooms, now, wallets)
    }

    constructor ()
      ensures Snapshot() == EMPTY_TABLES
    {
      members, notis, rooms, now, wallets := [], [], 0, 0, map[];
    }

    // ---------------------------------------------------------------- the lock

    method CheckProcessingAddresses(roomId: RoomId, addresses: seq<Address>) returns (processing: bool)
      ensures processing == AnyBusy(Snapshot(), roomId, addresses)
    {
      var flags: seq<bool> := [];
      for i := 0 to |addresses|
        invariant |flags| == i
        invariant forall k :: 0 <= k < i ==> flags[k] == Busy(Snapshot(), roomId, addresses[k])
      {
        flags := flags + [Busy(Snapshot(), roomId, addresses[i])];
      }
      processing := true in flags;
    }

    method CreateNotification(roomId: RoomId, address: Address, job: Job)
      modifies `notis
      ensures notis == old(notis) + [Notification(roomId, address, job, InProgress, now)]
    {
      notis := notis + [Notification(roomId, address, job, InProgress, now)];
    }

    method SendChatQueueData(job: Job, roomId: RoomId, fromAddress: Address, toAddresses: seq<Address>, canSend: bool)
      returns (reply: Reply)
      modifies `notis
      ensures Outcome(Snapshot(), reply) == Enqueue(old(Snapshot()), job, roomId, fromAddress, toAddresses, canSend)
    {
      if !canSend {
        return Refused(NetworkMismatch);
      }
      if job == LeaveRoomJob {
        CreateNotification(roomId, fromAddress, job);
      } else if job != CreateGroupChatJob && job != ChangeGroupNameJob {
        ghost var locks := LockRows(job, roomId, toAddresses, now);
        for i := 0 to |toAddresses|
          invariant notis == old(notis) + locks[..i]
        {
          CreateNotification(roomId, toAddresses[i], job);
        }
      }
      reply := Accepted;
    }

    // ---------------------------------------------------------------- requests by the member

    method Join(userId: UserId, roomId: RoomId, canSend: bool) returns (reply: Reply)
      modifies `members, `notis
      ensures Outcome(Snapshot(), reply) == JoinRoom(old(Snapshot()), userId, roomId, canSend)
      ensures JoinMeans(old(Snapshot()), Outcome(Snapshot(), reply), userId, roomId, canSend)
    {
      JoinIsMeant(Snapshot(), userId, roomId, canSend);
      var invited := FindOne(members, Where(roomId, Some(userId), Some(Invited), None));
      if invited.None? {
        return Refused(NotInvited);
      }
      var address := members[invited.value].address;
      if Busy(Snapshot(), roomId, address) {
        return Refused(LockedByProgress);
      }
      members := members[invited.value := members[invited.value].(status := PendingApproval)];
      var owner := FindOne(members, Where(roomId, None, None, Some(Owner)));
      if owner.None? {
        return Accepted;
      }
      reply := SendChatQueueData(AcceptJoinGroupJob, roomId, members[owner.value].address, [address], canSend);
    }

    method Leave(userId: UserId, roomId: RoomId, canSend: bool) returns (reply: Reply)
      modifies `notis
      ensures Outcome(Snapshot(), reply) == LeaveRoom(old(Snapshot()), userId, roomId, canSend)
      ensures LeaveMeans(old(Snapshot()), Outcome(Snapshot(), reply), userId, roomId, canSend)
    {
      LeaveIsMeant(Snapshot(), userId, roomId, canSend);
      var joined := FindOne(members, Where(roomId, Some(userId), Some(Joined), None));
      if joined.None? {
        return Refused(NotInRoom);
      }
      var address := members[joined.value].address;
      if Busy(Snapshot(), roomId, address) {
        return Refused(LockedByProgress);
      }
      reply := SendChatQueueData(LeaveRoomJob, roomId, address, [address], canSend);
    }

    method Reject(userId: UserId, roomId: RoomId) returns (reply: Reply)
      modifies `members
      ensures Outcome(Snapshot(), reply) == RejectInvitation(old(Snapshot()), userId, roomId)
      ensures RejectMeans(old(Snapshot()), Outcome(Snapshot(), reply), userId, roomId)
    {
      RejectIsMeant(Snapshot(), userId, roomId);
      var invited := FindOne(members, Where(roomId, Some(userId), Some(Invited), None));
      if invited.None? {
        return Refused(NotInvited);
      }
      if Busy(Snapshot(), roomId, members[invited.value].address) {
        return Refused(LockedByProgress);
      }
      members := members[invited.value := members[invited.value].(status := Cancel)];
      reply := Accepted;
    }

    // ---------------------------------------------------------------- requests by owners and admins

    method UpdateStatus(ownerId: UserId, memberId: UserId, roomId: RoomId, oldStatus: MemberStatus,
                        newStatus: MemberStatus)
      returns (reply: Reply)
      modifies `members
      ensures Outcome(Snapshot(), reply) ==
              UpdateMemberStatus(old(Snapshot()), ownerId, memberId, roomId, oldStatus, newStatus)
      ensures UpdateMeans(old(Snapshot()), Outcome(Snapshot(), reply), ownerId, memberId, roomId, oldStatus, newStatus)
    {
      UpdateIsMeant(Snapshot(), ownerId, memberId, roomId, oldStatus, newStatus);
      if !IsOwnerOrAdmin(Snapshot(), ownerId, roomId) {
        return Refused(NoPermission);
      }
      var member := FindOne(members, Where(roomId, Some(memberId), Some(oldStatus), None));
      if member.None? {
        return Refused(NotMember);
      }
      if Busy(Snapshot(), roomId, members[member.value].address) {
        return Refused(LockedByProgress);
      }
      members := members[member.value := members[member.value].(status := newStatus)];
      reply := Accepted;
    }

    method CancelInvite(userId: UserId, invitedId: UserId, roomId: RoomId) returns (reply: Reply)
      modifies `members
      ensures Outcome(Snapshot(), reply) == CancelInviteMember(old(Snapshot()), userId, invitedId, roomId)
      ensures UpdateMeans(old(Snapshot()), Outcome(Snapshot(), reply), userId, invitedId, roomId, Invited, Out)
    {
      reply := UpdateStatus(userId, invitedId, roomId, Invited, Out);
    }

    method Approve(userId: UserId, roomId: RoomId, addresses: seq<Address>, canSend: bool) returns (reply: Reply)
      modifies `notis
      ensures Outcome(Snapshot(), reply) == ApproveMember(old(Snapshot()), userId, roomId, addresses, canSend)
      ensures ApproveMeans(old(Snapshot()), Outcome(Snapshot(), reply), userId, roomId, addresses, canSend)
    {
      ApproveIsMeant(Snapshot(), userId, roomId, addresses, canSend);
      var approver := FindJoined(Snapshot(), userId, roomId);
      if approver.None? {
        return Refused(NullDereference);
      }
      if members[approver.value].role == Member {
        return Refused(NoPermission);
      }
      var processing := CheckProcessingAddresses(roomId, addresses);
      if processing {
        return Refused(LockedByProgress);
      }
      reply := SendChatQueueData(AcceptJoinGroupJob, roomId, members[approver.value].address, addresses, canSend);
    }

    /** The loop over the rows of a removal. */
    method MoveOut(roomId: RoomId, addresses: seq<Address>)
      modifies `members
      ensures members == RemoveUninvolved(old(members), roomId, addresses)
    {
      var before := members;
      for i := 0 to |before|
        invariant |members| == |before|
        invariant forall k :: 0 <= k < i ==> members[k] == RemoveUninvolved(before, roomId, addresses)[k]
        invariant forall k :: i <= k < |before| ==> members[k] == before[k]
      {
        if IsRemovable(before[i], roomId, addresses) {
          members := members[i := members[i].(status := Out)];
        }
      }
    }

    method Remove(userId: UserId, roomId: RoomId, addresses: seq<Address>, canSend: bool) returns (reply: Reply)
      modifies `members, `notis
      ensures Outcome(Snapshot(), reply) == RemoveMembers(old(Snapshot()), userId, roomId, addresses, canSend)
      ensures RemoveMeans(old(Snapshot()), Outcome(Snapshot(), reply), userId, roomId, addresses, canSend)
    {
      RemoveIsMeant(Snapshot(), userId, roomId, addresses, canSend);
      if !IsOwnerOrAdmin(Snapshot(), userId, roomId) {
        return Refused(NoPermission);
      }
      var remover := FindJoined(Snapshot(), userId, roomId);
      var processing := CheckProcessingAddresses(roomId, addresses);
      if processing {
        return Refused(LockedByProgress);
      }
      var joined := JoinedAddresses(members, roomId, addresses);
      var fromAddress := if remover.Some? then members[remover.value].address else "";
      MoveOut(roomId, addresses);
      if |joined| == 0 {
        return Accepted;
      }
      if remover.None? {
        return Refused(NullDereference);
      }
      reply := SendChatQueueData(RemoveMembersJob, roomId, fromAddress, joined, canSend);
    }

    /** One of the concurrent additions, run to its end. */
    method AddMember(roomId: RoomId, address: Address) returns (ok: bool)
      modifies `members
      ensures members == AddRow(old(members), wallets, roomId, address)
      ensures ok == (!HasActive(old(members), roomId, address) && address in wallets)
    {
      if HasActive(members, roomId, address) || address !in wallets {
        return false;
      }
      members := members + [MemberRow(roomId, wallets[address], address, Member, Invited)];
      ok := true;
    }

    /** The concurrent additions one after the other. */
    method AddEach(roomId: RoomId, addresses: seq<Address>) returns (allAdded: bool)
      requires forall a :: a in addresses ==> !HasActive(members, roomId, a)
      modifies `members
      ensures AddedSoFar(old(members), members, wallets, roomId, addresses, allAdded)
    {
      allAdded := true;
      for i := 0 to |addresses|
        invariant AddedSoFar(old(members), members, wallets, roomId, addresses[..i], allAdded)
      {
        AddedNext(old(members), members, wallets, roomId, addresses[..i], allAdded, addresses[i]);
        assert addresses[..i + 1] == addresses[..i] + [addresses[i]];
        var ok := AddMember(roomId, addresses[i]);
        allAdded := allAdded && ok;
      }
      assert addresses[..|addresses|] == addresses;
    }

    /** The pre-checks in order, then the additions; when both an unregistered and a repeated address are
        listed, the refusal names the former. */
    method AddMemberList(userId: UserId, roomId: RoomId, addresses: seq<Address>) returns (reply: Reply)
      modifies `members
      ensures AddMeans(old(Snapshot()), Outcome(Snapshot(), reply), userId, roomId, addresses)
      ensures Distinct(addresses) ==>
                Outcome(Snapshot(), reply) == AddMembers(old(Snapshot()), userId, roomId, addresses)
    {
      JoinedAsIff(Snapshot(), userId, roomId);
      SomeBusyIff(Snapshot(), roomId, addresses);
      SomeActiveIff(Snapshot(), roomId, addresses);
      if |addresses| > MAX_MEMBER_PER_GROUP || ActiveCount(members, roomId) + |addresses| > MAX_MEMBER_PER_GROUP {
        return Refused(GroupFull);
      }
      var caller := FindJoined(Snapshot(), userId, roomId);
      if caller.None? {
        return Refused(NullDereference);
      }
      if members[caller.value].role != Owner {
        return Refused(NoPermission);
      }
      if exists a | a in addresses :: HasActive(members, roomId, a) {
        return Refused(AlreadyMember);
      }
      var processing := CheckProcessingAddresses(roomId, addresses);
      if processing {
        return Refused(LockedByProgress);
      }
      ghost var t := Snapshot();
      assert PassesChecks(t, userId, roomId, addresses);
      var allAdded := AddEach(roomId, addresses);
      reply := if allAdded then Accepted
               else Refused(if exists a | a in addresses :: a !in wallets then NotRegistered else AlreadyMember);
      AdditionsMean(t, Snapshot(), userId, roomId, addresses, allAdded, reply);
      if Distinct(addresses) {
        AdditionsAgree(t, Snapshot(), userId, roomId, addresses, allAdded);
      }
    }

    method EditRole(userId: UserId, roomId: RoomId, memberIds: seq<UserId>, role: Role, canSend: bool)
      returns (reply: Reply)
      modifies `notis
      ensures Outcome(Snapshot(), reply) == EditMemberRole(old(Snapshot()), userId, roomId, memberIds, role, canSend)
      ensures EditMeans(old(Snapshot()), Outcome(Snapshot(), reply), userId, roomId, memberIds, role, canSend)
    {
      EditIsMeant(Snapshot(), userId, roomId, memberIds, role, canSend);
      var owner := FindJoined(Snapshot(), userId, roomId);
      if owner.None? || members[owner.value].role != Owner {
        return Refused(NoPermission);
      }
      var targets := JoinedOf(members, roomId, memberIds);
      if HasMixedRoles(targets) {
        return Refused(MixedRoles);
      }
      var processing := CheckProcessingAddresses(roomId, AddressesOf(targets));
      if processing {
        return Refused(LockedByProgress);
      }
      if (|targets| > 0 && role == targets[0].role) || role == Owner {
        return Accepted;
      }
      reply := SendChatQueueData(if role == Admin then SetAdminJob else RemoveAdminJob, roomId,
                                 members[owner.value].address, AddressesOf(targets), canSend);
    }

    method CreateMember(roomId: RoomId, address: Address)
      modifies `members
      ensures members == old(members) +
                if address in wallets then [MemberRow(roomId, wallets[address], address, Member, Invited)] else []
    {
      if address in wallets {
        members := members + [MemberRow(roomId, wallets[address], address, Member, Invited)];
      }
    }

    method CreateMembers(roomId: RoomId, addresses: seq<Address>)
      modifies `members
      ensures members == old(members) + InvitedRows(wallets, roomId, addresses)
    {
      for i := 0 to |addresses|
        invariant members == old(members) + InvitedRows(wallets, roomId, addresses[..i])
      {
        InvitedNext(wallets, roomId, addresses[..i], addresses[i]);
        assert addresses[..i + 1] == addresses[..i] + [addresses[i]];
        CreateMember(roomId, addresses[i]);
      }
      assert addresses[..|addresses|] == addresses;
    }

    method AddGroupChatRoom(userId: UserId, own: Address, addresses: seq<Address>, canSend: bool) returns (reply: Reply)
      modifies `members, `rooms, `notis
      ensures Outcome(Snapshot(), reply) == CreateGroup(old(Snapshot()), userId, own, addresses, canSend)
      ensures CreateMeans(old(Snapshot()), Outcome(Snapshot(), reply), userId, own, addresses, canSend)
    {
      CreateIsMeant(Snapshot(), userId, own, addresses, canSend);
      if |addresses| > MAX_MEMBER_PER_GROUP {
        return Refused(GroupFull);
      }
      var invited := Others(addresses, own);
      if |invited| == 0 {
        return Refused(NoOtherMember);
      }
      var roomId := rooms;
      rooms := rooms + 1;
      members := members + [MemberRow(roomId, userId, own, Owner, Joined)];
      CreateMembers(roomId, invited);
      reply := SendChatQueueData(CreateGroupChatJob, roomId, own, [], canSend);
    }
  }
}
