/** What each answer of a group request means to its caller: when it is given, which rows moved, and which
    addresses are locked for which job. Stated on the states before and after, not on how a request is
    served. */
module GroupReplies {
  import opened Wrappers
  import opened GroupTables
  import opened GroupInvariants

  /** From a state in which the invariant holds, it still does, and rows have only climbed. */
  ghost predicate KeepsInv(t: Tables, u: Tables) {
    Inv(t) ==> Inv(u) && Evolves(t, u)
  }

  // ------------------------------------------------------------------ rows of a user

  predicate IsRowOf(m: MemberRow, roomId: RoomId, userId: UserId, status: MemberStatus) {
    m.roomId == roomId && m.userId == userId && m.status == status
  }

  predicate HasRow(t: Tables, roomId: RoomId, userId: UserId, status: MemberStatus) {
    exists i :: 0 <= i < |t.members| && IsRowOf(t.members[i], roomId, userId, status)
  }

  /** Row `i` is the user's oldest row in the room with the status. */
  predicate IsOldest(t: Tables, i: nat, roomId: RoomId, userId: UserId, status: MemberStatus) {
    && i < |t.members| && IsRowOf(t.members[i], roomId, userId, status)
    && forall k :: 0 <= k < i ==> !IsRowOf(t.members[k], roomId, userId, status)
  }

  lemma FoundIsOldest(t: Tables, roomId: RoomId, userId: UserId, status: MemberStatus)
    ensures var found := FindOne(t.members, Where(roomId, Some(userId), Some(status), None));
            && (found.Some? <==> HasRow(t, roomId, userId, status))
            && forall i: nat :: found == Some(i) <==> IsOldest(t, i, roomId, userId, status)
  {
    var found := FindOne(t.members, Where(roomId, Some(userId), Some(status), None));
    assert forall i :: 0 <= i < |t.members| ==>
      Matches(t.members[i], Where(roomId, Some(userId), Some(status), None)) ==
        IsRowOf(t.members[i], roomId, userId, status);
    if found.Some? {
      assert IsRowOf(t.members[found.value], roomId, userId, status);
    }
  }

  /** The user's oldest row in the room, whatever its status, has the role of an admin or of the owner. */
  predicate Governs(t: Tables, userId: UserId, roomId: RoomId) {
    exists i :: 0 <= i < |t.members| && t.members[i].roomId == roomId && t.members[i].userId == userId &&
                t.members[i].role != Member &&
                forall k :: 0 <= k < i ==> t.members[k].roomId != roomId || t.members[k].userId != userId
  }

  lemma GovernsIff(t: Tables, userId: UserId, roomId: RoomId)
    ensures IsOwnerOrAdmin(t, userId, roomId) <==> Governs(t, userId, roomId)
  {
    var w := Where(roomId, Some(userId), None, None);
    var row := FindOne(t.members, w);
    assert forall i :: 0 <= i < |t.members| ==>
      (Matches(t.members[i], w) <==> t.members[i].roomId == roomId && t.members[i].userId == userId);
  }

  /** The user has joined the room, and the oldest such row has the role. */
  ghost predicate JoinedAs(t: Tables, userId: UserId, roomId: RoomId, role: Role) {
    exists i: nat :: IsOldest(t, i, roomId, userId, Joined) && t.members[i].role == role
  }

  lemma JoinedAsIff(t: Tables, userId: UserId, roomId: RoomId)
    ensures FindJoined(t, userId, roomId).Some? <==> HasRow(t, roomId, userId, Joined)
    ensures var joined := FindJoined(t, userId, roomId);
            forall role :: JoinedAs(t, userId, roomId, role) <==> joined.Some? && t.members[joined.value].role == role
  {
    FoundIsOldest(t, roomId, userId, Joined);
  }

  predicate HasOwner(t: Tables, roomId: RoomId) {
    exists i :: 0 <= i < |t.members| && t.members[i].roomId == roomId && t.members[i].role == Owner
  }

  lemma HasOwnerIff(t: Tables, roomId: RoomId)
    ensures FindOne(t.members, Where(roomId, None, None, Some(Owner))).Some? <==> HasOwner(t, roomId)
  {
    var w := Where(roomId, None, None, Some(Owner));
    assert forall i :: 0 <= i < |t.members| ==>
      (Matches(t.members[i], w) <==> t.members[i].roomId == roomId && t.members[i].role == Owner);
  }

  // ------------------------------------------------------------------ what a queued job locks

  /** One fresh lock of that job for each address, in order; nothing else is locked. */
  ghost predicate QueuedFor(t: Tables, u: Tables, job: Job, roomId: RoomId, addresses: seq<Address>) {
    && t.notis <= u.notis && |u.notis| == |t.notis| + |addresses| && u.now == t.now
    && (forall i :: 0 <= i < |addresses| ==>
          u.notis[|t.notis| + i] == Notification(roomId, addresses[i], job, InProgress, t.now))
    && LockedExactly(t, u, roomId, addresses)
  }

  /** The addresses are busy now, and otherwise those that were. */
  ghost predicate LockedExactly(t: Tables, u: Tables, roomId: RoomId, addresses: seq<Address>) {
    forall r: RoomId, a: Address :: Busy(u, r, a) <==> Busy(t, r, a) || (r == roomId && a in addresses)
  }

  predicate LocksName(locks: seq<Notification>, r: RoomId, a: Address) {
    exists k :: 0 <= k < |locks| && locks[k].roomId == r && locks[k].address == a
  }

  lemma BusyAfter(t: Tables, u: Tables, locks: seq<Notification>, r: RoomId, a: Address)
    requires u.now == t.now && u.notis == t.notis + locks
    requires forall k :: 0 <= k < |locks| ==> Live(locks[k], t.now)
    ensures Busy(u, r, a) <==> Busy(t, r, a) || LocksName(locks, r, a)
  {
    if Busy(t, r, a) {
      var n :| n in t.notis && n.roomId == r && n.address == a && Live(n, t.now);
      assert n in u.notis;
    }
    if LocksName(locks, r, a) {
      var k :| 0 <= k < |locks| && locks[k].roomId == r && locks[k].address == a;
      assert locks[k] in u.notis;
    }
  }

  lemma LocksNameIff(job: Job, roomId: RoomId, addresses: seq<Address>, now: nat, r: RoomId, a: Address)
    ensures LocksName(LockRows(job, roomId, addresses, now), r, a) <==> r == roomId && a in addresses
  {
    if r == roomId && a in addresses {
      var k :| 0 <= k < |addresses| && addresses[k] == a;
      assert LockRows(job, roomId, addresses, now)[k].address == a;
    }
  }

  lemma LocksExactly(t: Tables, u: Tables, job: Job, roomId: RoomId, addresses: seq<Address>)
    requires u.now == t.now && u.notis == t.notis + LockRows(job, roomId, addresses, t.now)
    ensures LockedExactly(t, u, roomId, addresses)
  {
    var locks := LockRows(job, roomId, addresses, t.now);
    forall r: RoomId, a: Address ensures Busy(u, r, a) <==> Busy(t, r, a) || (r == roomId && a in addresses) {
      BusyAfter(t, u, locks, r, a);
      LocksNameIff(job, roomId, addresses, t.now, r, a);
    }
  }

  lemma LocksHold(t: Tables, u: Tables, job: Job, roomId: RoomId, addresses: seq<Address>)
    requires u.now == t.now && u.notis == t.notis + LockRows(job, roomId, addresses, t.now)
    ensures QueuedFor(t, u, job, roomId, addresses)
  {
    LocksExactly(t, u, job, roomId, addresses);
  }

  /** The answer that the shared-network check decides, with what is queued if it passes. */
  ghost predicate Sent(t: Tables, o: Outcome, canSend: bool, job: Job, roomId: RoomId, addresses: seq<Address>) {
    if canSend then o.reply == Accepted && QueuedFor(t, o.after, job, roomId, addresses)
    else o.reply == Refused(NetworkMismatch) && o.after.notis == t.notis
  }

  lemma EnqueueIsSent(t: Tables, job: Job, roomId: RoomId, fromAddress: Address, toAddresses: seq<Address>,
                      canSend: bool)
    ensures Sent(t, Enqueue(t, job, roomId, fromAddress, toAddresses, canSend), canSend, job, roomId,
                 LockedBy(job, fromAddress, toAddresses))
  {
    if canSend {
      LocksHold(t, Enqueue(t, job, roomId, fromAddress, toAddresses, canSend).after, job, roomId,
                LockedBy(job, fromAddress, toAddresses));
    }
  }

  /** Row `i`, free until now, has the new status; no other row changed. */
  predicate Moved(t: Tables, u: Tables, i: nat, after: MemberStatus) {
    && i < |t.members| && u.members == t.members[i := t.members[i].(status := after)]
    && !Busy(t, t.members[i].roomId, t.members[i].address)
  }

  // ------------------------------------------------------------------ requests by the member

  /** For the oldest invited row: refused while its address is busy; else the row is pending, and with an owner
      in the room its address is locked for joining. A failed queue call leaves the row pending. */
  ghost predicate JoinMeans(t: Tables, o: Outcome, userId: UserId, roomId: RoomId, canSend: bool) {
    && KeepsInv(t, o.after)
    && (o.reply == Refused(NotInvited) <==> !HasRow(t, roomId, userId, Invited))
    && (o.reply == Refused(NotInvited) ==> o.after == t)
    && forall i: nat :: IsOldest(t, i, roomId, userId, Invited) ==>
         if Busy(t, roomId, t.members[i].address) then o == Outcome(t, Refused(LockedByProgress))
         else
           && Moved(t, o.after, i, PendingApproval)
           && if HasOwner(t, roomId) then Sent(t, o, canSend, AcceptJoinGroupJob, roomId, [t.members[i].address])
              else o.reply == Accepted && o.after.notis == t.notis
  }

  lemma JoinIsSent(t: Tables, i: nat, userId: UserId, roomId: RoomId, canSend: bool)
    requires IsOldest(t, i, roomId, userId, Invited) && !Busy(t, roomId, t.members[i].address)
    ensures var o := JoinRoom(t, userId, roomId, canSend);
            && Moved(t, o.after, i, PendingApproval)
            && if HasOwner(t, roomId) then Sent(t, o, canSend, AcceptJoinGroupJob, roomId, [t.members[i].address])
               else o.reply == Accepted && o.after.notis == t.notis
  {
    var o, t1 := JoinRoom(t, userId, roomId, canSend), SetStatus(t, i, PendingApproval);
    FoundIsOldest(t, roomId, userId, Invited);
    HasOwnerIff(t1, roomId);
    SameOwner(t, t1, roomId);
    if HasOwner(t, roomId) && canSend {
      LocksHold(t, o.after, AcceptJoinGroupJob, roomId, [t.members[i].address]);
    }
  }

  lemma SameOwner(t: Tables, u: Tables, roomId: RoomId)
    requires |t.members| == |u.members|
    requires forall i :: 0 <= i < |t.members| ==> u.members[i] == t.members[i].(status := u.members[i].status)
    ensures HasOwner(t, roomId) <==> HasOwner(u, roomId)
  {
    if HasOwner(t, roomId) {
      var i :| 0 <= i < |t.members| && t.members[i].roomId == roomId && t.members[i].role == Owner;
      assert u.members[i].role == Owner;
    }
  }

  lemma JoinIsMeant(t: Tables, userId: UserId, roomId: RoomId, canSend: bool)
    ensures JoinMeans(t, JoinRoom(t, userId, roomId, canSend), userId, roomId, canSend)
  {
    FoundIsOldest(t, roomId, userId, Invited);
    if Inv(t) {
      JoinKeepsInv(t, userId, roomId, canSend);
    }
    var invited := FindOne(t.members, Where(roomId, Some(userId), Some(Invited), None));
    if invited.Some? && !Busy(t, roomId, t.members[invited.value].address) {
      JoinIsSent(t, invited.value, userId, roomId, canSend);
    }
  }

  /** For the oldest joined row: refused while its address is busy, else that address is locked for leaving. */
  ghost predicate LeaveMeans(t: Tables, o: Outcome, userId: UserId, roomId: RoomId, canSend: bool) {
    && KeepsInv(t, o.after) && o.after == t.(notis := o.after.notis)
    && (o.reply == Refused(NotInRoom) <==> !HasRow(t, roomId, userId, Joined))
    && (o.reply.Refused? ==> o.after == t)
    && forall i: nat :: IsOldest(t, i, roomId, userId, Joined) ==>
         if Busy(t, roomId, t.members[i].address) then o.reply == Refused(LockedByProgress)
         else Sent(t, o, canSend, LeaveRoomJob, roomId, [t.members[i].address])
  }

  lemma LeaveIsMeant(t: Tables, userId: UserId, roomId: RoomId, canSend: bool)
    ensures LeaveMeans(t, LeaveRoom(t, userId, roomId, canSend), userId, roomId, canSend)
  {
    FoundIsOldest(t, roomId, userId, Joined);
    if Inv(t) {
      LeaveKeepsInv(t, userId, roomId, canSend);
    }
    var o := LeaveRoom(t, userId, roomId, canSend);
    if o.reply == Accepted {
      LocksHold(t, o.after, LeaveRoomJob, roomId, [t.members[FindJoined(t, userId, roomId).value].address]);
    }
  }

  /** The oldest invited row is cancelled unless its address is busy. */
  ghost predicate RejectMeans(t: Tables, o: Outcome, userId: UserId, roomId: RoomId) {
    && KeepsInv(t, o.after) && o.after == t.(members := o.after.members)
    && (o.reply == Refused(NotInvited) <==> !HasRow(t, roomId, userId, Invited))
    && (o.reply.Refused? ==> o.after == t)
    && forall i: nat :: IsOldest(t, i, roomId, userId, Invited) ==>
         if Busy(t, roomId, t.members[i].address) then o.reply == Refused(LockedByProgress)
         else o.reply == Accepted && Moved(t, o.after, i, Cancel)
  }

  lemma RejectIsMeant(t: Tables, userId: UserId, roomId: RoomId)
    ensures RejectMeans(t, RejectInvitation(t, userId, roomId), userId, roomId)
  {
    FoundIsOldest(t, roomId, userId, Invited);
    var o := RejectInvitation(t, userId, roomId);
    if Inv(t) && o.reply == Accepted {
      ClimbKeepsInv(t, o.after);
    }
  }

  // ------------------------------------------------------------------ requests by owners and admins

  /** Refused for permission, for a missing row, or for a busy address, in this order; else the oldest row of
      the old status gets the new one. */
  ghost predicate UpdateMeans(t: Tables, o: Outcome, ownerId: UserId, memberId: UserId, roomId: RoomId,
                              oldStatus: MemberStatus, newStatus: MemberStatus)
  {
    && (Rank(oldStatus) < Rank(newStatus) ==> KeepsInv(t, o.after))
    && UpdateAnswers(t, o, ownerId, memberId, roomId, oldStatus, newStatus)
  }

  ghost predicate UpdateAnswers(t: Tables, o: Outcome, ownerId: UserId, memberId: UserId, roomId: RoomId,
                                oldStatus: MemberStatus, newStatus: MemberStatus)
  {
    && o.after == t.(members := o.after.members)
    && (o.reply == Refused(NoPermission) <==> !Governs(t, ownerId, roomId))
    && (o.reply == Refused(NotMember) <==> Governs(t, ownerId, roomId) && !HasRow(t, roomId, memberId, oldStatus))
    && (o.reply.Refused? ==> o.after == t)
    && forall i: nat :: Governs(t, ownerId, roomId) && IsOldest(t, i, roomId, memberId, oldStatus) ==>
         if Busy(t, roomId, t.members[i].address) then o.reply == Refused(LockedByProgress)
         else o.reply == Accepted && Moved(t, o.after, i, newStatus)
  }

  lemma UpdateIsMeant(t: Tables, ownerId: UserId, memberId: UserId, roomId: RoomId,
                      oldStatus: MemberStatus, newStatus: MemberStatus)
    ensures UpdateMeans(t, UpdateMemberStatus(t, ownerId, memberId, roomId, oldStatus, newStatus),
                        ownerId, memberId, roomId, oldStatus, newStatus)
  {
    UpdateIsAnswered(t, ownerId, memberId, roomId, oldStatus, newStatus);
    var o := UpdateMemberStatus(t, ownerId, memberId, roomId, oldStatus, newStatus);
    if Inv(t) && Rank(oldStatus) < Rank(newStatus) && o.reply == Accepted {
      ClimbKeepsInv(t, o.after);
    }
  }

  lemma UpdateIsAnswered(t: Tables, ownerId: UserId, memberId: UserId, roomId: RoomId,
                         oldStatus: MemberStatus, newStatus: MemberStatus)
    ensures UpdateAnswers(t, UpdateMemberStatus(t, ownerId, memberId, roomId, oldStatus, newStatus),
                          ownerId, memberId, roomId, oldStatus, newStatus)
  {
    FoundIsOldest(t, roomId, memberId, oldStatus);
    GovernsIff(t, ownerId, roomId);
  }

  predicate SomeBusy(t: Tables, roomId: RoomId, addresses: seq<Address>) {
    exists k :: 0 <= k < |addresses| && Busy(t, roomId, addresses[k])
  }

  /** Only a joined owner or admin may approve, and only free addresses, each of which is then locked. */
  ghost predicate ApproveMeans(t: Tables, o: Outcome, userId: UserId, roomId: RoomId, addresses: seq<Address>,
                               canSend: bool)
  {
    && (Distinct(addresses) ==> KeepsInv(t, o.after)) && o.after == t.(notis := o.after.notis)
    && (o.reply.Refused? ==> o.after == t)
    && if !HasRow(t, roomId, userId, Joined) then o.reply == Refused(NullDereference)
       else if JoinedAs(t, userId, roomId, Member) then o.reply == Refused(NoPermission)
       else if SomeBusy(t, roomId, addresses) then o.reply == Refused(LockedByProgress)
       else Sent(t, o, canSend, AcceptJoinGroupJob, roomId, addresses)
  }

  lemma SomeBusyIff(t: Tables, roomId: RoomId, addresses: seq<Address>)
    ensures AnyBusy(t, roomId, addresses) <==> SomeBusy(t, roomId, addresses)
  {
  }

  lemma ApproveIsSent(t: Tables, userId: UserId, roomId: RoomId, addresses: seq<Address>, canSend: bool)
    requires FindJoined(t, userId, roomId).Some? && !AnyBusy(t, roomId, addresses)
    requires t.members[FindJoined(t, userId, roomId).value].role != Member
    ensures Sent(t, ApproveMember(t, userId, roomId, addresses, canSend), canSend, AcceptJoinGroupJob, roomId,
                 addresses)
  {
    if canSend {
      LocksHold(t, ApproveMember(t, userId, roomId, addresses, canSend).after, AcceptJoinGroupJob, roomId, addresses);
    }
  }

  lemma ApproveIsMeant(t: Tables, userId: UserId, roomId: RoomId, addresses: seq<Address>, canSend: bool)
    ensures ApproveMeans(t, ApproveMember(t, userId, roomId, addresses, canSend), userId, roomId, addresses, canSend)
  {
    if Inv(t) && Distinct(addresses) {
      ApproveKeepsInv(t, userId, roomId, addresses, canSend);
    }
    JoinedAsIff(t, userId, roomId);
    SomeBusyIff(t, roomId, addresses);
    if HasRow(t, roomId, userId, Joined) && !JoinedAs(t, userId, roomId, Member) && !SomeBusy(t, roomId, addresses) {
      ApproveIsSent(t, userId, roomId, addresses, canSend);
    }
  }

  /** Exactly the listed rows of the room that are invited or pending are out. */
  predicate UninvolvedOut(t: Tables, u: Tables, roomId: RoomId, addresses: seq<Address>) {
    |u.members| == |t.members| && forall i :: 0 <= i < |t.members| ==>
      var m := t.members[i];
      u.members[i] == if m.roomId == roomId && m.address in addresses && m.status in {Invited, PendingApproval}
                      then m.(status := Out) else m
  }

  predicate IsJoined(t: Tables, roomId: RoomId, address: Address) {
    exists i :: 0 <= i < |t.members| && t.members[i].roomId == roomId && t.members[i].address == address &&
                t.members[i].status == Joined
  }

  predicate SomeJoined(t: Tables, roomId: RoomId, addresses: seq<Address>) {
    exists k :: 0 <= k < |addresses| && IsJoined(t, roomId, addresses[k])
  }

  /** Where joined addresses are listed. */
  ghost function JoinedAt(t: Tables, roomId: RoomId, addresses: seq<Address>): set<int> {
    set k | 0 <= k < |addresses| && IsJoined(t, roomId, addresses[k])
  }

  /** The listed addresses that have joined, as often as they are listed. */
  ghost predicate AreJoined(t: Tables, roomId: RoomId, addresses: seq<Address>, joined: seq<Address>) {
    && (forall a :: a in joined <==> a in addresses && IsJoined(t, roomId, a))
    && |joined| == |JoinedAt(t, roomId, addresses)|
  }

  lemma JoinedAtNext(t: Tables, roomId: RoomId, addresses: seq<Address>)
    requires |addresses| > 0
    ensures var n := |addresses| - 1;
            JoinedAt(t, roomId, addresses) ==
            JoinedAt(t, roomId, addresses[..n]) + if IsJoined(t, roomId, addresses[n]) then {n} else {}
    ensures |addresses| - 1 !in JoinedAt(t, roomId, addresses[..|addresses| - 1])
  {
  }

  lemma {:induction false} JoinedCounted(t: Tables, roomId: RoomId, addresses: seq<Address>)
    ensures |JoinedAddresses(t.members, roomId, addresses)| == |JoinedAt(t, roomId, addresses)|
  {
    if |addresses| > 0 {
      JoinedCounted(t, roomId, addresses[..|addresses| - 1]);
      JoinedSpelled(t, roomId, addresses[|addresses| - 1]);
      JoinedAtNext(t, roomId, addresses);
    }
  }

  lemma JoinedListed(t: Tables, roomId: RoomId, addresses: seq<Address>)
    ensures AreJoined(t, roomId, addresses, JoinedAddresses(t.members, roomId, addresses))
  {
    forall a ensures HasJoined(t.members, roomId, a) <==> IsJoined(t, roomId, a) {
      JoinedSpelled(t, roomId, a);
    }
    JoinedCounted(t, roomId, addresses);
  }

  lemma JoinedSpelled(t: Tables, roomId: RoomId, a: Address)
    ensures HasJoined(t.members, roomId, a) <==> IsJoined(t, roomId, a)
  {
    if IsJoined(t, roomId, a) {
      var i :| 0 <= i < |t.members| && t.members[i].roomId == roomId && t.members[i].address == a &&
        t.members[i].status == Joined;
      assert t.members[i] in t.members;
    }
  }

  /** Past the checks, invited and pending rows are out and the joined addresses are locked for removal. */
  ghost predicate RemoveMeans(t: Tables, o: Outcome, userId: UserId, roomId: RoomId, addresses: seq<Address>,
                              canSend: bool)
  {
    && (Distinct(addresses) ==> KeepsInv(t, o.after))
    && if !Governs(t, userId, roomId) then o == Outcome(t, Refused(NoPermission))
       else if SomeBusy(t, roomId, addresses) then o == Outcome(t, Refused(LockedByProgress))
       else
         && UninvolvedOut(t, o.after, roomId, addresses)
         && if !SomeJoined(t, roomId, addresses) then o.reply == Accepted && o.after.notis == t.notis
            else if !HasRow(t, roomId, userId, Joined) then
              o.reply == Refused(NullDereference) && o.after.notis == t.notis
            else exists joined :: AreJoined(t, roomId, addresses, joined) &&
                                  Sent(t, o, canSend, RemoveMembersJob, roomId, joined)
  }

  lemma RemoveIsSent(t: Tables, userId: UserId, roomId: RoomId, addresses: seq<Address>, canSend: bool)
    requires IsOwnerOrAdmin(t, userId, roomId) && !AnyBusy(t, roomId, addresses)
    requires |JoinedAddresses(t.members, roomId, addresses)| > 0 && FindJoined(t, userId, roomId).Some?
    ensures Sent(t, RemoveMembers(t, userId, roomId, addresses, canSend), canSend, RemoveMembersJob, roomId,
                 JoinedAddresses(t.members, roomId, addresses))
  {
    if canSend {
      LocksHold(t, RemoveMembers(t, userId, roomId, addresses, canSend).after, RemoveMembersJob, roomId,
                JoinedAddresses(t.members, roomId, addresses));
    }
  }

  lemma JoinedIff(t: Tables, roomId: RoomId, addresses: seq<Address>)
    ensures |JoinedAddresses(t.members, roomId, addresses)| > 0 <==> SomeJoined(t, roomId, addresses)
  {
    var joined := JoinedAddresses(t.members, roomId, addresses);
    JoinedListed(t, roomId, addresses);
    if |joined| > 0 {
      assert joined[0] in joined;
    }
    if SomeJoined(t, roomId, addresses) {
      var k :| 0 <= k < |addresses| && IsJoined(t, roomId, addresses[k]);
      assert addresses[k] in joined;
    }
  }

  lemma RemoveIsMeant(t: Tables, userId: UserId, roomId: RoomId, addresses: seq<Address>, canSend: bool)
    ensures RemoveMeans(t, RemoveMembers(t, userId, roomId, addresses, canSend), userId, roomId, addresses, canSend)
  {
    if Inv(t) && Distinct(addresses) {
      RemoveKeepsInv(t, userId, roomId, addresses, canSend);
    }
    GovernsIff(t, userId, roomId);
    SomeBusyIff(t, roomId, addresses);
    JoinedAsIff(t, userId, roomId);
    JoinedIff(t, roomId, addresses);
    if Governs(t, userId, roomId) && !SomeBusy(t, roomId, addresses) && SomeJoined(t, roomId, addresses) &&
       HasRow(t, roomId, userId, Joined) {
      RemoveIsSent(t, userId, roomId, addresses, canSend);
      JoinedListed(t, roomId, addresses);
    }
  }

  predicate IsTarget(m: MemberRow, roomId: RoomId, memberIds: seq<UserId>) {
    m.roomId == roomId && m.userId in memberIds && m.status == Joined
  }

  predicate TargetsDiffer(t: Tables, roomId: RoomId, memberIds: seq<UserId>) {
    exists i, j :: 0 <= i < |t.members| && 0 <= j < |t.members| && IsTarget(t.members[i], roomId, memberIds) &&
                   IsTarget(t.members[j], roomId, memberIds) && t.members[i].role != t.members[j].role
  }

  predicate TargetBusy(t: Tables, roomId: RoomId, memberIds: seq<UserId>) {
    exists i :: 0 <= i < |t.members| && IsTarget(t.members[i], roomId, memberIds) &&
      Busy(t, roomId, t.members[i].address)
  }

  predicate TargetHasRole(t: Tables, roomId: RoomId, memberIds: seq<UserId>, role: Role) {
    exists i :: 0 <= i < |t.members| && IsTarget(t.members[i], roomId, memberIds) && t.members[i].role == role
  }

  /** Only a joined owner may change roles, of listed joined members with one common role and free addresses.
      Naming that role or the owner's changes nothing; else each is locked for becoming an admin, or a plain
      member. */
  ghost predicate EditMeans(t: Tables, o: Outcome, userId: UserId, roomId: RoomId, memberIds: seq<UserId>, role: Role,
                            canSend: bool)
  {
    KeepsInv(t, o.after) && EditAnswers(t, o, userId, roomId, memberIds, role, canSend)
  }

  ghost predicate EditAnswers(t: Tables, o: Outcome, userId: UserId, roomId: RoomId, memberIds: seq<UserId>, role: Role,
                              canSend: bool)
  {
    && o.after == t.(notis := o.after.notis) && (o.reply.Refused? ==> o.after == t)
    && if !JoinedAs(t, userId, roomId, Owner) then o.reply == Refused(NoPermission)
       else if TargetsDiffer(t, roomId, memberIds) then o.reply == Refused(MixedRoles)
       else if TargetBusy(t, roomId, memberIds) then o.reply == Refused(LockedByProgress)
       else if TargetHasRole(t, roomId, memberIds, role) || role == Owner then o == Outcome(t, Accepted)
       else Sent(t, o, canSend, if role == Admin then SetAdminJob else RemoveAdminJob, roomId,
                 AddressesOf(JoinedOf(t.members, roomId, memberIds)))
  }

  lemma TargetsListed(t: Tables, roomId: RoomId, memberIds: seq<UserId>, m: MemberRow)
    ensures m in JoinedOf(t.members, roomId, memberIds) <==>
            exists i :: 0 <= i < |t.members| && t.members[i] == m && IsTarget(t.members[i], roomId, memberIds)
  {
  }

  lemma DifferIff(t: Tables, roomId: RoomId, memberIds: seq<UserId>)
    ensures TargetsDiffer(t, roomId, memberIds) <==> HasMixedRoles(JoinedOf(t.members, roomId, memberIds))
  {
    var targets := JoinedOf(t.members, roomId, memberIds);
    if TargetsDiffer(t, roomId, memberIds) {
      var i, j :| 0 <= i < |t.members| && 0 <= j < |t.members| && IsTarget(t.members[i], roomId, memberIds) &&
                  IsTarget(t.members[j], roomId, memberIds) && t.members[i].role != t.members[j].role;
      assert t.members[i] in targets && t.members[j] in targets;
    }
    if HasMixedRoles(targets) {
      var m, n :| m in targets && n in targets && m.role != n.role;
      ListedDiffer(t, roomId, memberIds, m, n);
    }
  }

  lemma ListedDiffer(t: Tables, roomId: RoomId, memberIds: seq<UserId>, m: MemberRow, n: MemberRow)
    requires m in t.members && n in t.members && m.role != n.role
    requires IsTarget(m, roomId, memberIds) && IsTarget(n, roomId, memberIds)
    ensures TargetsDiffer(t, roomId, memberIds)
  {
    var i :| 0 <= i < |t.members| && t.members[i] == m;
    var j :| 0 <= j < |t.members| && t.members[j] == n;
    assert IsTarget(t.members[i], roomId, memberIds) && IsTarget(t.members[j], roomId, memberIds);
  }

  lemma TargetBusyIff(t: Tables, roomId: RoomId, memberIds: seq<UserId>)
    ensures TargetBusy(t, roomId, memberIds) <==>
            AnyBusy(t, roomId, AddressesOf(JoinedOf(t.members, roomId, memberIds)))
  {
    var targets := JoinedOf(t.members, roomId, memberIds);
    var addresses := AddressesOf(targets);
    if TargetBusy(t, roomId, memberIds) {
      var i :| 0 <= i < |t.members| && IsTarget(t.members[i], roomId, memberIds) &&
        Busy(t, roomId, t.members[i].address);
      var k :| 0 <= k < |targets| && targets[k] == t.members[i];
      assert addresses[k] in addresses;
    }
    if a :| a in addresses && Busy(t, roomId, a) {
      var k :| 0 <= k < |addresses| && addresses[k] == a;
      TargetsListed(t, roomId, memberIds, targets[k]);
    }
  }

  lemma RoleIff(t: Tables, roomId: RoomId, memberIds: seq<UserId>, role: Role)
    requires !TargetsDiffer(t, roomId, memberIds)
    ensures var targets := JoinedOf(t.members, roomId, memberIds);
            TargetHasRole(t, roomId, memberIds, role) <==> |targets| > 0 && targets[0].role == role
  {
    var targets := JoinedOf(t.members, roomId, memberIds);
    if |targets| > 0 {
      assert targets[0] in targets;
      var i :| 0 <= i < |t.members| && t.members[i] == targets[0];
      assert IsTarget(t.members[i], roomId, memberIds);
    }
  }

  lemma EditQueues(t: Tables, userId: UserId, roomId: RoomId, memberIds: seq<UserId>, role: Role, canSend: bool)
    requires FindJoined(t, userId, roomId).Some? && t.members[FindJoined(t, userId, roomId).value].role == Owner
    requires var targets := JoinedOf(t.members, roomId, memberIds);
             && !HasMixedRoles(targets) && !AnyBusy(t, roomId, AddressesOf(targets))
             && !(|targets| > 0 && targets[0].role == role) && role != Owner
    ensures EditMemberRole(t, userId, roomId, memberIds, role, canSend) ==
            Enqueue(t, if role == Admin then SetAdminJob else RemoveAdminJob, roomId,
                    t.members[FindJoined(t, userId, roomId).value].address,
                    AddressesOf(JoinedOf(t.members, roomId, memberIds)), canSend)
  {
  }

  lemma EditIsSent(t: Tables, userId: UserId, roomId: RoomId, memberIds: seq<UserId>, role: Role, canSend: bool)
    requires FindJoined(t, userId, roomId).Some? && t.members[FindJoined(t, userId, roomId).value].role == Owner
    requires !TargetsDiffer(t, roomId, memberIds) && !TargetBusy(t, roomId, memberIds)
    requires !TargetHasRole(t, roomId, memberIds, role) && role != Owner
    ensures Sent(t, EditMemberRole(t, userId, roomId, memberIds, role, canSend), canSend,
                 if role == Admin then SetAdminJob else RemoveAdminJob, roomId,
                 AddressesOf(JoinedOf(t.members, roomId, memberIds)))
  {
    DifferIff(t, roomId, memberIds);
    TargetBusyIff(t, roomId, memberIds);
    RoleIff(t, roomId, memberIds, role);
    EditQueues(t, userId, roomId, memberIds, role, canSend);
    EnqueueIsSent(t, if role == Admin then SetAdminJob else RemoveAdminJob, roomId,
                  t.members[FindJoined(t, userId, roomId).value].address,
                  AddressesOf(JoinedOf(t.members, roomId, memberIds)), canSend);
  }

  lemma EditIsAnswered(t: Tables, userId: UserId, roomId: RoomId, memberIds: seq<UserId>, role: Role, canSend: bool)
    ensures EditAnswers(t, EditMemberRole(t, userId, roomId, memberIds, role, canSend), userId, roomId, memberIds, role,
                        canSend)
  {
    JoinedAsIff(t, userId, roomId);
    DifferIff(t, roomId, memberIds);
    TargetBusyIff(t, roomId, memberIds);
    if !TargetsDiffer(t, roomId, memberIds) {
      RoleIff(t, roomId, memberIds, role);
      if JoinedAs(t, userId, roomId, Owner) && !TargetBusy(t, roomId, memberIds) &&
         !TargetHasRole(t, roomId, memberIds, role) && role != Owner {
        EditIsSent(t, userId, roomId, memberIds, role, canSend);
      }
    }
  }

  lemma EditIsMeant(t: Tables, userId: UserId, roomId: RoomId, memberIds: seq<UserId>, role: Role, canSend: bool)
    ensures EditMeans(t, EditMemberRole(t, userId, roomId, memberIds, role, canSend), userId, roomId, memberIds, role,
                      canSend)
  {
    EditIsAnswered(t, userId, roomId, memberIds, role, canSend);
    if Inv(t) {
      EditRoleKeepsInv(t, userId, roomId, memberIds, role, canSend);
    }
  }

  // ------------------------------------------------------------------ new members and new rooms

  /** The addresses without the repetitions of earlier ones. */
  function Firsts(addresses: seq<Address>): (r: seq<Address>)
    ensures forall a :: a in r <==> a in addresses
    ensures Distinct(r)
  {
    if |addresses| == 0 then []
    else
      var last := addresses[|addresses| - 1];
      var front := Firsts(addresses[..|addresses| - 1]);
      if last in front then front else front + [last]
  }

  lemma {:induction false} FirstsOfDistinct(addresses: seq<Address>)
    requires Distinct(addresses)
    ensures Firsts(addresses) == addresses
  {
    if |addresses| > 0 {
      var front := addresses[..|addresses| - 1];
      FirstsOfDistinct(front);
      assert addresses == front + [addresses[|addresses| - 1]];
    }
  }

  /** The list passes the checks before the additions. */
  predicate PassesChecks(t: Tables, userId: UserId, roomId: RoomId, addresses: seq<Address>) {
    var caller := FindJoined(t, userId, roomId);
    && ActiveCount(t.members, roomId) + |addresses| <= MAX_MEMBER_PER_GROUP
    && caller.Some? && t.members[caller.value].role == Owner
    && !AnyBusy(t, roomId, addresses) && forall a :: a in addresses ==> !HasActive(t.members, roomId, a)
  }

  predicate SomeActive(t: Tables, roomId: RoomId, addresses: seq<Address>) {
    exists i, k :: 0 <= i < |t.members| && 0 <= k < |addresses| && t.members[i].roomId == roomId &&
                   t.members[i].address == addresses[k] && t.members[i].status in {Invited, PendingApproval, Joined}
  }

  lemma SomeActiveIff(t: Tables, roomId: RoomId, addresses: seq<Address>)
    ensures SomeActive(t, roomId, addresses) <==> exists a :: a in addresses && HasActive(t.members, roomId, a)
  {
    if SomeActive(t, roomId, addresses) {
      var i, k :| 0 <= i < |t.members| && 0 <= k < |addresses| && t.members[i].roomId == roomId &&
                  t.members[i].address == addresses[k] && t.members[i].status in {Invited, PendingApproval, Joined};
      assert t.members[i] in t.members && addresses[k] in addresses;
    }
    if a :| a in addresses && HasActive(t.members, roomId, a) {
      var i :| 0 <= i < |t.members| && t.members[i].roomId == roomId && t.members[i].address == a &&
        IsActive(t.members[i]);
      var k :| 0 <= k < |addresses| && addresses[k] == a;
      assert t.members[i].address == addresses[k];
    }
  }

  /** Refused for want of room, of the caller's row or of its ownership, for an active or a busy address, in
      this order; otherwise every registered address has become an invited member, once, and it is accepted
      exactly when all are registered and none is repeated. */
  ghost predicate AddMeans(t: Tables, o: Outcome, userId: UserId, roomId: RoomId, addresses: seq<Address>) {
    && KeepsInv(t, o.after)
    && if ActiveCount(t.members, roomId) + |addresses| > 100 then o == Outcome(t, Refused(GroupFull))
       else if !HasRow(t, roomId, userId, Joined) then o == Outcome(t, Refused(NullDereference))
       else if !JoinedAs(t, userId, roomId, Owner) then o == Outcome(t, Refused(NoPermission))
       else if SomeActive(t, roomId, addresses) then o == Outcome(t, Refused(AlreadyMember))
       else if SomeBusy(t, roomId, addresses) then o == Outcome(t, Refused(LockedByProgress))
       else
         && o.after == t.(members := t.members + InvitedRows(t.wallets, roomId, Firsts(addresses)))
         && (o.reply == Accepted <==> Distinct(addresses) && forall a :: a in addresses ==> a in t.wallets)
         && (Inv(t) ==> ActiveCount(o.after.members, roomId) <= 100)
  }

  /** The rows of the room that are invited, pending or joined. */
  ghost function ActiveRows(rows: seq<MemberRow>, roomId: RoomId): set<int> {
    set i | 0 <= i < |rows| && rows[i].roomId == roomId && rows[i].status in {Invited, PendingApproval, Joined}
  }

  lemma ActiveRowsNext(rows: seq<MemberRow>, roomId: RoomId)
    requires |rows| > 0
    ensures var n := |rows| - 1;
            ActiveRows(rows, roomId) ==
            ActiveRows(rows[..n], roomId) + if rows[n].roomId == roomId && IsActive(rows[n]) then {n} else {}
    ensures |rows| - 1 !in ActiveRows(rows[..|rows| - 1], roomId)
  {
  }

  /** They are what is counted. */
  lemma {:induction false} ActiveCountIs(rows: seq<MemberRow>, roomId: RoomId)
    ensures ActiveCount(rows, roomId) == |ActiveRows(rows, roomId)|
  {
    if |rows| > 0 {
      ActiveCountIs(rows[..|rows| - 1], roomId);
      ActiveRowsNext(rows, roomId);
    }
  }

  lemma {:induction false} FirstsNotLonger(addresses: seq<Address>)
    ensures |Firsts(addresses)| <= |addresses|
  {
    if |addresses| > 0 {
      FirstsNotLonger(addresses[..|addresses| - 1]);
    }
  }

  /** Whatever the list, adding the first occurrences keeps the invariant and the limit. */
  lemma FirstsKeepInv(t: Tables, userId: UserId, roomId: RoomId, addresses: seq<Address>)
    requires Inv(t) && PassesChecks(t, userId, roomId, addresses)
    ensures var u := t.(members := t.members + InvitedRows(t.wallets, roomId, Firsts(addresses)));
            Inv(u) && Evolves(t, u) && ActiveCount(u.members, roomId) <= MAX_MEMBER_PER_GROUP
  {
    FirstsNotLonger(addresses);
    InviteesKeepInv(t, roomId, Firsts(addresses));
  }

  /** A list of more than 100, or without another address, is refused. The new room has the caller as its
      joined owner and every registered other address as an invited member; no address is locked. */
  ghost predicate CreateMeans(t: Tables, o: Outcome, userId: UserId, own: Address, addresses: seq<Address>,
                              canSend: bool)
  {
    && (Distinct(addresses) ==> KeepsInv(t, o.after))
    && if |addresses| > 100 then o == Outcome(t, Refused(GroupFull))
       else if forall a :: a in addresses ==> a == own then o == Outcome(t, Refused(NoOtherMember))
       else
         && o.reply == (if canSend then Accepted else Refused(NetworkMismatch))
         && o.after == t.(rooms := t.rooms + 1, members := o.after.members)
         && IsNewGroup(t, o.after, userId, own, addresses)
  }

  ghost predicate IsNewGroup(t: Tables, u: Tables, userId: UserId, own: Address, addresses: seq<Address>) {
    && t.members < u.members && u.members[|t.members|] == MemberRow(t.rooms, userId, own, Owner, Joined)
    && (forall a :: a in addresses && a != own && a in t.wallets ==> HasActive(u.members, t.rooms, a))
    && (forall i :: |t.members| < i < |u.members| ==>
          var m := u.members[i];
          && m.address in addresses && m.address != own && m.address in t.wallets
          && m == MemberRow(t.rooms, t.wallets[m.address], m.address, Member, Invited))
  }

  lemma NewGroupMeans(t: Tables, userId: UserId, own: Address, addresses: seq<Address>)
    ensures IsNewGroup(t, NewGroup(t, userId, own, Others(addresses, own)), userId, own, addresses)
  {
    var others := Others(addresses, own);
    var u, invited := NewGroup(t, userId, own, others), InvitedRows(t.wallets, t.rooms, others);
    forall a | a in others && a in t.wallets ensures HasActive(u.members, t.rooms, a) {
      assert MemberRow(t.rooms, t.wallets[a], a, Member, Invited) in invited;
    }
    forall i | |t.members| < i < |u.members| ensures u.members[i] in invited {
      assert u.members[i] == invited[i - |t.members| - 1];
    }
  }

  lemma OthersEmptyIff(addresses: seq<Address>, own: Address)
    ensures |Others(addresses, own)| == 0 <==> forall a :: a in addresses ==> a == own
  {
    if |Others(addresses, own)| > 0 {
      assert Others(addresses, own)[0] in Others(addresses, own);
    }
  }

  lemma CreateIsMeant(t: Tables, userId: UserId, own: Address, addresses: seq<Address>, canSend: bool)
    ensures CreateMeans(t, CreateGroup(t, userId, own, addresses, canSend), userId, own, addresses, canSend)
  {
    CreateEffect(t, userId, own, addresses, canSend);
    OthersEmptyIff(addresses, own);
    NewGroupMeans(t, userId, own, addresses);
    if Inv(t) && Distinct(addresses) {
      CreateKeepsInv(t, userId, own, addresses, canSend);
    }
  }
}
