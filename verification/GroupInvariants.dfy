/** What every run of group-chat steps keeps: lock exclusion, one active row per address,
    the capacity bound, the member lifecycle, and the freeze while a lock is held. */
module GroupInvariants {
  import opened Wrappers
  import opened GroupTables

  // ------------------------------------------------------------------ the invariant

  predicate SameMember(m: MemberRow, n: MemberRow) {
    m.roomId == n.roomId && m.address == n.address
  }

  predicate SameLock(m: Notification, n: Notification) {
    m.roomId == n.roomId && m.address == n.address
  }

  /** Each (room, address) has at most one live notification. */
  ghost predicate Exclusive(notis: seq<Notification>, now: nat) {
    forall i, j :: 0 <= i < j < |notis| && Live(notis[i], now) && Live(notis[j], now) ==> !SameLock(notis[i], notis[j])
  }

  /** Each (room, address) has at most one active member row. */
  ghost predicate UniqueActive(rows: seq<MemberRow>) {
    forall i, j :: 0 <= i < j < |rows| && IsActive(rows[i]) && IsActive(rows[j]) ==> !SameMember(rows[i], rows[j])
  }

  ghost predicate RoomsExist(t: Tables) {
    && (forall i :: 0 <= i < |t.members| ==> t.members[i].roomId < t.rooms)
    && (forall i :: 0 <= i < |t.notis| ==> t.notis[i].roomId < t.rooms)
  }

  ghost predicate WithinCapacity(rows: seq<MemberRow>) {
    forall roomId: RoomId :: ActiveCount(rows, roomId) <= MAX_MEMBER_PER_GROUP + 1
  }

  ghost predicate Inv(t: Tables) {
    Exclusive(t.notis, t.now) && UniqueActive(t.members) && RoomsExist(t) && WithinCapacity(t.members)
  }

  // ------------------------------------------------------------------ how rows may evolve

  function Rank(s: MemberStatus): nat {
    match s
    case Invited => 0
    case PendingApproval => 1
    case Joined => 2
    case Out | Cancel => 3
  }

  /** The same row later: identity fixed, status unchanged or strictly higher. */
  predicate Climbs(m: MemberRow, n: MemberRow) {
    SameMember(m, n) && m.userId == n.userId && (m.status == n.status || Rank(m.status) < Rank(n.status))
  }

  ghost predicate RowsClimb(rows: seq<MemberRow>, later: seq<MemberRow>) {
    |rows| <= |later| && forall i :: 0 <= i < |rows| ==> Climbs(rows[i], later[i])
  }

  predicate IsFinished(n: Notification) {
    n.status == Completed || n.status == Failed
  }

  /** The same notification later: only its status moves, and never out of finished. */
  predicate Progresses(m: Notification, n: Notification) {
    SameLock(m, n) && m.job == n.job && m.createdAt == n.createdAt && (IsFinished(m) ==> m == n)
  }

  ghost predicate NotisProgress(notis: seq<Notification>, later: seq<Notification>) {
    |notis| <= |later| && forall i :: 0 <= i < |notis| ==> Progresses(notis[i], later[i])
  }

  ghost predicate Evolves(t: Tables, u: Tables) {
    && RowsClimb(t.members, u.members)
    && NotisProgress(t.notis, u.notis)
    && t.now <= u.now && t.rooms <= u.rooms
  }

  // ------------------------------------------------------------------ counting active rows

  lemma {:induction false} CountAppend(a: seq<MemberRow>, b: seq<MemberRow>, roomId: RoomId)
    ensures ActiveCount(a + b, roomId) == ActiveCount(a, roomId) + ActiveCount(b, roomId)
    decreases |b|
  {
    if |b| == 0 {
      assert a + b == a;
    } else {
      assert (a + b)[..|a + b| - 1] == a + b[..|b| - 1];
      CountAppend(a, b[..|b| - 1], roomId);
    }
  }

  lemma {:induction false} CountAtMostLength(rows: seq<MemberRow>, roomId: RoomId)
    ensures ActiveCount(rows, roomId) <= |rows|
    ensures (forall m :: m in rows ==> m.roomId == roomId && IsActive(m)) ==> ActiveCount(rows, roomId) == |rows|
    ensures (forall m :: m in rows ==> m.roomId != roomId) ==> ActiveCount(rows, roomId) == 0
  {
    if |rows| > 0 {
      CountAtMostLength(rows[..|rows| - 1], roomId);
      assert rows[|rows| - 1] in rows;
    }
  }

  lemma {:induction false} CountNeverGrows(rows: seq<MemberRow>, later: seq<MemberRow>, roomId: RoomId)
    requires RowsClimb(rows, later) && |rows| == |later|
    ensures ActiveCount(later, roomId) <= ActiveCount(rows, roomId)
  {
    if |rows| > 0 {
      CountNeverGrows(rows[..|rows| - 1], later[..|rows| - 1], roomId);
    }
  }

  // ------------------------------------------------------------------ the building blocks of steps

  /** Moving existing rows up the lifecycle, and nothing else. */
  lemma ClimbKeepsInv(t: Tables, u: Tables)
    requires Inv(t) && u == t.(members := u.members)
    requires RowsClimb(t.members, u.members) && |t.members| == |u.members|
    ensures Inv(u) && Evolves(t, u)
  {
    forall roomId: RoomId ensures ActiveCount(u.members, roomId) <= MAX_MEMBER_PER_GROUP + 1 {
      CountNeverGrows(t.members, u.members, roomId);
    }
  }

  /** Appending active rows of one room keeps rows unique exactly when their addresses differ. */
  lemma InsertUniqueIff(rows: seq<MemberRow>, added: seq<MemberRow>, roomId: RoomId)
    requires UniqueActive(rows)
    requires forall m :: m in added ==> m.roomId == roomId && IsActive(m) && !HasActive(rows, roomId, m.address)
    ensures UniqueActive(rows + added) <==> Distinct(AddressesOf(added))
  {
    var all := rows + added;
    assert forall i :: |rows| <= i < |all| ==> all[i] == added[i - |rows|] && all[i] in added;
    if Distinct(AddressesOf(added)) {
      forall i, j | 0 <= i < j < |all| && IsActive(all[i]) && IsActive(all[j]) ensures !SameMember(all[i], all[j]) {
        if |rows| <= i {
          assert AddressesOf(added)[i - |rows|] != AddressesOf(added)[j - |rows|];
        } else if |rows| <= j {
          assert all[i] in rows;
        }
      }
    } else {
      var i, j :| 0 <= i < j < |added| && AddressesOf(added)[i] == AddressesOf(added)[j];
      assert SameMember(all[|rows| + i], all[|rows| + j]);
    }
  }

  /** New active rows, in one room, for addresses without an active row there. */
  lemma InsertKeepsInv(t: Tables, u: Tables, added: seq<MemberRow>, roomId: RoomId)
    requires Inv(t) && u == t.(members := t.members + added, rooms := u.rooms)
    requires t.rooms <= u.rooms && roomId < u.rooms
    requires forall m :: m in added ==> m.roomId == roomId && IsActive(m) && !HasActive(t.members, roomId, m.address)
    requires Distinct(AddressesOf(added))
    requires ActiveCount(t.members, roomId) + |added| <= MAX_MEMBER_PER_GROUP + 1
    ensures Inv(u) && Evolves(t, u)
    ensures ActiveCount(u.members, roomId) == ActiveCount(t.members, roomId) + |added|
  {
    forall r: RoomId
      ensures ActiveCount(u.members, r) == ActiveCount(t.members, r) + if r == roomId then |added| else 0
    {
      CountAppend(t.members, added, r);
      CountAtMostLength(added, r);
    }
    InsertUniqueIff(t.members, added, roomId);
  }

  /** New locks on addresses that are free, each named once. */
  lemma LocksKeepInv(t: Tables, job: Job, roomId: RoomId, addresses: seq<Address>)
    requires Inv(t) && roomId < t.rooms && Distinct(addresses)
    requires forall a :: a in addresses ==> !Busy(t, roomId, a)
    ensures var u := t.(notis := t.notis + LockRows(job, roomId, addresses, t.now));
            Inv(u) && Evolves(t, u)
  {
    var u := t.(notis := t.notis + LockRows(job, roomId, addresses, t.now));
    forall i, j | 0 <= i < j < |u.notis| && Live(u.notis[i], u.now) && Live(u.notis[j], u.now)
      ensures !SameLock(u.notis[i], u.notis[j])
    {
      if i < |t.notis| <= j {
        assert addresses[j - |t.notis|] in addresses && u.notis[i] in t.notis;
      }
    }
  }

  // ------------------------------------------------------------------ lists inside requests

  lemma {:induction false} JoinedAddressesDistinct(rows: seq<MemberRow>, roomId: RoomId, addresses: seq<Address>)
    requires Distinct(addresses)
    ensures Distinct(JoinedAddresses(rows, roomId, addresses))
  {
    if |addresses| > 0 {
      var front := addresses[..|addresses| - 1];
      JoinedAddressesDistinct(rows, roomId, front);
      DistinctSnoc(JoinedAddresses(rows, roomId, front), addresses[|addresses| - 1]);
    }
  }

  lemma {:induction false} OthersDistinct(addresses: seq<Address>, own: Address)
    requires Distinct(addresses)
    ensures Distinct(Others(addresses, own))
  {
    if |addresses| > 0 {
      var front := addresses[..|addresses| - 1];
      OthersDistinct(front, own);
      DistinctSnoc(Others(front, own), addresses[|addresses| - 1]);
    }
  }

  lemma DistinctSnoc<T>(xs: seq<T>, x: T)
    requires Distinct(xs) && x !in xs
    ensures Distinct(xs + [x])
  {
  }

  lemma {:induction false} InvitedRowsDistinct(wallets: map<Address, UserId>, roomId: RoomId, addresses: seq<Address>)
    requires Distinct(addresses)
    ensures Distinct(AddressesOf(InvitedRows(wallets, roomId, addresses)))
  {
    if |addresses| > 0 {
      var last := addresses[|addresses| - 1];
      var front := addresses[..|addresses| - 1];
      var rows := InvitedRows(wallets, roomId, front);
      InvitedRowsDistinct(wallets, roomId, front);
      assert forall a :: a in AddressesOf(rows) ==> a in front;
      if last in wallets {
        var row := MemberRow(roomId, wallets[last], last, Member, Invited);
        DistinctSnoc(AddressesOf(rows), last);
        assert AddressesOf(rows + [row]) == AddressesOf(rows) + [last];
      }
    }
  }

  /** Because active rows are unique, the joined rows of any users carry distinct addresses. */
  lemma {:induction false} JoinedOfDistinct(rows: seq<MemberRow>, roomId: RoomId, userIds: seq<UserId>)
    requires UniqueActive(rows)
    ensures Distinct(AddressesOf(JoinedOf(rows, roomId, userIds)))
  {
    if |rows| > 0 {
      var last := rows[|rows| - 1];
      var front := rows[..|rows| - 1];
      var joined := JoinedOf(front, roomId, userIds);
      JoinedOfDistinct(front, roomId, userIds);
      if last.roomId == roomId && last.userId in userIds && last.status == Joined {
        forall a | a in AddressesOf(joined) ensures a != last.address {
          var k :| 0 <= k < |joined| && joined[k].address == a;
          assert joined[k] in joined && joined[k] in front;
        }
        DistinctSnoc(AddressesOf(joined), last.address);
        assert AddressesOf(joined + [last]) == AddressesOf(joined) + [last.address];
      }
    }
  }

  // ------------------------------------------------------------------ every step keeps the invariant

  lemma JoinKeepsInv(t: Tables, userId: UserId, roomId: RoomId, canSend: bool)
    requires Inv(t)
    ensures var u := JoinRoom(t, userId, roomId, canSend).after; Inv(u) && Evolves(t, u)
  {
    var invited := FindOne(t.members, Where(roomId, Some(userId), Some(Invited), None));
    if invited.Some? && !Busy(t, roomId, t.members[invited.value].address) {
      var t1 := SetStatus(t, invited.value, PendingApproval);
      ClimbKeepsInv(t, t1);
      LocksKeepInv(t1, AcceptJoinGroupJob, roomId, [t.members[invited.value].address]);
    }
  }

  lemma LeaveKeepsInv(t: Tables, userId: UserId, roomId: RoomId, canSend: bool)
    requires Inv(t)
    ensures var u := LeaveRoom(t, userId, roomId, canSend).after; Inv(u) && Evolves(t, u)
  {
    var joined := FindJoined(t, userId, roomId);
    if joined.Some? && !Busy(t, roomId, t.members[joined.value].address) {
      LocksKeepInv(t, LeaveRoomJob, roomId, [t.members[joined.value].address]);
    }
  }

  lemma ApproveKeepsInv(t: Tables, userId: UserId, roomId: RoomId, addresses: seq<Address>, canSend: bool)
    requires Inv(t) && Distinct(addresses)
    ensures var u := ApproveMember(t, userId, roomId, addresses, canSend).after; Inv(u) && Evolves(t, u)
  {
    if FindJoined(t, userId, roomId).Some? && !AnyBusy(t, roomId, addresses) {
      LocksKeepInv(t, AcceptJoinGroupJob, roomId, addresses);
    }
  }

  lemma UninvolvedKeepInv(t: Tables, roomId: RoomId, addresses: seq<Address>)
    requires Inv(t)
    ensures var u := t.(members := RemoveUninvolved(t.members, roomId, addresses)); Inv(u) && Evolves(t, u)
  {
    ClimbKeepsInv(t, t.(members := RemoveUninvolved(t.members, roomId, addresses)));
  }

  lemma RemovalLocksKeepInv(t: Tables, roomId: RoomId, rows: seq<MemberRow>, addresses: seq<Address>)
    requires Inv(t) && roomId < t.rooms && Distinct(addresses) && !AnyBusy(t, roomId, addresses)
    ensures var joined := JoinedAddresses(rows, roomId, addresses);
            var u := t.(notis := t.notis + LockRows(RemoveMembersJob, roomId, joined, t.now));
            Inv(u) && Evolves(t, u)
  {
    JoinedAddressesDistinct(rows, roomId, addresses);
    LocksKeepInv(t, RemoveMembersJob, roomId, JoinedAddresses(rows, roomId, addresses));
  }

  lemma RemoveKeepsInv(t: Tables, userId: UserId, roomId: RoomId, addresses: seq<Address>, canSend: bool)
    requires Inv(t) && Distinct(addresses)
    ensures var u := RemoveMembers(t, userId, roomId, addresses, canSend).after; Inv(u) && Evolves(t, u)
  {
    if IsOwnerOrAdmin(t, userId, roomId) && !AnyBusy(t, roomId, addresses) {
      var t1 := t.(members := RemoveUninvolved(t.members, roomId, addresses));
      UninvolvedKeepInv(t, roomId, addresses);
      assert AnyBusy(t1, roomId, addresses) == AnyBusy(t, roomId, addresses);
      RemovalLocksKeepInv(t1, roomId, t.members, addresses);
      var locks := LockRows(RemoveMembersJob, roomId, JoinedAddresses(t.members, roomId, addresses), t.now);
      EvolvesTrans(t, t1, t1.(notis := t1.notis + locks));
    }
  }

  /** A new group starts with its owner alone, in a room no row mentions yet. */
  lemma OwnerKeepsInv(t: Tables, owner: MemberRow)
    requires Inv(t) && owner.roomId == t.rooms && IsActive(owner)
    ensures var u := t.(rooms := t.rooms + 1, members := t.members + [owner]);
            Inv(u) && Evolves(t, u) && ActiveCount(u.members, t.rooms) == 1
  {
    CountAtMostLength(t.members, t.rooms);
    InsertKeepsInv(t, t.(rooms := t.rooms + 1, members := t.members + [owner]), [owner], t.rooms);
  }

  lemma InviteesKeepInv(t: Tables, roomId: RoomId, addresses: seq<Address>)
    requires Inv(t) && roomId < t.rooms && Distinct(addresses)
    requires forall a :: a in addresses ==> !HasActive(t.members, roomId, a)
    requires ActiveCount(t.members, roomId) + |addresses| <= MAX_MEMBER_PER_GROUP + 1
    ensures var invited := InvitedRows(t.wallets, roomId, addresses);
            var u := t.(members := t.members + invited);
            Inv(u) && Evolves(t, u) && ActiveCount(u.members, roomId) == ActiveCount(t.members, roomId) + |invited|
  {
    var invited := InvitedRows(t.wallets, roomId, addresses);
    InvitedRowsDistinct(t.wallets, roomId, addresses);
    InsertKeepsInv(t, t.(members := t.members + invited), invited, roomId);
  }

  lemma AddKeepsInv(t: Tables, userId: UserId, roomId: RoomId, addresses: seq<Address>)
    requires Inv(t) && Distinct(addresses)
    ensures var u := AddMembers(t, userId, roomId, addresses).after;
            Inv(u) && Evolves(t, u) && (u != t ==> ActiveCount(u.members, roomId) <= MAX_MEMBER_PER_GROUP)
  {
    if AddMembers(t, userId, roomId, addresses).after != t {
      InviteesKeepInv(t, roomId, addresses);
    }
  }

  /** A new room with its owner and a row for each registered invitee. */
  function NewGroup(t: Tables, userId: UserId, own: Address, others: seq<Address>): Tables {
    t.(rooms := t.rooms + 1,
       members := t.members + [MemberRow(t.rooms, userId, own, Owner, Joined)] +
                  InvitedRows(t.wallets, t.rooms, others))
  }

  /** Creation queues a job that locks no address, whether or not it can be sent. */
  lemma CreateEffect(t: Tables, userId: UserId, own: Address, addresses: seq<Address>, canSend: bool)
    ensures CreateGroup(t, userId, own, addresses, canSend).after ==
              if |addresses| > MAX_MEMBER_PER_GROUP || |Others(addresses, own)| == 0 then t
              else NewGroup(t, userId, own, Others(addresses, own))
  {
    assert t.notis + LockRows(CreateGroupChatJob, t.rooms, [], t.now) == t.notis;
  }

  lemma NoneInNewRoom(t: Tables, owner: MemberRow, addresses: seq<Address>)
    requires RoomsExist(t) && owner.roomId == t.rooms && owner.address !in addresses
    ensures forall a :: a in addresses ==> !HasActive(t.members + [owner], t.rooms, a)
  {
  }

  lemma NewGroupKeepsInv(t: Tables, userId: UserId, own: Address, others: seq<Address>)
    requires Inv(t) && Distinct(others) && |others| <= MAX_MEMBER_PER_GROUP && own !in others
    ensures Inv(NewGroup(t, userId, own, others)) && Evolves(t, NewGroup(t, userId, own, others))
    ensures ActiveCount(NewGroup(t, userId, own, others).members, t.rooms) ==
            1 + |InvitedRows(t.wallets, t.rooms, others)|
  {
    var owner := MemberRow(t.rooms, userId, own, Owner, Joined);
    var t1 := t.(rooms := t.rooms + 1, members := t.members + [owner]);
    OwnerKeepsInv(t, owner);
    NoneInNewRoom(t, owner, others);
    InviteesKeepInv(t1, t.rooms, others);
    EvolvesTrans(t, t1, NewGroup(t, userId, own, others));
  }

  lemma CreateKeepsInv(t: Tables, userId: UserId, own: Address, addresses: seq<Address>, canSend: bool)
    requires Inv(t) && Distinct(addresses)
    ensures var u := CreateGroup(t, userId, own, addresses, canSend).after;
            && Inv(u) && Evolves(t, u)
            && (u != t ==>
                  ActiveCount(u.members, t.rooms) == 1 + |InvitedRows(t.wallets, t.rooms, Others(addresses, own))|)
  {
    CreateEffect(t, userId, own, addresses, canSend);
    if |addresses| <= MAX_MEMBER_PER_GROUP && |Others(addresses, own)| > 0 {
      OthersDistinct(addresses, own);
      NewGroupKeepsInv(t, userId, own, Others(addresses, own));
    }
  }

  lemma EditRoleKeepsInv(t: Tables, userId: UserId, roomId: RoomId, memberIds: seq<UserId>, role: Role, canSend: bool)
    requires Inv(t)
    ensures var u := EditMemberRole(t, userId, roomId, memberIds, role, canSend).after; Inv(u) && Evolves(t, u)
  {
    var u := EditMemberRole(t, userId, roomId, memberIds, role, canSend).after;
    if u != t {
      var addresses := AddressesOf(JoinedOf(t.members, roomId, memberIds));
      JoinedOfDistinct(t.members, roomId, memberIds);
      assert !AnyBusy(t, roomId, addresses);
      LocksKeepInv(t, if role == Admin then SetAdminJob else RemoveAdminJob, roomId, addresses);
    }
  }

  lemma WorkerKeepsInv(t: Tables, s: Step)
    requires Inv(t) && (s.WorkerFinish? || s.WorkerAccept? || s.WorkerOut? || s.WorkerRole?)
    ensures Inv(WorkerStep(t, s)) && Evolves(t, WorkerStep(t, s))
  {
    if !s.WorkerFinish? {
      ClimbKeepsInv(t, WorkerStep(t, s));
    }
  }

  lemma MemberStepKeepsInv(t: Tables, s: Step)
    requires Inv(t) && (s.Join? || s.Leave? || s.Reject? || s.CancelInvite?)
    ensures Inv(Next(t, s)) && Evolves(t, Next(t, s))
  {
    match s
    case Join(u, r, canSend) => JoinKeepsInv(t, u, r, canSend);
    case Leave(u, r, canSend) => LeaveKeepsInv(t, u, r, canSend);
    case Reject(_, _) => ClimbKeepsInv(t, Next(t, s));
    case CancelInvite(_, _, _) => ClimbKeepsInv(t, Next(t, s));
  }

  lemma StepKeepsInv(t: Tables, s: Step)
    requires Inv(t) && WellFormed(s)
    ensures Inv(Next(t, s)) && Evolves(t, Next(t, s))
  {
    match s
    case Join(_, _, _) | Leave(_, _, _) | Reject(_, _) | CancelInvite(_, _, _) => MemberStepKeepsInv(t, s);
    case Approve(u, r, addresses, canSend) => ApproveKeepsInv(t, u, r, addresses, canSend);
    case Remove(u, r, addresses, canSend) => RemoveKeepsInv(t, u, r, addresses, canSend);
    case Add(u, r, addresses) => AddKeepsInv(t, u, r, addresses);
    case Create(u, own, addresses, canSend) => CreateKeepsInv(t, u, own, addresses, canSend);
    case EditRole(u, r, ids, role, canSend) => EditRoleKeepsInv(t, u, r, ids, role, canSend);
    case WorkerFinish(_, _) | WorkerAccept(_) | WorkerOut(_) | WorkerRole(_, _) => WorkerKeepsInv(t, s);
    case NewWallet(_, _) =>
    case Tick(_) =>
  }

  // ------------------------------------------------------------------ main results over runs

  lemma EvolvesTrans(t: Tables, u: Tables, v: Tables)
    requires Evolves(t, u) && Evolves(u, v)
    ensures Evolves(t, v)
  {
    forall i | 0 <= i < |t.notis| ensures Progresses(t.notis[i], v.notis[i]) {
      assert Progresses(t.notis[i], u.notis[i]) && Progresses(u.notis[i], v.notis[i]);
    }
    forall i | 0 <= i < |t.members| ensures Climbs(t.members[i], v.members[i]) {
      assert Climbs(t.members[i], u.members[i]) && Climbs(u.members[i], v.members[i]);
    }
  }

  /** Every run keeps the invariant, and rows only move up the lifecycle. */
  lemma {:induction false} RunKeepsInv(t: Tables, steps: seq<Step>)
    requires Inv(t) && AllWellFormed(steps)
    ensures Inv(Run(t, steps)) && Evolves(t, Run(t, steps))
    decreases |steps|
  {
    if |steps| > 0 {
      assert WellFormed(steps[0]);
      StepKeepsInv(t, steps[0]);
      RunKeepsInv(Next(t, steps[0]), steps[1..]);
      EvolvesTrans(t, Next(t, steps[0]), Run(t, steps));
    }
  }

  lemma ReachableStates(steps: seq<Step>)
    requires AllWellFormed(steps)
    ensures var t := Run(EMPTY_TABLES, steps);
            && Exclusive(t.notis, t.now) && UniqueActive(t.members)
            && forall roomId: RoomId :: ActiveCount(t.members, roomId) <= 101
  {
    forall roomId: RoomId ensures ActiveCount(EMPTY_TABLES.members, roomId) == 0 {}
    RunKeepsInv(EMPTY_TABLES, steps);
  }
}
