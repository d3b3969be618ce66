/** Consequences of the group-chat invariant for whole runs, and exactly when the assumption of
    repetition-free address lists is needed. */
module GroupProtocol {
  import opened Wrappers
  import opened GroupTables
  import opened GroupInvariants

  // ------------------------------------------------------------------ member lifecycle

  /** How often the status of row `id` changes during a run. */
  ghost function StatusChanges(t: Tables, steps: seq<Step>, id: nat): nat
    decreases |steps|
  {
    if |steps| == 0 then 0
    else
      var u := Next(t, steps[0]);
      (if id < |t.members| && id < |u.members| && t.members[id].status != u.members[id].status then 1 else 0)
      + StatusChanges(u, steps[1..], id)
  }

  /** A row changes status at most three times, and never once it is out or cancelled. */
  lemma {:induction false} AtMostThreeChanges(t: Tables, steps: seq<Step>, id: nat)
    requires Inv(t) && AllWellFormed(steps)
    ensures StatusChanges(t, steps, id) <= if id < |t.members| then 3 - Rank(t.members[id].status) else 3
    ensures id < |t.members| && Rank(t.members[id].status) == 3 ==>
              id < |Run(t, steps).members| && Run(t, steps).members[id].status == t.members[id].status
    decreases |steps|
  {
    RunKeepsInv(t, steps);
    if |steps| > 0 {
      assert WellFormed(steps[0]);
      var u := Next(t, steps[0]);
      StepKeepsInv(t, steps[0]);
      AtMostThreeChanges(u, steps[1..], id);
      assert id < |t.members| ==> Climbs(t.members[id], u.members[id]);
    }
  }

  // ------------------------------------------------------------------ frozen while in progress

  predicate IsRequest(s: Step) {
    !s.WorkerFinish? && !s.WorkerAccept? && !s.WorkerOut? && !s.WorkerRole? && !s.Tick?
  }

  /** No row of the address in the room changed, and none was added. */
  ghost predicate Untouched(t: Tables, u: Tables, roomId: RoomId, address: Address) {
    && |t.members| <= |u.members|
    && (forall i :: 0 <= i < |t.members| ==> SameMember(u.members[i], t.members[i]))
    && (forall i :: 0 <= i < |t.members| && t.members[i].roomId == roomId && t.members[i].address == address ==>
          u.members[i].status == t.members[i].status)
    && (forall i :: |t.members| <= i < |u.members| && u.members[i].roomId == roomId ==> u.members[i].address != address)
  }

  /** Requests that move a row, change many rows or insert rows first check the lock of its address. */
  lemma MovingRequestRespectsLock(t: Tables, s: Step, roomId: RoomId, address: Address)
    requires s.Join? || s.Reject? || s.CancelInvite?
    requires Busy(t, roomId, address)
    ensures Untouched(t, Next(t, s), roomId, address)
  {
  }

  lemma RemoveRespectsLock(t: Tables, s: Step, roomId: RoomId, address: Address)
    requires s.Remove? && Busy(t, roomId, address)
    ensures Untouched(t, Next(t, s), roomId, address)
  {
    var u := Next(t, s);
    if AnyBusy(t, s.roomId, s.addresses) {
      assert u == t;
    } else {
      assert u.members == t.members || u.members == RemoveUninvolved(t.members, s.roomId, s.addresses);
    }
  }

  lemma AddRespectsLock(t: Tables, s: Step, roomId: RoomId, address: Address)
    requires s.Add? && Busy(t, roomId, address)
    ensures Untouched(t, Next(t, s), roomId, address)
  {
    var u := Next(t, s);
    if AnyBusy(t, s.roomId, s.addresses) {
      assert u == t;
    } else if u != t {
      var invited := InvitedRows(t.wallets, s.roomId, s.addresses);
      assert u.members == t.members + invited;
      assert forall i :: 0 <= i < |invited| ==> invited[i] in invited;
    }
  }

  lemma CreateRespectsLock(t: Tables, s: Step, roomId: RoomId, address: Address)
    requires RoomsExist(t) && s.Create? && Busy(t, roomId, address)
    ensures Untouched(t, Next(t, s), roomId, address)
    ensures Next(t, s).notis == t.notis && Next(t, s).now == t.now
  {
    var u := Next(t, s);
    var invited := InvitedRows(t.wallets, t.rooms, Others(s.addresses, s.own));
    assert t.notis + LockRows(CreateGroupChatJob, t.rooms, [], t.now) == t.notis;
    if u != t {
      assert u.members == t.members + [MemberRow(t.rooms, s.userId, s.own, Owner, Joined)] + invited;
      assert forall i :: 0 <= i < |invited| ==> invited[i] in invited;
    }
  }

  /** Leaving, approving and role changes only queue work. */
  lemma QueuingRequestRespectsLock(t: Tables, s: Step, roomId: RoomId, address: Address)
    requires s.Leave? || s.Approve? || s.EditRole? || s.NewWallet?
    ensures Next(t, s).members == t.members && Untouched(t, Next(t, s), roomId, address)
  {
  }

  /** Requests only append notifications. */
  lemma RequestAppendsLocks(t: Tables, s: Step)
    requires IsRequest(s)
    ensures t.notis <= Next(t, s).notis && t.now == Next(t, s).now
  {
  }

  /** While a lock is held, no request touches the address's membership or the lock. */
  lemma RequestRespectsLock(t: Tables, s: Step, roomId: RoomId, address: Address)
    requires Inv(t) && IsRequest(s) && Busy(t, roomId, address)
    ensures Untouched(t, Next(t, s), roomId, address)
    ensures t.notis <= Next(t, s).notis && t.now == Next(t, s).now
  {
    RequestAppendsLocks(t, s);
    match s
    case Create(_, _, _, _) => CreateRespectsLock(t, s, roomId, address);
    case Add(_, _, _) => AddRespectsLock(t, s, roomId, address);
    case Remove(_, _, _, _) => RemoveRespectsLock(t, s, roomId, address);
    case Join(_, _, _) | Reject(_, _) | CancelInvite(_, _, _) => MovingRequestRespectsLock(t, s, roomId, address);
    case _ => QueuingRequestRespectsLock(t, s, roomId, address);
  }

  /** The step is not the worker finishing notification `k` or acting on a row of its address. */
  ghost predicate Spares(t: Tables, s: Step, k: nat)
    requires k < |t.notis|
  {
    match s
    case WorkerFinish(j, status) => j == k ==> status != Completed && status != Failed
    case WorkerAccept(i) => i < |t.members| ==> !OwnsLock(t.members[i], t.notis[k])
    case WorkerOut(i) => i < |t.members| ==> !OwnsLock(t.members[i], t.notis[k])
    case _ => true
  }

  predicate OwnsLock(m: MemberRow, n: Notification) {
    m.roomId == n.roomId && m.address == n.address
  }

  ghost predicate SparedThroughout(t: Tables, steps: seq<Step>, k: nat)
    requires k < |t.notis|
    decreases |steps|
  {
    |steps| == 0 ||
    (Spares(t, steps[0], k) && k < |Next(t, steps[0]).notis| && SparedThroughout(Next(t, steps[0]), steps[1..], k))
  }

  lemma SparingStepRespectsLock(t: Tables, s: Step, k: nat)
    requires Inv(t) && WellFormed(s) && k < |t.notis| && Live(t.notis[k], t.now) && Spares(t, s, k)
    ensures Untouched(t, Next(t, s), t.notis[k].roomId, t.notis[k].address)
    ensures k < |Next(t, s).notis| && Progresses(t.notis[k], Next(t, s).notis[k]) && !IsFinished(Next(t, s).notis[k])
  {
    if IsRequest(s) {
      assert t.notis[k] in t.notis;
      RequestRespectsLock(t, s, t.notis[k].roomId, t.notis[k].address);
    }
  }

  /** Only a finished job or ten minutes release an address: over any run in which the worker may retry
      but does not finish the notification, leaves the address's rows alone and the window stays open, the
      rows stay as they are and the address stays busy. */
  lemma {:induction false} FrozenWhileHeld(t: Tables, steps: seq<Step>, k: nat)
    requires Inv(t) && AllWellFormed(steps) && k < |t.notis|
    requires SparedThroughout(t, steps, k)
    requires Live(t.notis[k], Run(t, steps).now)
    ensures Untouched(t, Run(t, steps), t.notis[k].roomId, t.notis[k].address)
    ensures k < |Run(t, steps).notis| && Progresses(t.notis[k], Run(t, steps).notis[k])
    ensures Busy(Run(t, steps), t.notis[k].roomId, t.notis[k].address)
    decreases |steps|
  {
    RunKeepsInv(t, steps);
    if |steps| == 0 {
      assert t.notis[k] in t.notis;
    } else {
      assert WellFormed(steps[0]);
      SparingStepRespectsLock(t, steps[0], k);
      StepKeepsInv(t, steps[0]);
      FrozenWhileHeld(Next(t, steps[0]), steps[1..], k);
      UntouchedTrans(t, Next(t, steps[0]), Run(t, steps), t.notis[k].roomId, t.notis[k].address);
    }
  }

  lemma UntouchedTrans(t: Tables, u: Tables, v: Tables, roomId: RoomId, address: Address)
    requires Untouched(t, u, roomId, address) && Untouched(u, v, roomId, address)
    ensures Untouched(t, v, roomId, address)
  {
    forall i | |t.members| <= i < |v.members| && v.members[i].roomId == roomId ensures v.members[i].address != address {
      if i < |u.members| {
        assert SameMember(v.members[i], u.members[i]);
      }
    }
  }

  // ------------------------------------------------------------------ when an address is free again

  /** An address is busy while one of its jobs in the room is neither completed nor failed and is less than ten
      minutes old. */
  lemma BusyIff(t: Tables, roomId: RoomId, address: Address)
    ensures Busy(t, roomId, address) <==>
            exists k :: 0 <= k < |t.notis| && t.notis[k].roomId == roomId && t.notis[k].address == address &&
                        t.notis[k].status in {InProgress, PendingRetry, Retrying} &&
                        t.now - t.notis[k].createdAt < 600000
  {
  }

  /** Completing or failing the job frees its address, which has no other live job, and no other address. */
  lemma FinishFrees(t: Tables, k: nat, status: TxStatus)
    requires Inv(t) && k < |t.notis| && Live(t.notis[k], t.now) && status in {Completed, Failed}
    ensures forall r: RoomId, a: Address :: Busy(Next(t, WorkerFinish(k, status)), r, a) <==>
              Busy(t, r, a) && !(r == t.notis[k].roomId && a == t.notis[k].address)
  {
    var u, n := Next(t, WorkerFinish(k, status)), t.notis[k];
    forall r: RoomId, a: Address ensures Busy(u, r, a) <==> Busy(t, r, a) && !(r == n.roomId && a == n.address) {
      if Busy(u, r, a) {
        var j :| 0 <= j < |u.notis| && u.notis[j].roomId == r && u.notis[j].address == a && Live(u.notis[j], u.now);
        assert u.notis[j] == t.notis[j] && t.notis[j] in t.notis;
      }
      if Busy(t, r, a) && !(r == n.roomId && a == n.address) {
        var j :| 0 <= j < |t.notis| && t.notis[j].roomId == r && t.notis[j].address == a && Live(t.notis[j], t.now);
        assert u.notis[j] == t.notis[j] && u.notis[j] in u.notis;
      }
    }
  }

  ghost predicate NoneFromFuture(t: Tables) {
    forall k :: 0 <= k < |t.notis| ==> t.notis[k].createdAt <= t.now
  }

  lemma StepKeepsPast(t: Tables, s: Step)
    requires NoneFromFuture(t)
    ensures NoneFromFuture(Next(t, s))
  {
    if s.Create? {
      CreateEffect(t, s.userId, s.own, s.addresses, s.canSend);
    }
  }

  lemma {:induction false} RunKeepsPast(t: Tables, steps: seq<Step>)
    requires NoneFromFuture(t)
    ensures NoneFromFuture(Run(t, steps))
    decreases |steps|
  {
    if |steps| > 0 {
      StepKeepsPast(t, steps[0]);
      RunKeepsPast(Next(t, steps[0]), steps[1..]);
    }
  }

  /** After any run, ten minutes free every address. */
  lemma {:induction false} WindowFrees(steps: seq<Step>, millis: nat, roomId: RoomId, address: Address)
    requires millis >= 600000
    ensures !Busy(Next(Run(EMPTY_TABLES, steps), Tick(millis)), roomId, address)
  {
    RunKeepsPast(EMPTY_TABLES, steps);
  }

  // ------------------------------------------------------------------ where repetitions break the invariant

  lemma LocksExclusiveIff(t: Tables, job: Job, roomId: RoomId, addresses: seq<Address>)
    requires Inv(t) && roomId < t.rooms
    requires forall a :: a in addresses ==> !Busy(t, roomId, a)
    ensures Exclusive(t.notis + LockRows(job, roomId, addresses, t.now), t.now) <==> Distinct(addresses)
  {
    var notis := t.notis + LockRows(job, roomId, addresses, t.now);
    if Distinct(addresses) {
      LocksKeepInv(t, job, roomId, addresses);
    } else {
      var i, j :| 0 <= i < j < |addresses| && addresses[i] == addresses[j];
      var m, n := notis[|t.notis| + i], notis[|t.notis| + j];
      assert SameLock(m, n) && Live(m, t.now) && Live(n, t.now);
    }
  }

  /** An accepted approval keeps the lock exclusive exactly when it names no address twice. */
  lemma ApproveExclusiveIff(t: Tables, userId: UserId, roomId: RoomId, addresses: seq<Address>)
    requires Inv(t) && ApproveMember(t, userId, roomId, addresses, true).reply == Accepted
    ensures Exclusive(ApproveMember(t, userId, roomId, addresses, true).after.notis, t.now) <==> Distinct(addresses)
  {
    LocksExclusiveIff(t, AcceptJoinGroupJob, roomId, addresses);
  }

  /** An accepted removal keeps it exactly when it names no joined address twice. */
  lemma RemoveExclusiveIff(t: Tables, userId: UserId, roomId: RoomId, addresses: seq<Address>)
    requires Inv(t) && RemoveMembers(t, userId, roomId, addresses, true).reply == Accepted
    ensures Exclusive(RemoveMembers(t, userId, roomId, addresses, true).after.notis, t.now)
            <==> Distinct(JoinedAddresses(t.members, roomId, addresses))
  {
    var joined := JoinedAddresses(t.members, roomId, addresses);
    if |joined| > 0 {
      LocksExclusiveIff(t, RemoveMembersJob, roomId, joined);
    }
  }

  /** A new group has unique active rows exactly when no registered other address is listed twice. */
  lemma CreateUniqueIff(t: Tables, userId: UserId, own: Address, addresses: seq<Address>, canSend: bool)
    requires Inv(t) && |addresses| <= MAX_MEMBER_PER_GROUP && |Others(addresses, own)| > 0
    ensures UniqueActive(CreateGroup(t, userId, own, addresses, canSend).after.members)
            <==> Distinct(AddressesOf(InvitedRows(t.wallets, t.rooms, Others(addresses, own))))
  {
    var owner := MemberRow(t.rooms, userId, own, Owner, Joined);
    OwnerKeepsInv(t, owner);
    InsertUniqueIff(t.members + [owner], InvitedRows(t.wallets, t.rooms, Others(addresses, own)), t.rooms);
  }

  /** A group of its owner alone. */
  function OwnerAlone(): Tables {
    Tables([MemberRow(0, 0, "a", Owner, Joined)], [], 1, 0, map[])
  }

  lemma OwnerAloneReached()
    ensures Run(EMPTY_TABLES, [Create(0, "a", ["b"], true)]) == OwnerAlone()
  {
    CreateEffect(EMPTY_TABLES, 0, "a", ["b"], true);
    assert ["b"][..0] == [] && Others(["b"], "a") == ["b"];
    var t := Next(EMPTY_TABLES, Create(0, "a", ["b"], true));
    assert Run(EMPTY_TABLES, [Create(0, "a", ["b"], true)]) == Run(t, []);
  }

  lemma TwoLocks(t: Tables, job: Job, address: Address)
    requires |t.notis| == 0
    ensures !Exclusive(t.notis + LockRows(job, 0, [address, address], t.now), t.now)
  {
    var locks := LockRows(job, 0, [address, address], t.now);
    assert (t.notis + locks)[0] == locks[0] && (t.notis + locks)[1] == locks[1];
    assert Live(locks[0], t.now) && Live(locks[1], t.now) && SameLock(locks[0], locks[1]);
  }

  /** Approving one address twice locks it twice. */
  lemma RepeatedApproval()
    ensures var t := Run(EMPTY_TABLES, [Create(0, "a", ["b"], true)]);
            && ApproveMember(t, 0, 0, ["c", "c"], true).reply == Accepted
            && !Exclusive(ApproveMember(t, 0, 0, ["c", "c"], true).after.notis, t.now)
  {
    OwnerAloneReached();
    TwoLocks(OwnerAlone(), AcceptJoinGroupJob, "c");
  }

  lemma {:induction false} JoinedTwice(rows: seq<MemberRow>, roomId: RoomId, a: Address, addresses: seq<Address>)
    requires addresses == [a, a] && HasJoined(rows, roomId, a)
    ensures JoinedAddresses(rows, roomId, addresses) == addresses
  {
    assert addresses[..1] == [a] && [a][..0] == [];
    assert JoinedAddresses(rows, roomId, [a]) == [a];
  }

  lemma {:induction false} OthersTwice(a: Address, own: Address, addresses: seq<Address>)
    requires addresses == [a, a] && a != own
    ensures Others(addresses, own) == addresses
  {
    assert addresses[..1] == [a] && [a][..0] == [];
    assert Others([a], own) == [a];
  }

  lemma {:induction false} InvitedTwice(wallets: map<Address, UserId>, roomId: RoomId, a: Address,
                                        addresses: seq<Address>)
    requires addresses == [a, a] && a in wallets
    ensures var row := MemberRow(roomId, wallets[a], a, Member, Invited);
            InvitedRows(wallets, roomId, addresses) == [row, row]
  {
    assert addresses[..1] == [a] && [a][..0] == [];
    assert InvitedRows(wallets, roomId, [a]) == [MemberRow(roomId, wallets[a], a, Member, Invited)];
  }

  /** So does removing one joined address twice. */
  lemma {:induction false} RepeatedRemoval()
    ensures var t := Run(EMPTY_TABLES, [Create(0, "a", ["b"], true)]);
            && RemoveMembers(t, 0, 0, ["a", "a"], true).reply == Accepted
            && !Exclusive(RemoveMembers(t, 0, 0, ["a", "a"], true).after.notis, t.now)
  {
    OwnerAloneReached();
    SelfRemoval(OwnerAlone(), 0, "a", ["a", "a"]);
  }

  lemma OnlyOwner(t: Tables, userId: UserId, own: Address)
    requires t.members == [MemberRow(0, userId, own, Owner, Joined)]
    ensures FindJoined(t, userId, 0) == Some(0) && IsOwnerOrAdmin(t, userId, 0) && HasJoined(t.members, 0, own)
  {
    assert t.members[0] in t.members;
  }

  lemma {:induction false} SelfRemoval(t: Tables, userId: UserId, own: Address, addresses: seq<Address>)
    requires t.members == [MemberRow(0, userId, own, Owner, Joined)] && t.notis == [] && addresses == [own, own]
    ensures RemoveMembers(t, userId, 0, addresses, true).reply == Accepted
    ensures !Exclusive(RemoveMembers(t, userId, 0, addresses, true).after.notis, t.now)
  {
    OnlyOwner(t, userId, own);
    JoinedTwice(t.members, 0, own, addresses);
    assert !AnyBusy(t, 0, addresses);
    TwoLocks(t, RemoveMembersJob, own);
  }

  /** Inviting one registered address twice at creation gives it two active rows. */
  lemma {:induction false} RepeatedInvitation(a: Address, own: Address, addresses: seq<Address>, steps: seq<Step>)
    requires addresses == [a, a] && a != own && steps == [NewWallet(a, 1), Create(0, own, addresses, true)]
    ensures !UniqueActive(Run(EMPTY_TABLES, steps).members)
  {
    RunOfTwo(EMPTY_TABLES, steps[0], steps[1]);
    InvitedAgain(Next(EMPTY_TABLES, steps[0]), 0, own, a, addresses);
  }

  lemma {:induction false} RunOfTwo(t: Tables, r: Step, s: Step)
    ensures Run(t, [r, s]) == Next(Next(t, r), s)
  {
    assert [r, s][1..] == [s] && [s][1..] == [];
    assert Run(Next(t, r), [s]) == Run(Next(Next(t, r), s), []);
  }

  lemma {:induction false} InvitedAgain(t: Tables, userId: UserId, own: Address, a: Address, addresses: seq<Address>)
    requires addresses == [a, a] && a != own && a in t.wallets && t.members == []
    ensures !UniqueActive(CreateGroup(t, userId, own, addresses, true).after.members)
  {
    var u := CreateGroup(t, userId, own, addresses, true).after;
    CreateEffect(t, userId, own, addresses, true);
    OthersTwice(a, own, addresses);
    InvitedTwice(t.wallets, t.rooms, a, addresses);
    assert SameMember(u.members[1], u.members[2]) && IsActive(u.members[1]) && IsActive(u.members[2]);
  }

  // ------------------------------------------------------------------ capacity

  /** Creation reaches one above the limit exactly when every listed address is another registered user
      and the list is full; adding members never leaves more than the limit. */
  lemma CapacityReached(t: Tables, userId: UserId, own: Address, addresses: seq<Address>, canSend: bool)
    requires Inv(t) && Distinct(addresses) && CreateGroup(t, userId, own, addresses, canSend).after != t
    ensures ActiveCount(CreateGroup(t, userId, own, addresses, canSend).after.members, t.rooms) > 100
            <==> |addresses| == 100 && forall a :: a in addresses ==> a != own && a in t.wallets
  {
    CreateKeepsInv(t, userId, own, addresses, canSend);
    AllInvitedIff(t.wallets, t.rooms, Others(addresses, own));
    AllOthersIff(addresses, own);
  }

  lemma {:induction false} AllInvitedIff(wallets: map<Address, UserId>, roomId: RoomId, addresses: seq<Address>)
    ensures |InvitedRows(wallets, roomId, addresses)| == |addresses| <==> forall a :: a in addresses ==> a in wallets
  {
    if |addresses| > 0 {
      var front := addresses[..|addresses| - 1];
      AllInvitedIff(wallets, roomId, front);
      assert addresses == front + [addresses[|addresses| - 1]];
    }
  }

  lemma {:induction false} AllOthersIff(addresses: seq<Address>, own: Address)
    ensures |Others(addresses, own)| == |addresses| <==> own !in addresses
  {
    if |addresses| > 0 {
      var front := addresses[..|addresses| - 1];
      AllOthersIff(front, own);
      assert addresses == front + [addresses[|addresses| - 1]];
    }
  }

  /** Every add-members step of a run that inserts anything leaves the room within the limit. */
  lemma AddStaysWithinLimit(steps: seq<Step>, userId: UserId, roomId: RoomId, addresses: seq<Address>)
    requires AllWellFormed(steps) && Distinct(addresses)
    ensures var t := Run(EMPTY_TABLES, steps);
            var u := AddMembers(t, userId, roomId, addresses).after;
            |u.members| > |t.members| ==> ActiveCount(u.members, roomId) <= 100
  {
    ReachableStates(steps);
    assert Inv(EMPTY_TABLES);
    RunKeepsInv(EMPTY_TABLES, steps);
    AddKeepsInv(Run(EMPTY_TABLES, steps), userId, roomId, addresses);
  }
}
