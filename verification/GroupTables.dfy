/** The tables behind group chats, and every request and worker action on them as a
    transition from one table state to the next. A row's id is its position in its table. */
module GroupTables {
  import opened Wrappers

  type UserId = nat
  type RoomId = nat
  /** Addresses are taken after normalisation, so equality is equality of addresses. */
  type Address = string

  const MAX_MEMBER_PER_GROUP: nat := 100
  /** Ten minutes in milliseconds. */
  const LOCK_WINDOW: nat := 1000 * 60 * 10

  datatype MemberStatus = Invited | PendingApproval | Joined | Out | Cancel
  datatype Role = Member | Admin | Owner
  datatype MemberRow = MemberRow(roomId: RoomId, userId: UserId, address: Address, role: Role, status: MemberStatus)

  datatype TxStatus = InProgress | PendingRetry | Retrying | Completed | Failed
  datatype Job =
    | LeaveRoomJob | RemoveMembersJob | AcceptJoinGroupJob | SetAdminJob | RemoveAdminJob
    | CreateGroupChatJob | ChangeGroupNameJob
  datatype Notification = Notification(roomId: RoomId, address: Address, job: Job, status: TxStatus, createdAt: nat)

  datatype Tables = Tables(
    members: seq<MemberRow>,
    notis: seq<Notification>,
    rooms: nat,
    now: nat,
    wallets: map<Address, UserId>)

  const EMPTY_TABLES := Tables([], [], 0, 0, map[])

  datatype Refusal =
    | NotInvited | NotInRoom | NotMember | NoPermission | AlreadyMember | LockedByProgress
    | GroupFull | NoOtherMember | NotRegistered | MixedRoles | NetworkMismatch | NullDereference
  datatype Reply = Accepted | Refused(reason: Refusal)
  datatype Outcome = Outcome(after: Tables, reply: Reply)

  // ------------------------------------------------------------------ queries

  predicate IsActive(m: MemberRow) {
    m.status != Out && m.status != Cancel
  }

  /** The `where` object of a member query; a `None` column is left out of the query. */
  datatype Where = Where(roomId: RoomId, userId: Option<UserId>, status: Option<MemberStatus>, role: Option<Role>)

  predicate Matches(m: MemberRow, w: Where) {
    && m.roomId == w.roomId
    && (w.userId == None || w.userId == Some(m.userId))
    && (w.status == None || w.status == Some(m.status))
    && (w.role == None || w.role == Some(m.role))
  }

  /** `findOne`: the id of the oldest row that matches. */
  function FindOne(rows: seq<MemberRow>, w: Where, from: nat := 0): (r: Option<nat>)
    requires from <= |rows|
    ensures r.Some? ==> from <= r.value < |rows| && Matches(rows[r.value], w)
    ensures r.Some? ==> forall i :: from <= i < r.value ==> !Matches(rows[i], w)
    ensures r.None? ==> forall i :: from <= i < |rows| ==> !Matches(rows[i], w)
    decreases |rows| - from
  {
    if from == |rows| then None
    else if Matches(rows[from], w) then Some(from)
    else FindOne(rows, w, from + 1)
  }

  function FindJoined(t: Tables, userId: UserId, roomId: RoomId): Option<nat> {
    FindOne(t.members, Where(roomId, Some(userId), Some(Joined), None))
  }

  /** `checkRole` reads the user's oldest row in the room, whatever its status. */
  predicate IsOwnerOrAdmin(t: Tables, userId: UserId, roomId: RoomId) {
    var row := FindOne(t.members, Where(roomId, Some(userId), None, None));
    row.Some? && t.members[row.value].role in {Admin, Owner}
  }

  function ActiveCount(rows: seq<MemberRow>, roomId: RoomId): nat {
    if |rows| == 0 then 0
    else
      var last := rows[|rows| - 1];
      ActiveCount(rows[..|rows| - 1], roomId) + if last.roomId == roomId && IsActive(last) then 1 else 0
  }

  predicate HasActive(rows: seq<MemberRow>, roomId: RoomId, address: Address) {
    exists m | m in rows :: m.roomId == roomId && m.address == address && IsActive(m)
  }

  // ------------------------------------------------------------------ the lock

  /** A notification holds its (room, address) while it is unfinished and younger than the window. */
  predicate Live(n: Notification, now: nat) {
    now < n.createdAt + LOCK_WINDOW && n.status != Completed && n.status != Failed
  }

  predicate Busy(t: Tables, roomId: RoomId, address: Address) {
    exists n | n in t.notis :: n.roomId == roomId && n.address == address && Live(n, t.now)
  }

  predicate AnyBusy(t: Tables, roomId: RoomId, addresses: seq<Address>) {
    exists a | a in addresses :: Busy(t, roomId, a)
  }

  function LockRows(job: Job, roomId: RoomId, addresses: seq<Address>, now: nat): (r: seq<Notification>)
    ensures |r| == |addresses|
    ensures forall i :: 0 <= i < |r| ==> r[i] == Notification(roomId, addresses[i], job, InProgress, now)
  {
    seq(|addresses|, i requires 0 <= i < |addresses| => Notification(roomId, addresses[i], job, InProgress, now))
  }

  /** Which addresses a queued job locks. */
  function LockedBy(job: Job, fromAddress: Address, toAddresses: seq<Address>): seq<Address> {
    match job
    case LeaveRoomJob => [fromAddress]
    case RemoveMembersJob | AcceptJoinGroupJob | SetAdminJob | RemoveAdminJob => toAddresses
    case CreateGroupChatJob | ChangeGroupNameJob => []
  }

  /** `sendChatQueueData`: `canSend` is the answer of the shared-network check. */
  function Enqueue(t: Tables, job: Job, roomId: RoomId, fromAddress: Address, toAddresses: seq<Address>,
                   canSend: bool): Outcome {
    if !canSend then Outcome(t, Refused(NetworkMismatch))
    else Outcome(t.(notis := t.notis + LockRows(job, roomId, LockedBy(job, fromAddress, toAddresses), t.now)), Accepted)
  }

  // ------------------------------------------------------------------ requests

  function SetStatus(t: Tables, id: nat, status: MemberStatus): Tables
    requires id < |t.members|
  {
    t.(members := t.members[id := t.members[id].(status := status)])
  }

  function JoinRoom(t: Tables, userId: UserId, roomId: RoomId, canSend: bool): Outcome {
    var invited := FindOne(t.members, Where(roomId, Some(userId), Some(Invited), None));
    if invited.None? then Outcome(t, Refused(NotInvited))
    else
      var address := t.members[invited.value].address;
      if Busy(t, roomId, address) then Outcome(t, Refused(LockedByProgress))
      else
        var t1 := SetStatus(t, invited.value, PendingApproval);
        var owner := FindOne(t1.members, Where(roomId, None, None, Some(Owner)));
        if owner.None? then Outcome(t1, Accepted)
        else Enqueue(t1, AcceptJoinGroupJob, roomId, t1.members[owner.value].address, [address], canSend)
  }

  function LeaveRoom(t: Tables, userId: UserId, roomId: RoomId, canSend: bool): Outcome {
    var joined := FindJoined(t, userId, roomId);
    if joined.None? then Outcome(t, Refused(NotInRoom))
    else
      var address := t.members[joined.value].address;
      if Busy(t, roomId, address) then Outcome(t, Refused(LockedByProgress))
      else Enqueue(t, LeaveRoomJob, roomId, address, [address], canSend)
  }

  function RejectInvitation(t: Tables, userId: UserId, roomId: RoomId): Outcome {
    var invited := FindOne(t.members, Where(roomId, Some(userId), Some(Invited), None));
    if invited.None? then Outcome(t, Refused(NotInvited))
    else if Busy(t, roomId, t.members[invited.value].address) then Outcome(t, Refused(LockedByProgress))
    else Outcome(SetStatus(t, invited.value, Cancel), Accepted)
  }

  function UpdateMemberStatus(t: Tables, ownerId: UserId, memberId: UserId, roomId: RoomId,
                              oldStatus: MemberStatus, newStatus: MemberStatus): Outcome
  {
    var member := FindOne(t.members, Where(roomId, Some(memberId), Some(oldStatus), None));
    if !IsOwnerOrAdmin(t, ownerId, roomId) then Outcome(t, Refused(NoPermission))
    else if member.None? then Outcome(t, Refused(NotMember))
    else if Busy(t, roomId, t.members[member.value].address) then Outcome(t, Refused(LockedByProgress))
    else Outcome(SetStatus(t, member.value, newStatus), Accepted)
  }

  function CancelInviteMember(t: Tables, userId: UserId, invitedId: UserId, roomId: RoomId): Outcome {
    UpdateMemberStatus(t, userId, invitedId, roomId, Invited, Out)
  }

  /** Locks every requested address, pending or not. */
  function ApproveMember(t: Tables, userId: UserId, roomId: RoomId, addresses: seq<Address>, canSend: bool): Outcome {
    var approver := FindJoined(t, userId, roomId);
    if approver.None? then Outcome(t, Refused(NullDereference))
    else if t.members[approver.value].role == Member then Outcome(t, Refused(NoPermission))
    else if AnyBusy(t, roomId, addresses) then Outcome(t, Refused(LockedByProgress))
    else Enqueue(t, AcceptJoinGroupJob, roomId, t.members[approver.value].address, addresses, canSend)
  }

  predicate IsRemovable(m: MemberRow, roomId: RoomId, addresses: seq<Address>) {
    m.roomId == roomId && m.address in addresses && (m.status == Invited || m.status == PendingApproval)
  }

  function RemoveUninvolved(rows: seq<MemberRow>, roomId: RoomId, addresses: seq<Address>): (r: seq<MemberRow>)
    ensures |r| == |rows|
    ensures forall i :: 0 <= i < |r| ==>
      r[i] == if IsRemovable(rows[i], roomId, addresses) then rows[i].(status := Out) else rows[i]
  {
    seq(|rows|, i requires 0 <= i < |rows| =>
      if IsRemovable(rows[i], roomId, addresses) then rows[i].(status := Out) else rows[i])
  }

  predicate HasJoined(rows: seq<MemberRow>, roomId: RoomId, address: Address) {
    exists m | m in rows :: m.roomId == roomId && m.address == address && m.status == Joined
  }

  function JoinedAddresses(rows: seq<MemberRow>, roomId: RoomId, addresses: seq<Address>): (r: seq<Address>)
    ensures forall a :: a in r <==> a in addresses && HasJoined(rows, roomId, a)
  {
    if |addresses| == 0 then []
    else
      var last := addresses[|addresses| - 1];
      JoinedAddresses(rows, roomId, addresses[..|addresses| - 1]) +
      if HasJoined(rows, roomId, last) then [last] else []
  }

  /** Invited and pending rows leave at once; joined ones are queued for the worker. The status
      updates are issued before the queue call, so they stay when that call fails. */
  function RemoveMembers(t: Tables, userId: UserId, roomId: RoomId, addresses: seq<Address>, canSend: bool): Outcome {
    var remover := FindJoined(t, userId, roomId);
    if !IsOwnerOrAdmin(t, userId, roomId) then Outcome(t, Refused(NoPermission))
    else if AnyBusy(t, roomId, addresses) then Outcome(t, Refused(LockedByProgress))
    else
      var joined := JoinedAddresses(t.members, roomId, addresses);
      var t1 := t.(members := RemoveUninvolved(t.members, roomId, addresses));
      if |joined| == 0 then Outcome(t1, Accepted)
      else if remover.None? then Outcome(t1, Refused(NullDereference))
      else Enqueue(t1, RemoveMembersJob, roomId, t.members[remover.value].address, joined, canSend)
  }

  /** The rows that inviting `addresses` inserts: one per registered address, in order. */
  function InvitedRows(wallets: map<Address, UserId>, roomId: RoomId, addresses: seq<Address>): (r: seq<MemberRow>)
    ensures |r| <= |addresses|
    ensures forall m :: m in r <==>
      m.address in addresses && m.address in wallets &&
        m == MemberRow(roomId, wallets[m.address], m.address, Member, Invited)
  {
    if |addresses| == 0 then []
    else
      var last := addresses[|addresses| - 1];
      InvitedRows(wallets, roomId, addresses[..|addresses| - 1]) +
      if last in wallets then [MemberRow(roomId, wallets[last], last, Member, Invited)] else []
  }

  /** The additions run concurrently in the source; module AddMembersRace shows that for a list
      without repetitions every interleaving ends in this state up to the order of the new rows. */
  function AddMembers(t: Tables, userId: UserId, roomId: RoomId, addresses: seq<Address>): Outcome {
    var caller := FindJoined(t, userId, roomId);
    if |addresses| > MAX_MEMBER_PER_GROUP then Outcome(t, Refused(GroupFull))
    else if ActiveCount(t.members, roomId) + |addresses| > MAX_MEMBER_PER_GROUP then Outcome(t, Refused(GroupFull))
    else if caller.None? then Outcome(t, Refused(NullDereference))
    else if t.members[caller.value].role != Owner then Outcome(t, Refused(NoPermission))
    else if exists a | a in addresses :: HasActive(t.members, roomId, a) then Outcome(t, Refused(AlreadyMember))
    else if AnyBusy(t, roomId, addresses) then Outcome(t, Refused(LockedByProgress))
    else Outcome(t.(members := t.members + InvitedRows(t.wallets, roomId, addresses)),
                 if forall a | a in addresses :: a in t.wallets then Accepted else Refused(NotRegistered))
  }

  function Others(addresses: seq<Address>, own: Address): (r: seq<Address>)
    ensures |r| <= |addresses|
    ensures forall a :: a in r <==> a in addresses && a != own
  {
    if |addresses| == 0 then []
    else
      var last := addresses[|addresses| - 1];
      Others(addresses[..|addresses| - 1], own) + if last != own then [last] else []
  }

  /** Unregistered addresses are skipped silently. */
  function CreateGroup(t: Tables, userId: UserId, own: Address, addresses: seq<Address>, canSend: bool): Outcome {
    if |addresses| > MAX_MEMBER_PER_GROUP then Outcome(t, Refused(GroupFull))
    else if |Others(addresses, own)| == 0 then Outcome(t, Refused(NoOtherMember))
    else
      var owner := MemberRow(t.rooms, userId, own, Owner, Joined);
      var t1 := t.(rooms := t.rooms + 1,
                   members := t.members + [owner] + InvitedRows(t.wallets, t.rooms, Others(addresses, own)));
      Enqueue(t1, CreateGroupChatJob, t.rooms, own, [], canSend)
  }

  /** The joined rows of the listed users, in id order. */
  function JoinedOf(rows: seq<MemberRow>, roomId: RoomId, userIds: seq<UserId>): (r: seq<MemberRow>)
    ensures forall m :: m in r <==> m in rows && m.roomId == roomId && m.userId in userIds && m.status == Joined
  {
    if |rows| == 0 then []
    else
      var last := rows[|rows| - 1];
      JoinedOf(rows[..|rows| - 1], roomId, userIds) +
      if last.roomId == roomId && last.userId in userIds && last.status == Joined then [last] else []
  }

  function AddressesOf(rows: seq<MemberRow>): (r: seq<Address>)
    ensures |r| == |rows|
    ensures forall i :: 0 <= i < |r| ==> r[i] == rows[i].address
  {
    seq(|rows|, i requires 0 <= i < |rows| => rows[i].address)
  }

  predicate HasMixedRoles(rows: seq<MemberRow>) {
    exists m, n | m in rows && n in rows :: m.role != n.role
  }

  function EditMemberRole(t: Tables, userId: UserId, roomId: RoomId, memberIds: seq<UserId>, role: Role,
                          canSend: bool): Outcome {
    var owner := FindJoined(t, userId, roomId);
    if owner.None? || t.members[owner.value].role != Owner then Outcome(t, Refused(NoPermission))
    else
      var members := JoinedOf(t.members, roomId, memberIds);
      if HasMixedRoles(members) then Outcome(t, Refused(MixedRoles))
      else if AnyBusy(t, roomId, AddressesOf(members)) then Outcome(t, Refused(LockedByProgress))
      else if (|members| > 0 && role == members[0].role) || role == Owner then Outcome(t, Accepted)
      else Enqueue(t, if role == Admin then SetAdminJob else RemoveAdminJob, roomId,
                   t.members[owner.value].address, AddressesOf(members), canSend)
  }

  // ------------------------------------------------------------------ runs

  /** One request, one action of the queue worker, one new wallet, or a passage of time. */
  datatype Step =
    | Join(userId: UserId, roomId: RoomId, canSend: bool)
    | Leave(userId: UserId, roomId: RoomId, canSend: bool)
    | Reject(userId: UserId, roomId: RoomId)
    | CancelInvite(userId: UserId, invitedId: UserId, roomId: RoomId)
    | Approve(userId: UserId, roomId: RoomId, addresses: seq<Address>, canSend: bool)
    | Remove(userId: UserId, roomId: RoomId, addresses: seq<Address>, canSend: bool)
    | Add(userId: UserId, roomId: RoomId, addresses: seq<Address>)
    | Create(userId: UserId, own: Address, addresses: seq<Address>, canSend: bool)
    | EditRole(userId: UserId, roomId: RoomId, memberIds: seq<UserId>, role: Role, canSend: bool)
    | WorkerFinish(noti: nat, txStatus: TxStatus)
    | WorkerAccept(member: nat)
    | WorkerOut(member: nat)
    | WorkerRole(member: nat, role: Role)
    | NewWallet(address: Address, userId: UserId)
    | Tick(millis: nat)

  /** Requests name each address once. */
  ghost predicate WellFormed(s: Step) {
    match s
    case Approve(_, _, addresses, _) => Distinct(addresses)
    case Remove(_, _, addresses, _) => Distinct(addresses)
    case Add(_, _, addresses) => Distinct(addresses)
    case Create(_, _, addresses, _) => Distinct(addresses)
    case _ => true
  }

  /** The worker never reopens a finished notification, moves pending rows to joined and joined
      rows to out, and may change a role; anything else it is asked to do has no effect. */
  function WorkerStep(t: Tables, s: Step): Tables
    requires s.WorkerFinish? || s.WorkerAccept? || s.WorkerOut? || s.WorkerRole?
  {
    match s
    case WorkerFinish(k, status) =>
      if k < |t.notis| && t.notis[k].status != Completed && t.notis[k].status != Failed
      then t.(notis := t.notis[k := t.notis[k].(status := status)]) else t
    case WorkerAccept(i) =>
      if i < |t.members| && t.members[i].status == PendingApproval then SetStatus(t, i, Joined) else t
    case WorkerOut(i) =>
      if i < |t.members| && t.members[i].status == Joined then SetStatus(t, i, Out) else t
    case WorkerRole(i, role) =>
      if i < |t.members| then t.(members := t.members[i := t.members[i].(role := role)]) else t
  }

  function Perform(t: Tables, s: Step): Outcome {
    match s
    case Join(u, r, canSend) => JoinRoom(t, u, r, canSend)
    case Leave(u, r, canSend) => LeaveRoom(t, u, r, canSend)
    case Reject(u, r) => RejectInvitation(t, u, r)
    case CancelInvite(u, v, r) => CancelInviteMember(t, u, v, r)
    case Approve(u, r, addresses, canSend) => ApproveMember(t, u, r, addresses, canSend)
    case Remove(u, r, addresses, canSend) => RemoveMembers(t, u, r, addresses, canSend)
    case Add(u, r, addresses) => AddMembers(t, u, r, addresses)
    case Create(u, own, addresses, canSend) => CreateGroup(t, u, own, addresses, canSend)
    case EditRole(u, r, ids, role, canSend) => EditMemberRole(t, u, r, ids, role, canSend)
    case WorkerFinish(_, _) | WorkerAccept(_) | WorkerOut(_) | WorkerRole(_, _) => Outcome(WorkerStep(t, s), Accepted)
    case NewWallet(a, u) =>
      if a in t.wallets then Outcome(t, Refused(AlreadyMember)) else Outcome(t.(wallets := t.wallets[a := u]), Accepted)
    case Tick(d) => Outcome(t.(now := t.now + d), Accepted)
  }

  function Next(t: Tables, s: Step): Tables {
    Perform(t, s).after
  }

  function Run(t: Tables, steps: seq<Step>): Tables
    decreases |steps|
  {
    if |steps| == 0 then t else Run(Next(t, steps[0]), steps[1..])
  }

  ghost predicate AllWellFormed(steps: seq<Step>) {
    forall i :: 0 <= i < |steps| ==> WellFormed(steps[i])
  }
}
