/** The concurrent additions inside one add-members call. Each address is a task that checks for an
    active row, looks up the wallet and inserts, with the other tasks' steps in between. */
module AddMembersRace {
  import opened Wrappers
  import opened GroupTables
  import opened GroupInvariants

  datatype Task = Checking | LookingUp | Inserting(userId: UserId) | Done | Thrown
  datatype Race = Race(rows: seq<MemberRow>, tasks: seq<Task>)

  datatype Call = Call(wallets: map<Address, UserId>, roomId: RoomId, addresses: seq<Address>, before: seq<MemberRow>) {

    function Row(address: Address): MemberRow
      requires address in wallets
    {
      MemberRow(roomId, wallets[address], address, Member, Invited)
    }

    function Start(): Race {
      Race(before, seq(|addresses|, i => Checking))
    }

    /** Task `k` runs up to its next database access. */
    function Advance(r: Race, k: nat): (s: Race)
      requires |r.tasks| == |addresses|
      ensures |s.tasks| == |addresses|
    {
      if k >= |addresses| then r
      else
        var address := addresses[k];
        match r.tasks[k]
        case Checking =>
          r.(tasks := r.tasks[k := if HasActive(r.rows, roomId, address) then Thrown else LookingUp])
        case LookingUp =>
          r.(tasks := r.tasks[k := if address in wallets then Inserting(wallets[address]) else Thrown])
        case Inserting(userId) =>
          Race(r.rows + [MemberRow(roomId, userId, address, Member, Invited)], r.tasks[k := Done])
        case Done | Thrown => r
    }

    function Play(r: Race, schedule: seq<nat>): (s: Race)
      requires |r.tasks| == |addresses|
      ensures |s.tasks| == |addresses|
    {
      if |schedule| == 0 then r
      else Advance(Play(r, schedule[..|schedule| - 1]), schedule[|schedule| - 1])
    }

    ghost predicate Complete(r: Race) {
      forall k :: 0 <= k < |r.tasks| ==> r.tasks[k].Done? || r.tasks[k].Thrown?
    }

    /** The call throws as soon as one of its tasks does. */
    ghost predicate Throws(r: Race) {
      exists k :: 0 <= k < |r.tasks| && r.tasks[k].Thrown?
    }

    /** The pre-checks of the call found none of the addresses active. */
    ghost predicate Admitted() {
      forall a :: a in addresses ==> !HasActive(before, roomId, a)
    }

    /** The rows that one insert per registered address gives. */
    function Invitations(): seq<MemberRow> {
      InvitedRows(wallets, roomId, addresses)
    }

    ghost predicate RegisteredDistinct() {
      forall i, j :: 0 <= i < j < |addresses| && addresses[i] in wallets ==> addresses[i] != addresses[j]
    }

    // ---------------------------------------------------------------- every schedule, same rows

    /** What a task contributes to the table once it is done. */
    ghost function Contribution(k: nat, task: Task): multiset<MemberRow>
      requires k < |addresses|
    {
      if task.Done? && addresses[k] in wallets then multiset{Row(addresses[k])} else multiset{}
    }

    /** The rows of the finished insertions among the first `n` tasks. */
    ghost function DoneRows(tasks: seq<Task>, n: nat): multiset<MemberRow>
      requires n <= |tasks| == |addresses|
    {
      if n == 0 then multiset{} else DoneRows(tasks, n - 1) + Contribution(n - 1, tasks[n - 1])
    }

    lemma {:induction false} DoneRowsBelow(tasks: seq<Task>, n: nat, k: nat, task: Task)
      requires n <= k < |tasks| == |addresses|
      ensures DoneRows(tasks[k := task], n) == DoneRows(tasks, n)
    {
      if n > 0 {
        DoneRowsBelow(tasks, n - 1, k, task);
      }
    }

    lemma SwapAdded(a: multiset<MemberRow>, b: multiset<MemberRow>, c: multiset<MemberRow>)
      ensures a + b + c == a + c + b
    {
    }

    lemma {:induction false} DoneRowsUpdate(tasks: seq<Task>, n: nat, k: nat, task: Task)
      requires k < n <= |tasks| == |addresses| && !tasks[k].Done?
      ensures DoneRows(tasks[k := task], n) == DoneRows(tasks, n) + Contribution(k, task)
    {
      if k == n - 1 {
        DoneRowsBelow(tasks, k, k, task);
      } else {
        DoneRowsUpdate(tasks, n - 1, k, task);
        SwapAdded(DoneRows(tasks, n - 1), Contribution(k, task), Contribution(n - 1, tasks[n - 1]));
      }
    }

    lemma {:induction false} DoneRowsMember(tasks: seq<Task>, n: nat, m: MemberRow)
      requires n <= |tasks| == |addresses| && m in DoneRows(tasks, n)
      ensures exists j :: 0 <= j < n && tasks[j].Done? && addresses[j] in wallets && m == Row(addresses[j])
    {
      if !(tasks[n - 1].Done? && addresses[n - 1] in wallets && m == Row(addresses[n - 1])) {
        DoneRowsMember(tasks, n - 1, m);
      }
    }

    lemma {:induction false} DoneRowsAll(tasks: seq<Task>, n: nat)
      requires n <= |tasks| == |addresses|
      requires forall k :: 0 <= k < n ==> (tasks[k].Done? <==> addresses[k] in wallets)
      ensures DoneRows(tasks, n) == multiset(InvitedRows(wallets, roomId, addresses[..n]))
    {
      if n > 0 {
        DoneRowsAll(tasks, n - 1);
        assert addresses[..n][..n - 1] == addresses[..n - 1];
      }
    }

    ghost predicate Consistent(r: Race) {
      && |r.tasks| == |addresses|
      && before <= r.rows
      && multiset(r.rows[|before|..]) == DoneRows(r.tasks, |addresses|)
      && forall k :: 0 <= k < |addresses| ==>
           match r.tasks[k]
           case Inserting(userId) => addresses[k] in wallets && userId == wallets[addresses[k]]
           case Done => addresses[k] in wallets
           case Thrown => addresses[k] !in wallets
           case _ => true
    }

    lemma NoForeignRow(r: Race, k: nat)
      requires Admitted() && RegisteredDistinct() && Consistent(r)
      requires k < |addresses| && addresses[k] in wallets && !r.tasks[k].Done?
      ensures !HasActive(r.rows, roomId, addresses[k])
    {
      forall m | m in r.rows && m.roomId == roomId && m.address == addresses[k] && IsActive(m) ensures false {
        var added := r.rows[|before|..];
        assert r.rows == before + added;
        if m in before {
          assert HasActive(before, roomId, addresses[k]);
        } else {
          assert m in multiset(added);
          DoneRowsMember(r.tasks, |addresses|, m);
        }
      }
    }

    lemma InsertKeepsConsistent(r: Race, k: nat)
      requires Consistent(r) && k < |addresses| && r.tasks[k].Inserting?
      ensures Consistent(Advance(r, k))
    {
      var s := Advance(r, k);
      DoneRowsUpdate(r.tasks, |addresses|, k, Done);
      assert s.rows[|before|..] == r.rows[|before|..] + [Row(addresses[k])];
    }

    lemma AdvanceKeepsConsistent(r: Race, k: nat)
      requires Admitted() && RegisteredDistinct() && Consistent(r)
      ensures Consistent(Advance(r, k))
    {
      if k < |addresses| {
        if r.tasks[k].Inserting? {
          InsertKeepsConsistent(r, k);
        } else if r.tasks[k].Checking? || r.tasks[k].LookingUp? {
          var task := Advance(r, k).tasks[k];
          DoneRowsUpdate(r.tasks, |addresses|, k, task);
          if r.tasks[k].Checking? && addresses[k] in wallets {
            NoForeignRow(r, k);
          }
        }
      }
    }

    lemma {:induction false} PlayConsistent(schedule: seq<nat>)
      requires Admitted() && RegisteredDistinct()
      ensures Consistent(Play(Start(), schedule))
    {
      if |schedule| == 0 {
        StartEmpty(|addresses|);
        assert before[|before|..] == [];
      } else {
        PlayConsistent(schedule[..|schedule| - 1]);
        AdvanceKeepsConsistent(Play(Start(), schedule[..|schedule| - 1]), schedule[|schedule| - 1]);
      }
    }

    lemma {:induction false} StartEmpty(n: nat)
      requires n <= |addresses|
      ensures DoneRows(Start().tasks, n) == multiset{}
    {
      if n > 0 {
        StartEmpty(n - 1);
      }
    }

    lemma CompletedOutcome(r: Race)
      requires Consistent(r) && Complete(r)
      ensures multiset(r.rows[|before|..]) == multiset(Invitations())
    {
      forall k | 0 <= k < |addresses| ensures r.tasks[k].Done? <==> addresses[k] in wallets {
        assert r.tasks[k].Done? || r.tasks[k].Thrown?;
      }
      DoneRowsAll(r.tasks, |addresses|);
      assert addresses[..|addresses|] == addresses;
    }

    lemma CompletedVerdict(r: Race)
      requires Consistent(r) && Complete(r)
      ensures Throws(r) <==> exists a :: a in addresses && a !in wallets
    {
      if a :| a in addresses && a !in wallets {
        var k :| 0 <= k < |addresses| && addresses[k] == a;
        assert r.tasks[k].Thrown?;
      }
    }

    /** Without a repeated registered address, every completed interleaving inserts the same rows and
        throws in the same cases: when some address is not registered. */
    lemma EveryScheduleAgrees(schedule: seq<nat>)
      requires Admitted() && RegisteredDistinct()
      requires Complete(Play(Start(), schedule))
      ensures var r := Play(Start(), schedule);
              && before <= r.rows
              && multiset(r.rows[|before|..]) == multiset(Invitations())
              && (Throws(r) <==> exists a :: a in addresses && a !in wallets)
    {
      PlayConsistent(schedule);
      CompletedOutcome(Play(Start(), schedule));
      CompletedVerdict(Play(Start(), schedule));
    }

    // ---------------------------------------------------------------- two schedules that tell repetitions apart

    lemma {:induction false} PlayAppend(r: Race, a: seq<nat>, b: seq<nat>)
      requires |r.tasks| == |addresses|
      ensures Play(r, a + b) == Play(Play(r, a), b)
      decreases |b|
    {
      if |b| == 0 {
        assert a + b == a;
      } else {
        assert (a + b)[..|a + b| - 1] == a + b[..|b| - 1];
        PlayAppend(r, a, b[..|b| - 1]);
      }
    }

    /** Each of the first `n` tasks moves once. */
    function Round(n: nat): (s: seq<nat>)
      ensures |s| == n
    {
      if n == 0 then [] else Round(n - 1) + [n - 1]
    }

    function Lockstep(): seq<nat> {
      Round(|addresses|) + Round(|addresses|) + Round(|addresses|)
    }

    /** The first `n` tasks run to their end one after the other. */
    function OneByOne(n: nat): seq<nat> {
      if n == 0 then [] else OneByOne(n - 1) + [n - 1, n - 1, n - 1]
    }

    lemma {:induction false} RoundStep(r: Race, n: nat)
      requires |r.tasks| == |addresses| && n > 0
      ensures Play(r, Round(n)) == Advance(Play(r, Round(n - 1)), n - 1)
    {
      assert Round(n)[..n - 1] == Round(n - 1);
    }

    /** The first `n` tasks have checked. */
    ghost predicate CheckedUpTo(tasks: seq<Task>, n: nat) {
      |tasks| == |addresses| && forall k :: 0 <= k < |addresses| ==> tasks[k] == if k < n then LookingUp else Checking
    }

    lemma CheckStep(s: Race, n: nat)
      requires Admitted() && n < |addresses| && CheckedUpTo(s.tasks, n) && s.rows == before
      ensures CheckedUpTo(Advance(s, n).tasks, n + 1) && Advance(s, n).rows == before
    {
    }

    lemma {:induction false} CheckRound(n: nat)
      requires Admitted() && n <= |addresses|
      ensures Play(Start(), Round(n)).rows == before && CheckedUpTo(Play(Start(), Round(n)).tasks, n)
    {
      if n > 0 {
        CheckRound(n - 1);
        RoundStep(Start(), n);
        CheckStep(Play(Start(), Round(n - 1)), n - 1);
      }
    }

    /** The first `n` tasks have looked up the wallet. */
    ghost predicate LookedUpTo(tasks: seq<Task>, n: nat) {
      |tasks| == |addresses| &&
      forall k :: 0 <= k < |addresses| ==>
        tasks[k] == if k >= n then LookingUp
                    else if addresses[k] in wallets then Inserting(wallets[addresses[k]])
                    else Thrown
    }

    lemma LookupStep(s: Race, n: nat)
      requires n < |addresses| && LookedUpTo(s.tasks, n)
      ensures LookedUpTo(Advance(s, n).tasks, n + 1) && Advance(s, n).rows == s.rows
    {
    }

    lemma {:induction false} LookupRound(r: Race, n: nat)
      requires n <= |addresses| && LookedUpTo(r.tasks, 0)
      ensures Play(r, Round(n)).rows == r.rows && LookedUpTo(Play(r, Round(n)).tasks, n)
    {
      if n > 0 {
        LookupRound(r, n - 1);
        RoundStep(r, n);
        LookupStep(Play(r, Round(n - 1)), n - 1);
      }
    }

    /** The tasks after the first `n` have inserted. */
    ghost predicate InsertedUpTo(tasks: seq<Task>, n: nat) {
      |tasks| == |addresses| &&
      forall k :: 0 <= k < |addresses| ==>
        tasks[k] == if addresses[k] !in wallets then Thrown
                    else if k < n then Done
                    else Inserting(wallets[addresses[k]])
    }

    lemma {:induction false} InsertStep(s: Race, n: nat)
      requires n < |addresses| && InsertedUpTo(s.tasks, n)
      ensures InsertedUpTo(Advance(s, n).tasks, n + 1)
      ensures Advance(s, n).rows == s.rows + if addresses[n] in wallets then [Row(addresses[n])] else []
    {
    }

    lemma {:induction false} InvitedStep(n: nat)
      requires n < |addresses|
      ensures InvitedRows(wallets, roomId, addresses[..n + 1]) ==
              InvitedRows(wallets, roomId, addresses[..n]) + if addresses[n] in wallets then [Row(addresses[n])] else []
    {
      assert addresses[..n + 1][..n] == addresses[..n];
    }

    lemma {:induction false} InsertNext(rows: seq<MemberRow>, s: Race, n: nat)
      requires n < |addresses| && InsertedUpTo(s.tasks, n)
      requires s.rows == rows + InvitedRows(wallets, roomId, addresses[..n])
      ensures InsertedUpTo(Advance(s, n).tasks, n + 1)
      ensures Advance(s, n).rows == rows + InvitedRows(wallets, roomId, addresses[..n + 1])
    {
      InsertStep(s, n);
      InvitedStep(n);
    }

    lemma {:induction false} InsertRound(r: Race, n: nat)
      requires n <= |addresses| && InsertedUpTo(r.tasks, 0)
      ensures Play(r, Round(n)).rows == r.rows + InvitedRows(wallets, roomId, addresses[..n])
      ensures InsertedUpTo(Play(r, Round(n)).tasks, n)
    {
      if n > 0 {
        InsertRound(r, n - 1);
        RoundStep(r, n);
        InsertNext(r.rows, Play(r, Round(n - 1)), n - 1);
      }
    }

    /** In lockstep every check precedes every insert, so each registered entry is inserted. */
    lemma LockstepInsertsAll()
      requires Admitted()
      ensures Complete(Play(Start(), Lockstep())) && Play(Start(), Lockstep()).rows == before + Invitations()
    {
      var n := |addresses|;
      var checked := Play(Start(), Round(n));
      CheckRound(n);
      var found := Play(checked, Round(n));
      LookupRound(checked, n);
      InsertRound(found, n);
      PlayAppend(Start(), Round(n), Round(n));
      PlayAppend(Start(), Round(n) + Round(n), Round(n));
      assert addresses[..n] == addresses;
    }

    /** The new rows so far are pairwise different and active in this room. */
    ghost predicate AddedOnce(rows: seq<MemberRow>) {
      && before <= rows && Distinct(rows[|before|..])
      && forall m :: m in rows[|before|..] ==> m.roomId == roomId && IsActive(m)
    }

    lemma FinishTask(r: Race, k: nat)
      requires |r.tasks| == |addresses| && k < |addresses| && r.tasks[k].Checking? && AddedOnce(r.rows)
      ensures var s := Advance(Advance(Advance(r, k), k), k);
              && AddedOnce(s.rows) && (s.tasks[k].Done? || s.tasks[k].Thrown?)
              && forall j :: 0 <= j < |addresses| && j != k ==> s.tasks[j] == r.tasks[j]
    {
      var s := Advance(Advance(Advance(r, k), k), k);
      if s.rows != r.rows {
        var row := Row(addresses[k]);
        assert s.rows == r.rows + [row];
        assert row !in r.rows;
        assert s.rows[|before|..] == r.rows[|before|..] + [row];
      }
    }

    /** One by one, a repeated address finds the first one's row, so no row is inserted twice. */
    lemma {:induction false} OneByOneInsertsOnce(n: nat)
      requires n <= |addresses|
      ensures var r := Play(Start(), OneByOne(n));
              && AddedOnce(r.rows)
              && forall k :: 0 <= k < |addresses| ==>
                if k < n then r.tasks[k].Done? || r.tasks[k].Thrown? else r.tasks[k].Checking?
    {
      if n > 0 {
        var k := n - 1;
        OneByOneInsertsOnce(k);
        var r := Play(Start(), OneByOne(k));
        PlayAppend(Start(), OneByOne(k), [k, k, k]);
        PlayThrice(r, k);
        FinishTask(r, k);
      }
    }

    lemma PlayThrice(r: Race, k: nat)
      requires |r.tasks| == |addresses|
      ensures Play(r, [k, k, k]) == Advance(Advance(Advance(r, k), k), k)
    {
      assert [k, k, k][..2] == [k, k] && [k, k][..1] == [k] && [k][..0] == [];
      assert Play(r, [k]) == Advance(Play(r, []), k);
      assert Play(r, [k, k]) == Advance(Play(r, [k]), k);
    }
  }

  ghost predicate SameForAllSchedules(c: Call) {
    forall s, z :: c.Complete(c.Play(c.Start(), s)) && c.Complete(c.Play(c.Start(), z)) ==>
      multiset(c.Play(c.Start(), s).rows) == multiset(c.Play(c.Start(), z).rows)
  }

  lemma {:induction false} DistinctCount<T>(xs: seq<T>, x: T)
    requires Distinct(xs)
    ensures multiset(xs)[x] <= 1
  {
    if |xs| > 0 {
      var front := xs[..|xs| - 1];
      DistinctCount(front, x);
      assert xs == front + [xs[|xs| - 1]];
      if x == xs[|xs| - 1] {
        assert x !in front;
      }
    }
  }

  lemma RepeatedCount<T>(xs: seq<T>, i: nat, j: nat)
    requires i < j < |xs| && xs[i] == xs[j]
    ensures multiset(xs)[xs[i]] >= 2
  {
    assert xs == xs[..j] + xs[j..];
    assert xs[i] in xs[..j] && xs[i] in xs[j..];
    assert xs[..j][i] == xs[i] && xs[j..][0] == xs[i];
  }

  lemma InvitedAddresses(c: Call, addresses: seq<Address>)
    ensures forall a :: a in AddressesOf(InvitedRows(c.wallets, c.roomId, addresses)) <==>
            a in addresses && a in c.wallets
  {
    var rows := InvitedRows(c.wallets, c.roomId, addresses);
    forall a | a in addresses && a in c.wallets ensures a in AddressesOf(rows) {
      var row := MemberRow(c.roomId, c.wallets[a], a, Member, Invited);
      assert row in rows;
      var i :| 0 <= i < |rows| && rows[i] == row;
      assert AddressesOf(rows)[i] == a;
    }
    forall a | a in AddressesOf(rows) ensures a in addresses && a in c.wallets {
      var i :| 0 <= i < |rows| && rows[i].address == a;
      assert rows[i] in rows;
    }
  }

  /** A repeated registered address gives a repeated invitation. */
  lemma {:induction false} RepeatedInvitation(c: Call, addresses: seq<Address>, i: nat, j: nat)
    requires i < j < |addresses| && addresses[i] in c.wallets && addresses[i] == addresses[j]
    ensures !Distinct(AddressesOf(InvitedRows(c.wallets, c.roomId, addresses)))
  {
    var front, last := addresses[..|addresses| - 1], addresses[|addresses| - 1];
    var rows := AddressesOf(InvitedRows(c.wallets, c.roomId, front));
    var all := AddressesOf(InvitedRows(c.wallets, c.roomId, addresses));
    InvitedAddresses(c, front);
    assert last in c.wallets ==> all == rows + [last];
    if j == |addresses| - 1 {
      assert front[i] in rows;
      var p :| 0 <= p < |rows| && rows[p] == last;
      assert all[p] == all[|rows|];
    } else {
      RepeatedInvitation(c, front, i, j);
      var p, q :| 0 <= p < q < |rows| && rows[p] == rows[q];
      assert all[p] == rows[p] && all[q] == rows[q];
    }
  }

  /** A repeated invitation makes one by one and lockstep end differently. */
  lemma RepetitionShows(c: Call)
    requires c.Admitted() && !Distinct(AddressesOf(c.Invitations()))
    ensures !SameForAllSchedules(c)
  {
    var rows := c.Invitations();
    var i, j :| 0 <= i < j < |rows| && AddressesOf(rows)[i] == AddressesOf(rows)[j];
    assert rows[i] in rows && rows[j] in rows;
    RepeatedCount(rows, i, j);
    c.LockstepInsertsAll();
    c.OneByOneInsertsOnce(|c.addresses|);
    var single := c.Play(c.Start(), c.OneByOne(|c.addresses|));
    DistinctCount(single.rows[|c.before|..], rows[i]);
    MoreOfOne(c.before, single.rows, rows, rows[i]);
    assert c.Complete(single);
  }

  lemma MoreOfOne<T>(before: seq<T>, all: seq<T>, rows: seq<T>, x: T)
    requires before <= all && multiset(all[|before|..])[x] < multiset(rows)[x]
    ensures multiset(all) != multiset(before + rows)
  {
    assert all == before + all[|before|..];
    assert multiset(all)[x] == multiset(before)[x] + multiset(all[|before|..])[x];
    assert multiset(before + rows)[x] == multiset(before)[x] + multiset(rows)[x];
  }

  /** The outcome is independent of the interleaving exactly when no registered address is repeated. */
  lemma IndependentIff(c: Call)
    requires c.Admitted()
    ensures SameForAllSchedules(c) <==> Distinct(AddressesOf(c.Invitations()))
  {
    if !Distinct(AddressesOf(c.Invitations())) {
      RepetitionShows(c);
    } else {
      forall i, j | 0 <= i < j < |c.addresses| && c.addresses[i] in c.wallets ensures c.addresses[i] != c.addresses[j] {
        if c.addresses[i] == c.addresses[j] {
          RepeatedInvitation(c, c.addresses, i, j);
        }
      }
      forall s, z | c.Complete(c.Play(c.Start(), s)) && c.Complete(c.Play(c.Start(), z))
        ensures multiset(c.Play(c.Start(), s).rows) == multiset(c.Play(c.Start(), z).rows)
      {
        SplitRows(c, s);
        SplitRows(c, z);
      }
    }
  }

  lemma SplitRows(c: Call, schedule: seq<nat>)
    requires c.Admitted() && c.RegisteredDistinct() && c.Complete(c.Play(c.Start(), schedule))
    ensures multiset(c.Play(c.Start(), schedule).rows) == multiset(c.before) + multiset(c.Invitations())
  {
    var rows := c.Play(c.Start(), schedule).rows;
    c.EveryScheduleAgrees(schedule);
    assert rows == c.before + rows[|c.before|..];
  }

  /** Treating the request as one atomic step is justified: whatever the interleaving, it ends in the
      rows and the verdict of the atomic step, up to the order of the new rows. */
  lemma RaceRefinesAddMembers(t: Tables, userId: UserId, roomId: RoomId, addresses: seq<Address>, schedule: seq<nat>)
    requires Distinct(addresses)
    requires AddMembers(t, userId, roomId, addresses).reply in {Accepted, Refused(NotRegistered)}
    requires var c := Call(t.wallets, roomId, addresses, t.members); c.Complete(c.Play(c.Start(), schedule))
    ensures var c := Call(t.wallets, roomId, addresses, t.members);
            var r := c.Play(c.Start(), schedule);
            && multiset(r.rows) == multiset(AddMembers(t, userId, roomId, addresses).after.members)
            && (c.Throws(r) <==> AddMembers(t, userId, roomId, addresses).reply != Accepted)
  {
    var c := Call(t.wallets, roomId, addresses, t.members);
    var r := c.Play(c.Start(), schedule);
    c.EveryScheduleAgrees(schedule);
    assert r.rows == t.members + r.rows[|t.members|..];
  }
}
