/** The same moment for a lock word: a first GETLLAR that marks the line while a thread stands between its test and its
    store-conditional can hand the lock out twice. Catching the holder before its releasing store is harmless. */
module ReservationLock {
  import opened Basics
  import opened BigEndian
  import opened Reservation
  import opened ReservationScript

  // ----- marks that catch nobody -----

  ghost predicate AtMostOneHolder(s: State) { forall t: nat, u: nat :: t in Holders(s) && u in Holders(s) ==> t == u }

  /** Whatever follows, as long as the lock is used as one. */
  ghost predicate AlwaysExclusive(s: State, cell: Addr, n: nat) {
    forall script: seq<Action> :: Follow(AsLock, s, cell, n, script).Some?
      ==> AtMostOneHolder(Follow(AsLock, s, cell, n, script).value)
  }

  lemma {:induction false} LockFollows(s: State, cell: Addr, n: nat, script: seq<Action>)
    requires n > 0 && LockOk(s, cell, n) && Follow(AsLock, s, cell, n, script).Some?
    ensures LockOk(Follow(AsLock, s, cell, n, script).value, cell, n)
    decreases |script|
  {
    hide Do, Enabled, LockUse, LockOk;
    if script != [] {
      LockKept(s, cell, n, script[0]);
      LockFollows(Do(s, cell, script[0]), cell, n, script[1..]);
    }
  }

  lemma LockedOnce(s: State, cell: Addr, n: nat)
    requires LockOk(s, cell, n)
    ensures AtMostOneHolder(s)
  {
    hide Holders, Zero, One, CellOk, LockThreadOk;
    if Holders(s) != {} {
      var h: nat :| Holders(s) == {h};
    }
  }

  lemma QuietLockMarkIsSafe(s: State, cell: Addr, n: nat, mark: Addr)
    requires n > 0 && LockOk(s, cell, n) && s.lock.Spu? && forall t: nat :: !Exposed(s, cell, t)
    ensures Enabled(s, SpuMark(mark)) && AlwaysExclusive(Do(s, cell, SpuMark(mark)), cell, n)
  {
    hide Do, LockOk, Exposed, Follow, AtMostOneHolder;
    LockKept(s, cell, n, SpuMark(mark));
    var next := Do(s, cell, SpuMark(mark));
    forall script: seq<Action> | Follow(AsLock, next, cell, n, script).Some?
      ensures AtMostOneHolder(Follow(AsLock, next, cell, n, script).value)
    {
      LockFollows(next, cell, n, script);
      LockedOnce(Follow(AsLock, next, cell, n, script).value, cell, n);
    }
  }

  lemma {:induction false} ThreadsStay(use: Use, s: State, cell: Addr, n: nat, script: seq<Action>)
    requires Follow(use, s, cell, n, script).Some?
    ensures |Follow(use, s, cell, n, script).value.threads| == |s.threads|
    decreases |script|
  {
    hide Do, Enabled, Allowed;
    if script != [] {
      SameThreads(s, cell, script[0]);
      ThreadsStay(use, Do(s, cell, script[0]), cell, n, script[1..]);
    }
  }

  lemma LoneThreadIsSafe(s: State, cell: Addr, n: nat)
    requires |s.threads| == 1
    ensures AlwaysExclusive(s, cell, n)
  {
    hide Follow;
    forall script: seq<Action> | Follow(AsLock, s, cell, n, script).Some?
      ensures AtMostOneHolder(Follow(AsLock, s, cell, n, script).value)
    {
      ThreadsStay(AsLock, s, cell, n, script);
    }
  }

  // ----- a mark that catches a taker -----

  /** The thread that holds the lock, if any, else any other than t. */
  lemma OtherThread(s: State, cell: Addr, n: nat, t: nat) returns (u: nat)
    requires LockOk(s, cell, n) && Exposed(s, cell, t) && |s.threads| > 1
    ensures u < |s.threads| && u != t && OwnWord(s, cell, n, u) && LockThreadOk(s.threads[u], cell, n)
  {
    hide Zero, One, CellOk;
    assert LockThreadOk(s.threads[t], cell, n);
    assert t !in Holders(s);
    if Holders(s) == {} {
      u := if t == 0 then 1 else 0;
    } else {
      u :| Holders(s) == {u};
      assert u in Holders(s);
    }
    assert LockThreadOk(s.threads[u], cell, n);
  }

  lemma CaughtTaker(s: State, cell: Addr, n: nat, t: nat)
    requires LockOk(s, cell, n) && Exposed(s, cell, t)
    ensures t < |s.threads| && s.threads[t].pc.Tested? && !s.threads[t].pc.member && s.threads[t].pc.op.Conditional?
    ensures s.threads[t].pc.op.addr == cell && s.threads[t].pc.op.expected == Zero(n)
  {
    hide CellOk, Zero, One;
    assert LockThreadOk(s.threads[t], cell, n);
  }

  /** The mark and the unlock leave u alone to move. */
  lemma LockMarked(s: State, cell: Addr, n: nat, mark: Addr, t: nat, u: nat)
    requires n > 0 && LockOk(s, cell, n) && s.lock.Spu? && SameLine(cell, mark)
    requires t < |s.threads| && u < |s.threads| && u != t && OwnWord(s, cell, n, u)
             && LockThreadOk(s.threads[u], cell, n)
    ensures Enabled(s, SpuMark(mark))
    ensures var e := Follow(AsLock, Do(s, cell, SpuMark(mark)), cell, n, [SpuUnlock]);
            e.Some? && Alone(AsLock, e.value, cell, n, 0, t, u, s.threads[t])
  {
    hide Zero, One, LockThreadOk;
    assert ThreadOk(s, u);
    FollowOne(AsLock, Do(s, cell, SpuMark(mark)), cell, n, SpuUnlock);
    assert Holders(Do(s, cell, SpuMark(mark)).(lock := Nobody)) == Holders(s);
  }

  /** The holder stands before its releasing store. */
  lemma Releases(s: State, cell: Addr, n: nat, t: nat, u: nat, parked: Thread)
    requires Alone(AsLock, s, cell, n, 0, t, u, parked) && s.threads[u].pc.Ready? && s.threads[u].holds
    ensures var e := Follow(AsLock, s, cell, n, [Store(u, cell, Zero(n))]);
            e.Some? && Alone(AsLock, e.value, cell, n, 0, t, u, parked)
            && u < |e.value.threads| && e.value.threads[u].pc == Entered(Plain(cell, Zero(n)))
  {
    hide Zero, One;
    FollowOne(AsLock, s, cell, n, Store(u, cell, Zero(n)));
    SameHolders(s, Do(s, cell, Store(u, cell, Zero(n))), u);
  }

  /** It holds the lock-line for it. */
  ghost predicate Leaving(s: State, cell: Addr, n: nat, t: nat, u: nat, parked: Thread, k: nat) {
    && t < |s.threads| && u < |s.threads| && u != t && s.threads[t] == parked && s.member(cell) && s.committed == k
    && s.threads[u].pc == Locked(Plain(cell, Zero(n))) && s.lock == Ppu(u)
  }

  lemma Arrives(s: State, cell: Addr, n: nat, t: nat, u: nat, parked: Thread)
    requires Alone(AsLock, s, cell, n, 0, t, u, parked) && s.threads[u].pc == Entered(Plain(cell, Zero(n)))
    ensures var e := Follow(AsLock, s, cell, n, [Test(u)] + [Acquire(u)]);
            e.Some? && Leaving(e.value, cell, n, t, u, parked, s.committed)
  {
    hide Zero, One, WordOk;
    FollowOne(AsLock, s, cell, n, Test(u));
    FollowThen(AsLock, s, cell, n, [Test(u)], Acquire(u));
  }

  lemma Departs(s: State, cell: Addr, n: nat, t: nat, u: nat, parked: Thread, k: nat)
    requires Leaving(s, cell, n, t, u, parked, k)
    ensures var e := Follow(AsLock, s, cell, n, Finishing(u));
            e.Some? && Idle(e.value, cell, t, u, parked, Zero(n), k) && !e.value.threads[u].holds
  {
    hide Zero, One, StoreConditionalCr;
    FollowOne(AsLock, s, cell, n, Write(u));
    FollowThen(AsLock, s, cell, n, [Write(u)], Release(u));
  }

  /** And is through with it. */
  lemma Freed(s: State, cell: Addr, n: nat, t: nat, u: nat, parked: Thread)
    requires Alone(AsLock, s, cell, n, 0, t, u, parked) && s.threads[u].pc == Entered(Plain(cell, Zero(n)))
    ensures var e := Follow(AsLock, s, cell, n, [Test(u)] + [Acquire(u)] + Finishing(u));
            e.Some? && Idle(e.value, cell, t, u, parked, Zero(n), s.committed) && !e.value.threads[u].holds
  {
    hide Zero, Alone, Leaving, Idle, Follow, Finishing;
    Arrives(s, cell, n, t, u, parked);
    Departs(Follow(AsLock, s, cell, n, [Test(u)] + [Acquire(u)]).value, cell, n, t, u, parked, s.committed);
    FollowAppend(AsLock, s, cell, n, [Test(u)] + [Acquire(u)], Finishing(u));
  }

  function Releasing(u: nat, cell: Addr, n: nat): seq<Action> {
    [Store(u, cell, Zero(n))] + ([Test(u)] + [Acquire(u)] + Finishing(u))
  }

  /** From rest u can leave the word free, and itself idle. */
  lemma LeavesItFree(s: State, cell: Addr, n: nat, t: nat, u: nat, parked: Thread) returns (script: seq<Action>)
    requires Alone(AsLock, s, cell, n, 0, t, u, parked) && s.threads[u].pc.Ready?
    ensures var e := Follow(AsLock, s, cell, n, script);
            e.Some? && Idle(e.value, cell, t, u, parked, Zero(n), s.committed) && !e.value.threads[u].holds
  {
    hide Zero, One, Idle, Do, Enabled, Allowed, Finishing;
    if s.threads[u].holds {
      script := Releasing(u, cell, n);
      Releases(s, cell, n, t, u, parked);
      var s1 := Follow(AsLock, s, cell, n, [Store(u, cell, Zero(n))]).value;
      Freed(s1, cell, n, t, u, parked);
      FollowAppend(AsLock, s, cell, n, [Store(u, cell, Zero(n))], [Test(u)] + [Acquire(u)] + Finishing(u));
      SameCommits(s, cell, n, u);
    } else {
      script := [];
      RestIsIdle(AsLock, s, cell, n, 0, t, u, parked);
      assert u !in Holders(s);
    }
  }

  lemma SameCommits(s: State, cell: Addr, n: nat, u: nat)
    requires Follow(AsLock, s, cell, n, [Store(u, cell, Zero(n))]).Some?
    ensures Follow(AsLock, s, cell, n, [Store(u, cell, Zero(n))]).value.committed == s.committed
  {
    hide Zero;
    var script := [Store(u, cell, Zero(n))];
    assert script[1..] == [];
    assert Follow(AsLock, Do(s, cell, script[0]), cell, n, script[1..]) == Some(Do(s, cell, script[0]));
  }

  function BothTake(t: nat, u: nat, cell: Addr, n: nat): seq<Action> {
    Take(u, cell, n, Zero(n), 1) + [CompareExchange(t)] + Finishing(u)
  }

  /** u compares, t's compare-exchange goes through, u writes: both are told they have the lock. */
  lemma BothHold(s: State, cell: Addr, n: nat, t: nat, u: nat, parked: Thread)
    requires n > 0 && cell != 0 && Idle(s, cell, t, u, parked, Zero(n), s.committed) && !s.threads[u].holds
    requires parked.pc.Tested? && !parked.pc.member && parked.pc.op.Conditional?
    requires parked.pc.op.addr == cell && parked.pc.op.expected == Zero(n)
    ensures var e := Follow(AsLock, s, cell, n, BothTake(t, u, cell, n));
            e.Some? && t in Holders(e.value) && u in Holders(e.value) && t != u
  {
    hide Follow, Plus, Take, Finishing, Zero, One;
    var k, r := s.committed, s.threads[u].reported;
    PlusZeroIsOne(n);
    Taking(AsLock, s, cell, n, t, u, parked, Zero(n), k, 1);
    var s2 := Follow(AsLock, s, cell, n, Take(u, cell, n, Zero(n), 1)).value;
    Overtaken(AsLock, s2, cell, n, t, u, parked, Zero(n), 1, k, r);
    var s3 := Follow(AsLock, s2, cell, n, [CompareExchange(t)]).value;
    Finished(AsLock, s3, cell, n, t, u, s3.threads[t], Zero(n), 1, parked.pc.op.desired, k + parked.pc.op.amount, r);
    FollowAppend(AsLock, s, cell, n, Take(u, cell, n, Zero(n), 1), [CompareExchange(t)]);
    FollowAppend(AsLock, s, cell, n, Take(u, cell, n, Zero(n), 1) + [CompareExchange(t)], Finishing(u));
  }

  /** If the mark catches a thread on its way to take the lock and there is another, some continuation that keeps the
      discipline gives the lock to both. */
  lemma CaughtLockIsHeldTwice(s: State, cell: Addr, n: nat, mark: Addr, t: nat) returns (script: seq<Action>, u: nat)
    requires n > 0 && cell != 0 && LockOk(s, cell, n) && s.lock.Spu? && SameLine(cell, mark)
    requires Exposed(s, cell, t) && |s.threads| > 1
    ensures Enabled(s, SpuMark(mark))
    ensures var e := Follow(AsLock, Do(s, cell, SpuMark(mark)), cell, n, script);
            e.Some? && t in Holders(e.value) && u in Holders(e.value) && t != u
  {
    hide Follow, Do, Enabled, LockOk, Alone, Idle, Holders, Exposed, Zero, OwnWord, BothTake, LockThreadOk;
    u := OtherThread(s, cell, n, t);
    CaughtTaker(s, cell, n, t);
    LockMarked(s, cell, n, mark, t, u);
    var parked, s0 := s.threads[t], Do(s, cell, SpuMark(mark));
    var s1 := Follow(AsLock, s0, cell, n, [SpuUnlock]).value;
    var rest := RunToRest(AsLock, s1, cell, n, 0, t, u, parked);
    var s2 := Follow(AsLock, s1, cell, n, rest).value;
    var free := LeavesItFree(s2, cell, n, t, u, parked);
    var s3 := Follow(AsLock, s2, cell, n, free).value;
    IdleCounts(s3, cell, t, u, parked, Zero(n), s2.committed);
    BothHold(s3, cell, n, t, u, parked);
    FollowAppend(AsLock, s0, cell, n, [SpuUnlock], rest);
    FollowAppend(AsLock, s0, cell, n, [SpuUnlock] + rest, free);
    FollowAppend(AsLock, s0, cell, n, [SpuUnlock] + rest + free, BothTake(t, u, cell, n));
    script := [SpuUnlock] + rest + free + BothTake(t, u, cell, n);
  }

  lemma IdleCounts(s: State, cell: Addr, t: nat, u: nat, parked: Thread, v: Bytes, k: nat)
    requires Idle(s, cell, t, u, parked, v, k)
    ensures s.committed == k
  {
  }

  /** Marking the lock word's line keeps every continuation exclusive iff it catches no thread on its way to take the
      lock, or there is only one thread. A holder caught before its releasing store does no harm. */
  lemma LockMarkingIsSafeIff(s: State, cell: Addr, n: nat, mark: Addr)
    requires n > 0 && cell != 0 && LockOk(s, cell, n) && s.lock.Spu? && SameLine(cell, mark)
    ensures Enabled(s, SpuMark(mark))
    ensures AlwaysExclusive(Do(s, cell, SpuMark(mark)), cell, n)
       <==> |s.threads| == 1 || forall t: nat :: !Exposed(s, cell, t)
  {
    hide Follow, Do, Enabled, LockOk, Exposed, Holders;
    MarkEnabled(s, cell, mark);
    if |s.threads| == 1 {
      LoneThreadIsSafe(Do(s, cell, SpuMark(mark)), cell, n);
    } else if forall t: nat :: !Exposed(s, cell, t) {
      QuietLockMarkIsSafe(s, cell, n, mark);
    } else {
      var t: nat :| Exposed(s, cell, t);
      CaughtTaker(s, cell, n, t);
      var script, u := CaughtLockIsHeldTwice(s, cell, n, mark, t);
    }
  }

  /** The threads a mark must not catch are those about to store-conditional. */
  lemma ExposedIsTaking(s: State, cell: Addr, n: nat, t: nat)
    requires n > 0 && LockOk(s, cell, n) && t < |s.threads|
    ensures Exposed(s, cell, t) <==>
            var pc := s.threads[t].pc; pc.Tested? && !pc.member && pc.op.addr == cell && pc.op.Conditional?
  {
    hide CellOk, Zero, One;
    ZeroIsNotOne(n);
    assert LockThreadOk(s.threads[t], cell, n);
  }

  // ----- from idle threads -----

  lemma ExposureLocks(cr: bv32)
    ensures var e := Follow(AsLock, TwoIdle(cr), 4, 4, EXPOSING);
            e.Some? && LockOk(e.value, 4, 4)
  {
    hide Follow, Zero, One, LockOk;
    FreshIsUnlocked(TwoIdle(cr), 4, 4);
    ReachesExposure(AsLock, cr);
    LockFollows(TwoIdle(cr), 4, 4, EXPOSING);
  }

  /** A whole run from two idle threads and a free lock, with the line marked once: both end up with the lock. */
  lemma MarkingCanShareALock(cr: bv32) returns (after: seq<Action>)
    ensures var s := Follow(AsLock, TwoIdle(cr), 4, 4, EXPOSING);
            s.Some? && Enabled(s.value, SpuMark(4))
            && var e := Follow(AsLock, Do(s.value, 4, SpuMark(4)), 4, 4, after);
               e.Some? && 0 in Holders(e.value) && 1 in Holders(e.value)
  {
    hide Follow, Do, Enabled, LockOk, Exposed;
    ReachesExposure(AsLock, cr);
    ExposureLocks(cr);
    var s := Follow(AsLock, TwoIdle(cr), 4, 4, EXPOSING).value;
    var u;
    after, u := CaughtLockIsHeldTwice(s, 4, 4, 4, 1);
    ThreadsStay(AsLock, Do(s, 4, SpuMark(4)), 4, 4, after);
    SameThreads(s, 4, SpuMark(4));
  }
}
