/** Scripts of the reservation protocol: runs of chosen actions that keep a discipline, out of which the runs that lose
    something are put together. */
module ReservationScript {
  import opened Basics
  import opened BigEndian
  import opened Reservation

  /** What the cell is used as. */
  datatype Use = AsCounter | AsLock

  ghost predicate Allowed(use: Use, s: State, cell: Addr, n: nat, a: Action) {
    if use.AsCounter? then CounterUse(s, cell, n, a) else LockUse(s, cell, n, a)
  }

  /** Perform a script of actions that are enabled and keep the discipline. */
  ghost function Follow(use: Use, s: State, cell: Addr, n: nat, script: seq<Action>): Option<State>
    decreases |script|
  {
    if script == [] then Some(s)
    else if Enabled(s, script[0]) && Allowed(use, s, cell, n, script[0])
    then Follow(use, Do(s, cell, script[0]), cell, n, script[1..])
    else None
  }

  ghost predicate Exact(s: State, cell: Addr, n: nat, initial: nat) {
    s.mem(cell) == CounterBytes(initial + s.committed, n)
  }

  lemma {:induction false} FollowAppend(use: Use, s: State, cell: Addr, n: nat, first: seq<Action>, second: seq<Action>)
    requires Follow(use, s, cell, n, first).Some?
    ensures Follow(use, s, cell, n, first + second)
            == Follow(use, Follow(use, s, cell, n, first).value, cell, n, second)
    decreases |first|
  {
    hide Do, Enabled, Allowed;
    if first == [] {
      assert first + second == second;
    } else {
      assert (first + second)[1..] == first[1..] + second;
      FollowAppend(use, Do(s, cell, first[0]), cell, n, first[1..], second);
    }
  }

  lemma FollowOne(use: Use, s: State, cell: Addr, n: nat, a: Action)
    requires Enabled(s, a) && Allowed(use, s, cell, n, a)
    ensures Follow(use, s, cell, n, [a]) == Some(Do(s, cell, a))
  {
    hide Do, Enabled, Allowed;
    assert [a][1..] == [];
    assert Follow(use, Do(s, cell, a), cell, n, []) == Some(Do(s, cell, a));
  }

  lemma FollowThen(use: Use, s: State, cell: Addr, n: nat, script: seq<Action>, a: Action)
    requires Follow(use, s, cell, n, script).Some?
    requires Enabled(Follow(use, s, cell, n, script).value, a)
             && Allowed(use, Follow(use, s, cell, n, script).value, cell, n, a)
    ensures Follow(use, s, cell, n, script + [a]) == Some(Do(Follow(use, s, cell, n, script).value, cell, a))
  {
    hide Do, Enabled, Allowed;
    FollowAppend(use, s, cell, n, script, [a]);
    FollowOne(use, Follow(use, s, cell, n, script).value, cell, n, a);
  }

  // ----- the pieces of a losing run -----

  /** Thread t rests as `parked`, thread u is idle, the cell is marked and holds v, the lock-line is free. */
  ghost predicate Idle(s: State, cell: Addr, t: nat, u: nat, parked: Thread, v: Bytes, k: nat) {
    && t < |s.threads| && u < |s.threads| && u != t
    && s.threads[t] == parked && s.threads[u].pc.Ready?
    && s.member(cell) && s.mem(cell) == v && s.committed == k && s.lock.Nobody?
  }

  /** Thread u stands between compare and write of an increment of `from`. */
  ghost predicate Holding(s: State, cell: Addr, n: nat, t: nat, u: nat, parked: Thread,
                          from: Bytes, amount: nat, v: Bytes, k: nat, reported: nat) {
    && t < |s.threads| && u < |s.threads| && u != t
    && s.threads[t] == parked && s.threads[u].pc == Compared(Conditional(cell, from, Plus(from, amount, n), amount))
    && s.threads[u].reported == reported
    && s.member(cell) && s.mem(cell) == v && s.committed == k && s.lock == Ppu(u)
  }

  function Take(u: nat, cell: Addr, n: nat, v: Bytes, amount: nat): seq<Action> {
    [Lwarx(u, cell)] + [Stwcx(u, cell, Plus(v, amount, n), amount)] + [Test(u)] + [Acquire(u)] + [Compare(u)]
  }

  function Finishing(u: nat): seq<Action> { [Write(u)] + [Release(u)] }

  /** Thread u has tested the marked line. */
  ghost predicate Knocking(s: State, cell: Addr, n: nat, t: nat, u: nat, parked: Thread, amount: nat, v: Bytes, k: nat,
                           reported: nat) {
    && t < |s.threads| && u < |s.threads| && u != t
    && s.threads[t] == parked && s.threads[u].pc == Tested(Conditional(cell, v, Plus(v, amount, n), amount), true)
    && s.threads[u].reported == reported
    && s.member(cell) && s.mem(cell) == v && s.committed == k && s.lock.Nobody?
  }

  /** When the discipline lets the thread store-conditional: a lock word is taken from 0 to 1, by no holder. */
  ghost predicate MayTake(use: Use, th: Thread, v: Bytes, amount: nat, n: nat) {
    use.AsLock? ==> !th.holds && v == Zero(n) && Plus(v, amount, n) == One(n)
  }

  lemma Knocks(use: Use, s: State, cell: Addr, n: nat, t: nat, u: nat, parked: Thread, v: Bytes, k: nat, amount: nat)
    requires cell != 0 && Idle(s, cell, t, u, parked, v, k) && MayTake(use, s.threads[u], v, amount, n)
    ensures var e := Follow(use, s, cell, n, [Lwarx(u, cell)] + [Stwcx(u, cell, Plus(v, amount, n), amount)]
                            + [Test(u)]);
            e.Some? && Knocking(e.value, cell, n, t, u, parked, amount, v, k, s.threads[u].reported)
  {
    hide Plus, StoreConditionalCr, Finish, Zero, One;
    var a1, a2 := Lwarx(u, cell), Stwcx(u, cell, Plus(v, amount, n), amount);
    FollowOne(use, s, cell, n, a1);
    FollowThen(use, s, cell, n, [a1], a2);
    FollowThen(use, s, cell, n, [a1] + [a2], Test(u));
  }

  lemma Enters(use: Use, s: State, cell: Addr, n: nat, t: nat, u: nat, parked: Thread, amount: nat, v: Bytes, k: nat,
               reported: nat)
    requires Knocking(s, cell, n, t, u, parked, amount, v, k, reported)
    ensures var e := Follow(use, s, cell, n, [Acquire(u)] + [Compare(u)]);
            e.Some? && Holding(e.value, cell, n, t, u, parked, v, amount, v, k, reported)
  {
    hide Plus, StoreConditionalCr, Finish;
    FollowOne(use, s, cell, n, Acquire(u));
    FollowThen(use, s, cell, n, [Acquire(u)], Compare(u));
  }

  lemma Taking(use: Use, s: State, cell: Addr, n: nat, t: nat, u: nat, parked: Thread, v: Bytes, k: nat, amount: nat)
    requires cell != 0 && Idle(s, cell, t, u, parked, v, k) && MayTake(use, s.threads[u], v, amount, n)
    ensures var e := Follow(use, s, cell, n, Take(u, cell, n, v, amount));
            e.Some? && Holding(e.value, cell, n, t, u, parked, v, amount, v, k, s.threads[u].reported)
  {
    hide Plus, Do, Enabled, Allowed, Idle, Knocking, Holding, Follow, MayTake;
    var first := [Lwarx(u, cell)] + [Stwcx(u, cell, Plus(v, amount, n), amount)] + [Test(u)];
    InRange(s, cell, t, u, parked, v, k);
    Knocks(use, s, cell, n, t, u, parked, v, k, amount);
    Enters(use, Follow(use, s, cell, n, first).value, cell, n, t, u, parked, amount, v, k, s.threads[u].reported);
    FollowAppend(use, s, cell, n, first, [Acquire(u)] + [Compare(u)]);
    assert Take(u, cell, n, v, amount) == first + ([Acquire(u)] + [Compare(u)]);
  }

  lemma InRange(s: State, cell: Addr, t: nat, u: nat, parked: Thread, v: Bytes, k: nat)
    requires Idle(s, cell, t, u, parked, v, k)
    ensures t < |s.threads| && u < |s.threads|
  {
  }

  lemma Finished(use: Use, s: State, cell: Addr, n: nat, t: nat, u: nat, parked: Thread, from: Bytes, amount: nat,
                 v: Bytes, k: nat, reported: nat)
    requires Holding(s, cell, n, t, u, parked, from, amount, v, k, reported)
    ensures var e := Follow(use, s, cell, n, Finishing(u));
            e.Some? && Idle(e.value, cell, t, u, parked, Plus(from, amount, n), k + amount)
            && e.value.threads[u].reported == reported + 1 && e.value.threads[u].holds
  {
    hide Plus, StoreConditionalCr;
    FollowOne(use, s, cell, n, Write(u));
    FollowThen(use, s, cell, n, [Write(u)], Release(u));
  }

  /** The exposed thread's compare-exchange lands between the other thread's compare and write. */
  lemma Overtaken(use: Use, s: State, cell: Addr, n: nat, t: nat, u: nat, parked: Thread, from: Bytes, amount: nat,
                  k: nat, reported: nat)
    requires parked.pc.Tested? && !parked.pc.member && parked.pc.op.Conditional? && parked.pc.op.addr == cell
    requires Holding(s, cell, n, t, u, parked, from, amount, parked.pc.op.expected, k, reported)
    ensures var e := Follow(use, s, cell, n, [CompareExchange(t)]);
            e.Some? && t < |e.value.threads|
            && Holding(e.value, cell, n, t, u, e.value.threads[t], from, amount, parked.pc.op.desired,
                               k + parked.pc.op.amount, reported)
            && e.value.threads[t].reported == parked.reported + 1 && e.value.threads[t].holds
  {
    hide Plus, StoreConditionalCr;
    FollowOne(use, s, cell, n, CompareExchange(t));
  }

  lemma CounterLength(total: nat, n: nat)
    ensures |CounterBytes(total, n)| == n
  {
  }

  // ----- any other thread can be run to rest -----

  /** The word is 0 and nobody holds it, or 1 and u alone does. */
  ghost predicate OwnWord(s: State, cell: Addr, n: nat, u: nat) {
    (s.mem(cell) == Zero(n) && Holders(s) == {}) || (s.mem(cell) == One(n) && Holders(s) == {u})
  }

  /** The word is as the discipline has it, and so is u's own operation. */
  ghost predicate WordOk(use: Use, s: State, cell: Addr, n: nat, initial: nat, u: nat)
    requires u < |s.threads|
  {
    match use
    case AsCounter => Exact(s, cell, n, initial) && CounterThreadOk(s, cell, n, u)
    case AsLock => n > 0 && OwnWord(s, cell, n, u) && LockThreadOk(s.threads[u], cell, n)
  }

  /** Only u moves: t rests as `parked`, the word and u's own operation are consistent, and the lock-line is u's or
      free. */
  ghost predicate Alone(use: Use, s: State, cell: Addr, n: nat, initial: nat, t: nat, u: nat, parked: Thread) {
    && t < |s.threads| && u < |s.threads| && u != t && s.threads[t] == parked
    && s.member(cell) && WordOk(use, s, cell, n, initial, u)
    && (if InSection(s.threads[u].pc) then s.lock == Ppu(u) else s.lock.Nobody?)
    && (s.threads[u].pc.Compared? ==>
          s.threads[u].pc.op.Conditional? && s.mem(s.threads[u].pc.op.addr) == s.threads[u].pc.op.expected)
  }

  function Stage(pc: Pc): nat {
    match pc
    case Ready => 0
    case Unlocking(_, _) => 1
    case Compared(_) => 2
    case Locked(_) => 3
    case Tested(_, _) => 4
    case Entered(_) => 5
  }

  /** What u does next. */
  function NextStep(pc: Pc, u: nat): Action
    requires !pc.Ready?
  {
    match pc
    case Entered(_) => Test(u)
    case Tested(op, member) =>
      if member then Acquire(u) else if op.Conditional? then CompareExchange(u) else CopyUnlocked(u)
    case Locked(op) => if op.Conditional? then Compare(u) else Write(u)
    case Compared(_) => Write(u)
    case Unlocking(_, _) => Release(u)
  }

  predicate Writes(a: Action) { a.CompareExchange? || a.CopyUnlocked? || a.Write? }

  /** u's tests, lock operations and compares: nothing but u's own pc, its report and the lock moves. */
  lemma QuietEffect(use: Use, s: State, cell: Addr, n: nat, initial: nat, t: nat, u: nat, parked: Thread)
    requires Alone(use, s, cell, n, initial, t, u, parked) && !s.threads[u].pc.Ready?
             && !Writes(NextStep(s.threads[u].pc, u))
    ensures var a := NextStep(s.threads[u].pc, u);
            Enabled(s, a) && Allowed(use, s, cell, n, a) && Stage(Do(s, cell, a).threads[u].pc) < Stage(s.threads[u].pc)
            && Do(s, cell, a).mem == s.mem && Do(s, cell, a).member == s.member
               && Do(s, cell, a).committed == s.committed
  {
    hide Plus, CounterBytes, StoreConditionalCr, Put, CounterThreadOk, WordOk;
  }

  /** And its operation and what it holds stay. */
  lemma QuietThread(s: State, cell: Addr, u: nat)
    requires u < |s.threads| && !s.threads[u].pc.Ready? && !Writes(NextStep(s.threads[u].pc, u))
    requires Enabled(s, NextStep(s.threads[u].pc, u))
    ensures var was, now := s.threads[u], Do(s, cell, NextStep(s.threads[u].pc, u)).threads[u];
            && now.holds == was.holds && now.reserveValue == was.reserveValue
            && (now.reserveAddr == 0 || now.reserveAddr == was.reserveAddr)
            && (now.pc.Ready? || (now.pc.op == was.pc.op && !now.pc.Entered?
                                  && (now.pc.Unlocking? || !was.pc.Unlocking?)))
  {
    hide StoreConditionalCr, Put;
  }

  lemma SameHolders(s: State, next: State, u: nat)
    requires |next.threads| == |s.threads| && u < |s.threads| && next.threads[u].holds == s.threads[u].holds
    requires forall x :: 0 <= x < |s.threads| && x != u ==> next.threads[x] == s.threads[x]
    ensures Holders(next) == Holders(s)
  {
    assert forall x: nat :: x < |s.threads| ==> next.threads[x].holds == s.threads[x].holds;
  }

  lemma QuietWord(use: Use, s: State, cell: Addr, n: nat, initial: nat, t: nat, u: nat, parked: Thread)
    requires Alone(use, s, cell, n, initial, t, u, parked) && !s.threads[u].pc.Ready?
             && !Writes(NextStep(s.threads[u].pc, u))
    ensures var a := NextStep(s.threads[u].pc, u);
            Enabled(s, a) && u < |Do(s, cell, a).threads| && WordOk(use, Do(s, cell, a), cell, n, initial, u)
  {
    hide Plus, CounterBytes, Stage, Allowed, Do, Enabled, Zero, One, Holders;
    var a := NextStep(s.threads[u].pc, u);
    QuietEffect(use, s, cell, n, initial, t, u, parked);
    QuietThread(s, cell, u);
    SameThreads(s, cell, a);
    forall x: nat | x < |s.threads| && x != u
      ensures Do(s, cell, a).threads[x] == s.threads[x]
    {
      OthersUnchanged(s, cell, a, x);
    }
    SameHolders(s, Do(s, cell, a), u);
  }

  lemma AloneQuietStep(use: Use, s: State, cell: Addr, n: nat, initial: nat, t: nat, u: nat, parked: Thread)
    requires Alone(use, s, cell, n, initial, t, u, parked) && !s.threads[u].pc.Ready?
             && !Writes(NextStep(s.threads[u].pc, u))
    ensures var a := NextStep(s.threads[u].pc, u);
            Enabled(s, a) && Allowed(use, s, cell, n, a) && Alone(use, Do(s, cell, a), cell, n, initial, t, u, parked)
            && Stage(Do(s, cell, a).threads[u].pc) < Stage(s.threads[u].pc)
  {
    hide Plus, StoreConditionalCr, Put, Stage, Allowed, WordOk;
    QuietEffect(use, s, cell, n, initial, t, u, parked);
    QuietWord(use, s, cell, n, initial, t, u, parked);
  }

  lemma ExactAfter(s: State, next: State, cell: Addr, n: nat, initial: nat, op: Op)
    requires Exact(s, cell, n, initial) && op.Conditional? && op.desired == Plus(op.expected, op.amount, n)
    requires s.mem(cell) == op.expected && next.mem(cell) == op.desired && next.committed == s.committed + op.amount
    ensures Exact(next, cell, n, initial)
  {
    hide Plus, CounterBytes;
    PlusCounts(initial + s.committed, op.amount, n);
    assert initial + s.committed + op.amount == initial + (s.committed + op.amount);
  }

  lemma WritingEffect(use: Use, s: State, cell: Addr, n: nat, initial: nat, t: nat, u: nat, parked: Thread)
    requires Alone(use, s, cell, n, initial, t, u, parked) && !s.threads[u].pc.Ready?
             && Writes(NextStep(s.threads[u].pc, u))
    ensures var a := NextStep(s.threads[u].pc, u);
            Enabled(s, a) && Allowed(use, s, cell, n, a) && Stage(Do(s, cell, a).threads[u].pc) < Stage(s.threads[u].pc)
  {
    hide Plus, CounterBytes, StoreConditionalCr, Put, WordOk;
  }

  /** The counter's word after u's write. */
  lemma WrittenCounter(s: State, cell: Addr, n: nat, initial: nat, t: nat, u: nat, parked: Thread)
    requires Alone(AsCounter, s, cell, n, initial, t, u, parked) && !s.threads[u].pc.Ready?
             && Writes(NextStep(s.threads[u].pc, u))
    ensures var a := NextStep(s.threads[u].pc, u);
            Enabled(s, a) && Exact(Do(s, cell, a), cell, n, initial)
  {
    hide Plus, CounterBytes, StoreConditionalCr;
    var op, a := s.threads[u].pc.op, NextStep(s.threads[u].pc, u);
    if op.addr == cell && s.mem(cell) == op.expected {
      ExactAfter(s, Do(s, cell, a), cell, n, initial, op);
    }
  }

  /** What u's write does to the cell, and to what u holds. */
  lemma WrittenCell(s: State, cell: Addr, u: nat)
    requires u < |s.threads| && !s.threads[u].pc.Ready? && Enabled(s, NextStep(s.threads[u].pc, u))
             && Writes(NextStep(s.threads[u].pc, u))
    requires var pc := s.threads[u].pc; pc.Compared? ==> pc.op.Conditional? && s.mem(pc.op.addr) == pc.op.expected
    ensures var a := NextStep(s.threads[u].pc, u);
            && u < |Do(s, cell, a).threads|
            && var op, next := s.threads[u].pc.op, Do(s, cell, a);
               if op.addr != cell || (op.Conditional? && s.mem(cell) != op.expected)
               then next.mem(cell) == s.mem(cell) && next.threads[u].holds == s.threads[u].holds
               else if op.Conditional? then next.mem(cell) == op.desired && next.threads[u].holds
               else next.mem(cell) == op.bytes && !next.threads[u].holds
  {
    hide StoreConditionalCr;
  }

  lemma HoldersAfter(s: State, next: State, u: nat)
    requires |next.threads| == |s.threads| && u < |s.threads|
    requires forall x :: 0 <= x < |s.threads| && x != u ==> next.threads[x] == s.threads[x]
    requires Holders(s) == {} || Holders(s) == {u}
    ensures Holders(next) == if next.threads[u].holds then {u} else {}
    ensures Holders(s) == if s.threads[u].holds then {u} else {}
  {
    forall x: nat | x < |s.threads| && x != u
      ensures !next.threads[x].holds
    {
      assert x !in Holders(s);
    }
    assert u in Holders(s) <==> s.threads[u].holds;
  }

  lemma LockWriteEnabled(s: State, cell: Addr, n: nat, t: nat, u: nat, parked: Thread)
    requires Alone(AsLock, s, cell, n, 0, t, u, parked) && !s.threads[u].pc.Ready?
             && Writes(NextStep(s.threads[u].pc, u))
    ensures Enabled(s, NextStep(s.threads[u].pc, u))
  {
    hide WordOk, Stage;
    WritingEffect(AsLock, s, cell, n, 0, t, u, parked);
  }

  /** The lock word after u's write. */
  lemma WrittenLock(s: State, cell: Addr, n: nat, t: nat, u: nat, parked: Thread)
    requires Alone(AsLock, s, cell, n, 0, t, u, parked) && !s.threads[u].pc.Ready?
             && Writes(NextStep(s.threads[u].pc, u))
    ensures var a := NextStep(s.threads[u].pc, u);
            Enabled(s, a) && OwnWord(Do(s, cell, a), cell, n, u)
  {
    hide Zero, One, Holders, Do, Enabled, NextStep, Writes;
    var a := NextStep(s.threads[u].pc, u);
    LockWriteEnabled(s, cell, n, t, u, parked);
    WrittenCell(s, cell, u);
    SameThreads(s, cell, a);
    NextIsOwn(s.threads[u].pc, u);
    forall x: nat | x < |s.threads| && x != u
      ensures Do(s, cell, a).threads[x] == s.threads[x]
    {
      OthersUnchanged(s, cell, a, x);
    }
    HoldersAfter(s, Do(s, cell, a), u);
    ZeroIsNotOne(n);
  }

  lemma NextIsOwn(pc: Pc, u: nat)
    requires !pc.Ready?
    ensures ActorOf(NextStep(pc, u)) == u
  {
  }

  /** A write leaves the lock and the line as they are, and the thread at rest or before its unlock. */
  lemma WriterMoves(s: State, cell: Addr, u: nat)
    requires u < |s.threads| && !s.threads[u].pc.Ready? && Enabled(s, NextStep(s.threads[u].pc, u))
             && Writes(NextStep(s.threads[u].pc, u))
    ensures var next := Do(s, cell, NextStep(s.threads[u].pc, u));
            |next.threads| == |s.threads| && next.member == s.member && next.lock == s.lock
            && var was, now := s.threads[u], next.threads[u];
               now.pc == (if was.pc.Tested? then Ready else Unlocking(was.pc.op, true))
               && (now.reserveAddr == 0 || now.reserveAddr == was.reserveAddr) && now.reserveValue == was.reserveValue
  {
    hide StoreConditionalCr, Put;
  }

  lemma WrittenWord(use: Use, s: State, cell: Addr, n: nat, initial: nat, t: nat, u: nat, parked: Thread)
    requires Alone(use, s, cell, n, initial, t, u, parked) && !s.threads[u].pc.Ready?
             && Writes(NextStep(s.threads[u].pc, u))
    ensures var a := NextStep(s.threads[u].pc, u);
            Enabled(s, a) && u < |Do(s, cell, a).threads| && WordOk(use, Do(s, cell, a), cell, n, initial, u)
  {
    hide Plus, Exact, OwnWord, Stage, Allowed, Do, Enabled, Zero, One;
    WritingEffect(use, s, cell, n, initial, t, u, parked);
    WriterMoves(s, cell, u);
    match use
    case AsCounter => WrittenCounter(s, cell, n, initial, t, u, parked);
    case AsLock => WrittenLock(s, cell, n, t, u, parked);
  }

  /** u's writes. */
  lemma AloneWritingStep(use: Use, s: State, cell: Addr, n: nat, initial: nat, t: nat, u: nat, parked: Thread)
    requires Alone(use, s, cell, n, initial, t, u, parked) && !s.threads[u].pc.Ready?
             && Writes(NextStep(s.threads[u].pc, u))
    ensures var a := NextStep(s.threads[u].pc, u);
            Enabled(s, a) && Allowed(use, s, cell, n, a) && Alone(use, Do(s, cell, a), cell, n, initial, t, u, parked)
            && Stage(Do(s, cell, a).threads[u].pc) < Stage(s.threads[u].pc)
  {
    hide WordOk, Stage, Allowed, Do, Enabled;
    WritingEffect(use, s, cell, n, initial, t, u, parked);
    WriterMoves(s, cell, u);
    WrittenWord(use, s, cell, n, initial, t, u, parked);
    OthersUnchanged(s, cell, NextStep(s.threads[u].pc, u), t);
  }

  lemma AloneStep(use: Use, s: State, cell: Addr, n: nat, initial: nat, t: nat, u: nat, parked: Thread)
    requires Alone(use, s, cell, n, initial, t, u, parked) && !s.threads[u].pc.Ready?
    ensures var a := NextStep(s.threads[u].pc, u);
            Enabled(s, a) && Allowed(use, s, cell, n, a) && Alone(use, Do(s, cell, a), cell, n, initial, t, u, parked)
            && Stage(Do(s, cell, a).threads[u].pc) < Stage(s.threads[u].pc)
  {
    hide Alone, Do, Enabled, Allowed, Stage, NextStep;
    UserExists(use, s, cell, n, initial, t, u, parked);
    if Writes(NextStep(s.threads[u].pc, u)) {
      AloneWritingStep(use, s, cell, n, initial, t, u, parked);
    } else {
      AloneQuietStep(use, s, cell, n, initial, t, u, parked);
    }
  }

  lemma UserExists(use: Use, s: State, cell: Addr, n: nat, initial: nat, t: nat, u: nat, parked: Thread)
    requires Alone(use, s, cell, n, initial, t, u, parked)
    ensures u < |s.threads|
  {
  }

  lemma {:induction false} RunToRest(use: Use, s: State, cell: Addr, n: nat, initial: nat, t: nat, u: nat,
                                     parked: Thread)
    returns (script: seq<Action>)
    requires Alone(use, s, cell, n, initial, t, u, parked)
    ensures var e := Follow(use, s, cell, n, script);
            e.Some? && Alone(use, e.value, cell, n, initial, t, u, parked) && e.value.threads[u].pc.Ready?
    decreases Stage(s.threads[u].pc)
  {
    hide Do, Enabled, Allowed, WordOk;
    if s.threads[u].pc.Ready? {
      script := [];
    } else {
      var a := NextStep(s.threads[u].pc, u);
      AloneStep(use, s, cell, n, initial, t, u, parked);
      var rest := RunToRest(use, Do(s, cell, a), cell, n, initial, t, u, parked);
      script := [a] + rest;
      assert script[1..] == rest;
    }
  }

  /** At rest u is ready for a script of its own. */
  lemma RestIsIdle(use: Use, s: State, cell: Addr, n: nat, initial: nat, t: nat, u: nat, parked: Thread)
    requires Alone(use, s, cell, n, initial, t, u, parked) && s.threads[u].pc.Ready?
    ensures Idle(s, cell, t, u, parked, s.mem(cell), s.committed) && WordOk(use, s, cell, n, initial, u)
  {
    hide WordOk;
  }

  lemma MarkEnabled(s: State, cell: Addr, mark: Addr)
    requires s.lock.Spu?
    ensures Enabled(s, SpuMark(mark))
    ensures var next := Do(s, cell, SpuMark(mark));
            next.threads == s.threads && next.mem == s.mem && next.committed == s.committed && next.lock == s.lock
  {
  }

  // ----- a fresh start -----

  /** Thread 1 tests the unmarked line for a store of 1 over 0, and a GETLLAR then takes the lock-line to mark it. */
  const EXPOSING: seq<Action> := [Lwarx(1, 4)] + [Stwcx(1, 4, Plus(Zero(4), 1, 4), 1)] + [Test(1)] + [SpuLock]

  ghost function TwoIdle(cr: bv32): State {
    State((a: Addr) => Zero(4), (a: Addr) => false, Nobody,
          [Thread(0, [], [], cr, 0, Ready, 0, 0, false), Thread(0, [], [], cr, 0, Ready, 0, 0, false)], 0)
  }

  lemma PlusZeroIsOne(n: nat)
    requires n > 0
    ensures Plus(Zero(n), 1, n) == One(n)
  {
    hide Encode, Decode;
    Pow256Positive(n);
    Pow256Positive(n - 1);
    DecodeEncode(0, n);
    QuotientIs(1, Pow256(n), 0, 1);
  }

  lemma ReachesExposure(use: Use, cr: bv32)
    ensures var e := Follow(use, TwoIdle(cr), 4, 4, EXPOSING);
            e.Some? && e.value.lock.Spu? && |e.value.threads| == 2 && Exposed(e.value, 4, 1)
              && e.value.threads[1].reported == 0
            && e.value.threads[1].pc.op == Conditional(4, Zero(4), Plus(Zero(4), 1, 4), 1)
  {
    hide Zero, One, Plus, Encode, StoreConditionalCr;
    PlusZeroIsOne(4);
    ZeroIsNotOne(4);
    var s, a1, a2 := TwoIdle(cr), Lwarx(1, 4), Stwcx(1, 4, Plus(Zero(4), 1, 4), 1);
    FollowOne(use, s, 4, 4, a1);
    FollowThen(use, s, 4, 4, [a1], a2);
    FollowThen(use, s, 4, 4, [a1] + [a2], Test(1));
    FollowThen(use, s, 4, 4, [a1] + [a2] + [Test(1)], SpuLock);
  }
}
