/** lwarx/stwcx. by value (`ppu_res_lwarx`, `ppu_res_stwcx` and their 64-bit forms, `store_guest`), as
    fine-grained steps of any number of threads interleaved with an SPU side that takes the lock-line and
    writes lines of its own. The reference is the atomic-update section (1.7.3) of Power ISA Book II.

    Cells are aligned words or doublewords, so distinct addresses do not overlap; the bytes of one cell
    are read and written at once. Comparing the host integers is comparing the cell's bytes. */
module Reservation {
  import opened Basics
  import opened BigEndian

  type Addr = nat

  /** Who holds the SPU lock-line. */
  datatype Owner = Nobody | Ppu(t: nat) | Spu

  datatype Op =
    | Conditional(addr: Addr, expected: Bytes, desired: Bytes, amount: nat)
    | Plain(addr: Addr, bytes: Bytes)

  /** Inside ppu_res_stwcx or store_guest: before the membership test, after it, under the lock-line
      before the compare, between the compare and the write, and before the unlock. */
  datatype Pc =
    | Ready
    | Entered(op: Op)
    | Tested(op: Op, member: bool)
    | Locked(op: Op)
    | Compared(op: Op)
    | Unlocking(op: Op, ok: bool)

  /** A thread: its reservation (address 0 is "none"), the bytes its last lwarx read, condition register
      and XER; and, for the theorems, how often it committed, how often it was told so, and whether it
      holds the lock word. */
  datatype Thread = Thread(reserveAddr: Addr, reserveValue: Bytes, loaded: Bytes, cr: bv32, xer: bv32, pc: Pc,
                           commits: nat, reported: nat, holds: bool)

  /** Memory, the coherence set, the lock-line, the threads; `committed` sums the amounts of the
      conditional stores that took effect on the watched cell. */
  datatype State = State(mem: Addr -> Bytes, member: Addr -> bool, lock: Owner, threads: seq<Thread>, committed: nat)

  datatype Action =
    | Lwarx(t: nat, addr: Addr)
    | Stwcx(t: nat, addr: Addr, desired: Bytes, amount: nat)
    | Store(t: nat, addr: Addr, bytes: Bytes)
    | Test(t: nat)
    | CompareExchange(t: nat)
    | CopyUnlocked(t: nat)
    | Acquire(t: nat)
    | Compare(t: nat)
    | Write(t: nat)
    | Release(t: nat)
    | SpuLock
    | SpuUnlock
    | SpuWrite(addr: Addr, bytes: Bytes)
    | SpuMark(addr: Addr)

  /** CR0 becomes 0b00 || ok || XER[SO]; the other fields stay. */
  function StoreConditionalCr(cr: bv32, xer: bv32, ok: bool): bv32 {
    (cr & !(0xF << 28)) | (((if ok then 2 else 0) | ((xer >> 31) & 1)) << 28)
  }

  lemma Cr0Meaning(cr: bv32, xer: bv32, ok: bool)
    ensures var c := StoreConditionalCr(cr, xer, ok);
            c >> 30 == 0 && ((c >> 29) & 1 == 1 <==> ok) && (c >> 28) & 1 == xer >> 31
              && c & 0x0FFF_FFFF == cr & 0x0FFF_FFFF
  {
  }

  function Put(mem: Addr -> Bytes, a: Addr, b: Bytes): Addr -> Bytes { (x: Addr) => if x == a then b else mem(x) }

  function SetThread(s: State, t: nat, th: Thread): State
    requires t < |s.threads|
  {
    s.(threads := s.threads[t := th])
  }

  /** The end of a conditional store: reservation gone, CR0 set. */
  function Finish(th: Thread, ok: bool): Thread {
    th.(pc := Ready, reserveAddr := 0, cr := StoreConditionalCr(th.cr, th.xer, ok),
        reported := th.reported + (if ok then 1 else 0))
  }

  /** A write to the cell by a conditional store. */
  function Commit(s: State, cell: Addr, t: nat, op: Op): State
    requires t < |s.threads| && op.Conditional?
  {
    var th := s.threads[t];
    s.(mem := Put(s.mem, op.addr, op.desired),
       committed := s.committed + (if op.addr == cell then op.amount else 0),
       threads := s.threads[t := th.(commits := th.commits + 1, holds := th.holds || op.addr == cell)])
  }

  function Copy(s: State, cell: Addr, t: nat, op: Op): State
    requires t < |s.threads| && op.Plain?
  {
    var th := s.threads[t];
    s.(mem := Put(s.mem, op.addr, op.bytes), threads := s.threads[t := th.(holds := th.holds && op.addr != cell)])
  }

  predicate Enabled(s: State, a: Action) {
    match a
    case Lwarx(t, _) => t < |s.threads| && s.threads[t].pc.Ready?
    case Stwcx(t, _, _, _) => t < |s.threads| && s.threads[t].pc.Ready?
    case Store(t, _, _) => t < |s.threads| && s.threads[t].pc.Ready?
    case Test(t) => t < |s.threads| && s.threads[t].pc.Entered?
    case CompareExchange(t) =>
      t < |s.threads| && s.threads[t].pc.Tested? && !s.threads[t].pc.member && s.threads[t].pc.op.Conditional?
    case CopyUnlocked(t) =>
      t < |s.threads| && s.threads[t].pc.Tested? && !s.threads[t].pc.member && s.threads[t].pc.op.Plain?
    case Acquire(t) => t < |s.threads| && s.threads[t].pc.Tested? && s.threads[t].pc.member && s.lock.Nobody?
    case Compare(t) => t < |s.threads| && s.threads[t].pc.Locked? && s.threads[t].pc.op.Conditional?
    case Write(t) =>
      t < |s.threads| && (s.threads[t].pc.Compared? || (s.threads[t].pc.Locked? && s.threads[t].pc.op.Plain?))
    case Release(t) => t < |s.threads| && s.threads[t].pc.Unlocking?
    case SpuLock => s.lock.Nobody?
    case SpuUnlock => s.lock.Spu?
    case SpuWrite(addr, _) => s.member(addr) ==> s.lock.Spu?
    case SpuMark(_) => s.lock.Spu?
  }

  function Do(s: State, cell: Addr, a: Action): State
    requires Enabled(s, a)
  {
    match a
    case Lwarx(t, addr) =>
      SetThread(s, t, s.threads[t].(reserveAddr := addr, reserveValue := s.mem(addr), loaded := s.mem(addr)))
    case Stwcx(t, addr, desired, amount) =>
      var th := s.threads[t];
      if th.reserveAddr != 0 && th.reserveAddr == addr
      then SetThread(s, t, th.(pc := Entered(Conditional(addr, th.reserveValue, desired, amount))))
      else SetThread(s, t, Finish(th, false))
    case Store(t, addr, bytes) => SetThread(s, t, s.threads[t].(pc := Entered(Plain(addr, bytes))))
    case Test(t) =>
      var op := s.threads[t].pc.op;
      SetThread(s, t, s.threads[t].(pc := Tested(op, s.member(op.addr))))
    case CompareExchange(t) =>
      var op := s.threads[t].pc.op;
      if s.mem(op.addr) == op.expected
      then var c := Commit(s, cell, t, op); SetThread(c, t, Finish(c.threads[t], true))
      else SetThread(s, t, Finish(s.threads[t], false))
    case CopyUnlocked(t) =>
      var c := Copy(s, cell, t, s.threads[t].pc.op);
      SetThread(c, t, c.threads[t].(pc := Ready))
    case Acquire(t) => SetThread(s, t, s.threads[t].(pc := Locked(s.threads[t].pc.op))).(lock := Ppu(t))
    case Compare(t) =>
      var op := s.threads[t].pc.op;
      SetThread(s, t, s.threads[t].(pc := if s.mem(op.addr) == op.expected then Compared(op) else Unlocking(op, false)))
    case Write(t) =>
      var op := s.threads[t].pc.op;
      var c := if op.Conditional? then Commit(s, cell, t, op) else Copy(s, cell, t, op);
      SetThread(c, t, c.threads[t].(pc := Unlocking(op, true)))
    case Release(t) =>
      var th := s.threads[t];
      SetThread(s, t, if th.pc.op.Conditional? then Finish(th, th.pc.ok) else th.(pc := Ready)).(lock := Nobody)
    case SpuLock => s.(lock := Spu)
    case SpuUnlock => s.(lock := Nobody)
    case SpuWrite(addr, bytes) => s.(mem := Put(s.mem, addr, bytes))
    case SpuMark(addr) => s.(member := (x: Addr) => SameLine(x, addr) || s.member(x))
  }

  /** In one 128-byte line. A GETLLAR marks the whole line, under the lock-line; nothing unmarks it. */
  predicate SameLine(a: Addr, b: Addr) { a / 128 == b / 128 }

  /** A mark adds the 128 bytes from an aligned address on, and takes nothing away. */
  lemma MarkIsOneLine(s: State, cell: Addr, a: Addr, x: Addr)
    requires s.lock.Spu?
    ensures Do(s, cell, SpuMark(a)).member(x) <==> s.member(x) || a - a % 128 <= x < a - a % 128 + 128
  {
  }

  // ----- what holds of the protocol itself, for any use of it -----

  predicate InSection(pc: Pc) { pc.Locked? || pc.Compared? || pc.Unlocking? }

  ghost predicate ThreadOk(s: State, t: nat)
    requires t < |s.threads|
  {
    var th := s.threads[t];
    && (InSection(th.pc) ==> s.lock == Ppu(t))
    && (th.pc.Compared? ==> th.pc.op.Conditional?)
    && th.commits == th.reported + (if th.pc.Unlocking? && th.pc.op.Conditional? && th.pc.ok then 1 else 0)
    && (th.reserveAddr != 0 ==> th.reserveValue == th.loaded)
  }

  ghost predicate ProtocolOk(s: State) { forall t :: 0 <= t < |s.threads| ==> ThreadOk(s, t) }

  function ActorOf(a: Action): int {
    match a
    case Lwarx(t, _) => t
    case Stwcx(t, _, _, _) => t
    case Store(t, _, _) => t
    case Test(t) => t
    case CompareExchange(t) => t
    case CopyUnlocked(t) => t
    case Acquire(t) => t
    case Compare(t) => t
    case Write(t) => t
    case Release(t) => t
    case _ => -1
  }

  lemma ActorKept(s: State, cell: Addr, a: Action, t: nat)
    requires Enabled(s, a) && t == ActorOf(a) && t < |s.threads| && ThreadOk(s, t)
    ensures |Do(s, cell, a).threads| == |s.threads| && ThreadOk(Do(s, cell, a), t)
  {
    hide Put, StoreConditionalCr;
  }

  lemma BystanderKept(s: State, cell: Addr, a: Action, t: nat)
    requires Enabled(s, a) && t != ActorOf(a) && t < |s.threads| && ThreadOk(s, t)
    requires 0 <= ActorOf(a) < |s.threads| ==> ThreadOk(s, ActorOf(a))
    ensures |Do(s, cell, a).threads| == |s.threads| && ThreadOk(Do(s, cell, a), t)
  {
    hide Put, StoreConditionalCr, Finish;
  }

  lemma ProtocolKept(s: State, cell: Addr, a: Action)
    requires ProtocolOk(s) && Enabled(s, a)
    ensures ProtocolOk(Do(s, cell, a))
  {
    hide Do, Enabled, ThreadOk;
    var n := Do(s, cell, a);
    SameNumber(s, cell, a);
    forall t | 0 <= t < |n.threads| ensures ThreadOk(n, t) {
      assert ThreadOk(s, t);
      if t == ActorOf(a) {
        ActorKept(s, cell, a, t);
      } else {
        BystanderKept(s, cell, a, t);
      }
    }
  }

  lemma SameNumber(s: State, cell: Addr, a: Action)
    requires Enabled(s, a)
    ensures |Do(s, cell, a).threads| == |s.threads|
  {
    hide Put, StoreConditionalCr, Finish;
  }

  // ----- the commit of an operation on the watched cell -----

  function OpOf(pc: Pc): Op
    requires !pc.Ready?
  {
    pc.op
  }

  /** A conditional store of another value than it expects. */
  predicate Changes(op: Op) { op.Conditional? && op.desired != op.expected }

  /** What the microsteps of an operation on the cell have established: the membership a changing conditional store
      tested is the current one, and under the lock-line the compared value is still there. */
  ghost predicate CellPcOk(s: State, cell: Addr, t: nat)
    requires t < |s.threads|
  {
    var pc := s.threads[t].pc;
    !pc.Ready? && OpOf(pc).addr == cell ==>
      && (pc.Tested? ==> pc.member == s.member(cell) || (!pc.member && !Changes(pc.op)))
      && (InSection(pc) ==> s.member(cell))
      && (pc.Compared? ==> pc.op.Conditional? && s.mem(cell) == pc.op.expected)
  }

  ghost predicate CellOk(s: State, cell: Addr) {
    ProtocolOk(s) && forall t :: 0 <= t < |s.threads| ==> CellPcOk(s, cell, t)
  }

  /** A conditional store that found the cell's line unmarked and has not yet committed its change. */
  predicate Exposed(s: State, cell: Addr, t: nat) {
    && t < |s.threads| && s.threads[t].pc.Tested? && !s.threads[t].pc.member && s.threads[t].pc.op.addr == cell
    && Changes(s.threads[t].pc.op)
  }

  /** The cell's line is first marked only while nobody stands between an unmarked test and the commit. */
  predicate MarksQuietly(s: State, cell: Addr, a: Action) {
    a.SpuMark? && SameLine(cell, a.addr) && !s.member(cell) ==>
      forall t :: 0 <= t < |s.threads| ==> !Exposed(s, cell, t)
  }

  /** A plain store that found the cell's line unmarked, while it is marked by now. */
  predicate Late(s: State, cell: Addr, t: nat) {
    && t < |s.threads| && s.threads[t].pc.Tested? && !s.threads[t].pc.member && s.threads[t].pc.op.addr == cell
    && s.threads[t].pc.op.Plain? && s.member(cell)
  }

  /** A thread between compare and write that another value would deceive. */
  predicate Deceived(s: State, cell: Addr, t: nat, bytes: Bytes) {
    && t < |s.threads| && s.threads[t].pc.Compared? && s.threads[t].pc.op.addr == cell
    && s.threads[t].pc.op.Conditional? && s.threads[t].pc.op.expected != bytes
  }

  /** An unlocked copy to the cell between the compare and the write of another thread. */
  ghost predicate OverwritesCompared(s: State, cell: Addr, a: Action) {
    && a.CopyUnlocked? && Enabled(s, a) && s.threads[a.t].pc.op.addr == cell
    && exists t: nat :: Deceived(s, cell, t, s.threads[a.t].pc.op.bytes)
  }

  predicate SpuWrites(a: Action, cell: Addr) { a.SpuWrite? && a.addr == cell }

  predicate WritesMemory(s: State, a: Action)
    requires Enabled(s, a)
  {
    match a
    case CompareExchange(t) => var op := s.threads[t].pc.op; s.mem(op.addr) == op.expected
    case CopyUnlocked(_) => true
    case Write(_) => true
    case _ => false
  }

  lemma OthersUnchanged(s: State, cell: Addr, a: Action, t: nat)
    requires Enabled(s, a) && t < |s.threads| && t != ActorOf(a)
    ensures t < |Do(s, cell, a).threads| && Do(s, cell, a).threads[t] == s.threads[t]
  {
  }

  predicate WritesCell(s: State, cell: Addr, a: Action)
    requires Enabled(s, a)
  {
    WritesMemory(s, a) && s.threads[ActorOf(a)].pc.op.addr == cell
  }

  /** Only a writing step of an operation on the cell, or the SPU, changes the cell. */
  lemma CellChangesOnlyByWriter(s: State, cell: Addr, a: Action)
    requires Enabled(s, a) && !WritesCell(s, cell, a)
    ensures !SpuWrites(a, cell) ==> Do(s, cell, a).mem(cell) == s.mem(cell)
    ensures Do(s, cell, a).committed == s.committed
  {
  }

  lemma MembershipGrows(s: State, cell: Addr, a: Action)
    requires Enabled(s, a)
    ensures Do(s, cell, a).member(cell) == (s.member(cell) || (a.SpuMark? && SameLine(cell, a.addr)))
  {
  }

  /** While one thread is between compare and write on the cell, nothing else changes the cell: no other thread, no
      SPU write, whatever the SPU marks, but a plain store that a mark overtook between its test and its copy. */
  lemma CompareAndWriteIsAtomic(s: State, cell: Addr, a: Action, t: nat)
    requires CellOk(s, cell) && Enabled(s, a)
    requires t < |s.threads| && t != ActorOf(a) && s.threads[t].pc.Compared? && s.threads[t].pc.op.addr == cell
    ensures Do(s, cell, a).mem(cell) == s.mem(cell) <==> !OverwritesCompared(s, cell, a)
    ensures OverwritesCompared(s, cell, a) ==> Late(s, cell, a.t)
  {
    assert ThreadOk(s, t) && CellPcOk(s, cell, t);
    if WritesMemory(s, a) {
      assert ThreadOk(s, ActorOf(a)) && CellPcOk(s, cell, ActorOf(a));
    }
    if a.CopyUnlocked? && s.threads[a.t].pc.op.addr == cell && s.threads[a.t].pc.op.bytes != s.mem(cell) {
      assert Deceived(s, cell, t, s.threads[a.t].pc.op.bytes);
    }
    if OverwritesCompared(s, cell, a) {
      var u: nat :| Deceived(s, cell, u, s.threads[a.t].pc.op.bytes);
      assert CellPcOk(s, cell, u);
    }
    if !WritesCell(s, cell, a) {
      CellChangesOnlyByWriter(s, cell, a);
    }
  }

  /** A plain store is late only because the line was first marked after its test. */
  lemma LateOnlyByMark(s: State, cell: Addr, a: Action, t: nat)
    requires Enabled(s, a) && Late(Do(s, cell, a), cell, t)
    ensures Late(s, cell, t) || (a.SpuMark? && SameLine(cell, a.addr) && !s.member(cell))
  {
    hide Put, StoreConditionalCr;
  }

  lemma ActorPcOk(s: State, cell: Addr, a: Action, t: nat)
    requires CellOk(s, cell) && Enabled(s, a)
    requires t < |s.threads| && t == ActorOf(a)
    ensures CellPcOk(Do(s, cell, a), cell, t)
  {
    assert ThreadOk(s, t) && CellPcOk(s, cell, t);
    MembershipGrows(s, cell, a);
  }

  lemma BystanderPcOk(s: State, next: State, cell: Addr, t: nat)
    requires t < |s.threads| && t < |next.threads| && next.threads[t] == s.threads[t] && CellPcOk(s, cell, t)
    requires next.member(cell) == s.member(cell) || (next.member(cell) && !Exposed(s, cell, t))
    requires s.threads[t].pc.Compared? && s.threads[t].pc.op.addr == cell ==> next.mem(cell) == s.mem(cell)
    ensures CellPcOk(next, cell, t)
  {
  }

  /** Every step keeps it, SPU writes of the cell included, except a mark that catches a thread exposed and a late
      copy under another thread's compare. */
  lemma CellKept(s: State, cell: Addr, a: Action)
    requires CellOk(s, cell) && Enabled(s, a) && MarksQuietly(s, cell, a) && !OverwritesCompared(s, cell, a)
    ensures CellOk(Do(s, cell, a), cell)
  {
    hide Do, Enabled, ThreadOk, Exposed, CellPcOk, OverwritesCompared;
    ProtocolKept(s, cell, a);
    var n := Do(s, cell, a);
    SameThreads(s, cell, a);
    MembershipGrows(s, cell, a);
    forall t | 0 <= t < |n.threads| ensures CellPcOk(n, cell, t) {
      if t == ActorOf(a) {
        ActorPcOk(s, cell, a, t);
      } else {
        OthersUnchanged(s, cell, a, t);
        if s.threads[t].pc.Compared? && s.threads[t].pc.op.addr == cell {
          CompareAndWriteIsAtomic(s, cell, a, t);
        }
        BystanderPcOk(s, n, cell, t);
      }
    }
  }

  /** And those two always break it. */
  lemma CellKeptIff(s: State, cell: Addr, a: Action)
    requires CellOk(s, cell) && Enabled(s, a)
    ensures CellOk(Do(s, cell, a), cell) <==> MarksQuietly(s, cell, a) && !OverwritesCompared(s, cell, a)
  {
    hide StoreConditionalCr, Finish, ProtocolOk;
    if !MarksQuietly(s, cell, a) {
      var t :| 0 <= t < |s.threads| && Exposed(s, cell, t);
      assert !CellPcOk(Do(s, cell, a), cell, t);
    } else if OverwritesCompared(s, cell, a) {
      var t: nat :| Deceived(s, cell, t, s.threads[a.t].pc.op.bytes);
      assert !CellPcOk(Do(s, cell, a), cell, t);
    } else {
      CellKept(s, cell, a);
    }
  }

  lemma SameThreads(s: State, cell: Addr, a: Action)
    requires Enabled(s, a)
    ensures |Do(s, cell, a).threads| == |s.threads|
  {
  }

  // ----- counters -----

  /** The retry-loop discipline on the counter: store-conditional what the last lwarx read plus an amount,
      and never store to it otherwise, on either side. */
  ghost predicate CounterUse(s: State, cell: Addr, n: nat, a: Action) {
    && MarksQuietly(s, cell, a) && !SpuWrites(a, cell)
    && match a
       case Stwcx(t, addr, desired, amount) =>
         t < |s.threads| && (addr == cell ==> desired == Plus(s.threads[t].loaded, amount, n))
       case Store(_, addr, _) => addr != cell
       case _ => true
  }

  /** The guest's sum, as the bytes it stores. */
  function Plus(b: Bytes, amount: nat, n: nat): Bytes {
    Pow256Positive(n);
    Encode((Decode(b) + amount) % Pow256(n), n)
  }

  ghost predicate CounterThreadOk(s: State, cell: Addr, n: nat, t: nat)
    requires t < |s.threads|
  {
    var th := s.threads[t];
    && (th.reserveAddr == cell != 0 ==> |th.reserveValue| == n)
    && (!th.pc.Ready? && OpOf(th.pc).addr == cell ==>
          var op := OpOf(th.pc);
          cell != 0 && op.Conditional? && |op.expected| == n && op.desired == Plus(op.expected, op.amount, n))
  }

  ghost predicate CounterOk(s: State, cell: Addr, n: nat, initial: nat) {
    && CellOk(s, cell)
    && (forall t :: 0 <= t < |s.threads| ==> CounterThreadOk(s, cell, n, t))
    && s.mem(cell) == CounterBytes(initial + s.committed, n)
  }

  function CounterBytes(v: nat, n: nat): Bytes {
    Pow256Positive(n);
    Encode(v % Pow256(n), n)
  }

  lemma ModOfSum(a: nat, b: nat, m: nat)
    requires m > 0
    ensures (a % m + b) % m == (a + b) % m
  {
    var q := a / m;
    assert a + b == (a % m + b) + q * m;
    ModPlusMultiple(a % m + b, q, m);
  }

  lemma PlusCounts(v: nat, amount: nat, n: nat)
    ensures Plus(CounterBytes(v, n), amount, n) == CounterBytes(v + amount, n)
  {
    Pow256Positive(n);
    DecodeEncode(v % Pow256(n), n);
    ModOfSum(v, amount, Pow256(n));
  }

  lemma CounterWrite(s: State, cell: Addr, n: nat, initial: nat, a: Action)
    requires CounterOk(s, cell, n, initial) && Enabled(s, a)
    requires WritesCell(s, cell, a)
    ensures Do(s, cell, a).mem(cell) == CounterBytes(initial + Do(s, cell, a).committed, n)
  {
    var t := ActorOf(a);
    assert CounterThreadOk(s, cell, n, t) && CellPcOk(s, cell, t) && ThreadOk(s, t);
    var op := s.threads[t].pc.op;
    assert s.mem(cell) == op.expected;
    PlusCounts(initial + s.committed, op.amount, n);
    assert Do(s, cell, a).mem(cell) == op.desired;
    assert Do(s, cell, a).committed == s.committed + op.amount;
    assert initial + s.committed + op.amount == initial + (s.committed + op.amount);
  }

  lemma CounterActor(s: State, cell: Addr, n: nat, initial: nat, a: Action, t: nat)
    requires CounterOk(s, cell, n, initial) && Enabled(s, a) && CounterUse(s, cell, n, a)
    requires t < |s.threads| && t == ActorOf(a)
    ensures CounterThreadOk(Do(s, cell, a), cell, n, t)
  {
    hide Plus, Encode, Decode, CellPcOk;
    assert CounterThreadOk(s, cell, n, t) && ThreadOk(s, t);
  }

  lemma CounterHasNoCopy(s: State, cell: Addr, n: nat, initial: nat, a: Action)
    requires CounterOk(s, cell, n, initial) && Enabled(s, a)
    ensures !OverwritesCompared(s, cell, a)
  {
    if a.CopyUnlocked? {
      assert CounterThreadOk(s, cell, n, a.t);
    }
  }

  lemma CounterKept(s: State, cell: Addr, n: nat, initial: nat, a: Action)
    requires CounterOk(s, cell, n, initial) && Enabled(s, a) && CounterUse(s, cell, n, a)
    ensures CounterOk(Do(s, cell, a), cell, n, initial)
  {
    hide Do, Enabled, CounterThreadOk, CellOk, CounterBytes;
    CounterHasNoCopy(s, cell, n, initial, a);
    CellKept(s, cell, a);
    SameThreads(s, cell, a);
    var next := Do(s, cell, a);
    forall t | 0 <= t < |next.threads| ensures CounterThreadOk(next, cell, n, t) {
      if t == ActorOf(a) {
        CounterActor(s, cell, n, initial, a, t);
      } else {
        OthersUnchanged(s, cell, a, t);
        SameCounterThread(s, next, cell, n, t);
      }
    }
    if WritesCell(s, cell, a) {
      CounterWrite(s, cell, n, initial, a);
    } else {
      CellChangesOnlyByWriter(s, cell, a);
    }
  }

  lemma SameCounterThread(s: State, next: State, cell: Addr, n: nat, t: nat)
    requires t < |s.threads| && t < |next.threads| && s.threads[t] == next.threads[t]
    requires CounterThreadOk(s, cell, n, t)
    ensures CounterThreadOk(next, cell, n, t)
  {
  }

  /** A run: states linked by enabled actions that follow a discipline. */
  ghost predicate IsCounterRun(states: seq<State>, actions: seq<Action>, cell: Addr, n: nat) {
    && |states| == |actions| + 1
    && forall i :: 0 <= i < |actions| ==> Enabled(states[i], actions[i]) && CounterUse(states[i], cell, n, actions[i])
                                          && states[i + 1] == Do(states[i], cell, actions[i])
  }

  /** Nothing in flight, no reservation, nothing committed yet. */
  ghost predicate Fresh(s: State) {
    && s.committed == 0 && s.lock.Nobody?
    && forall t :: 0 <= t < |s.threads| ==>
         s.threads[t].pc.Ready? && s.threads[t].reserveAddr == 0 && s.threads[t].commits == s.threads[t].reported
           && !s.threads[t].holds
  }

  /** Every interleaving: the counter always holds its first value plus the amounts of the conditional
      stores that committed, modulo its width; and each thread was told of exactly its own commits,
      except one it is still unlocking. */
  lemma {:induction false} CounterIsExact(states: seq<State>, actions: seq<Action>, cell: Addr, n: nat, initial: nat)
    requires IsCounterRun(states, actions, cell, n) && Fresh(states[0])
    requires states[0].mem(cell) == CounterBytes(initial, n)
    ensures CounterOk(states[|actions|], cell, n, initial)
    ensures Decode(states[|actions|].mem(cell))
            == (Pow256Positive(n); (initial + states[|actions|].committed) % Pow256(n))
    decreases |actions|
  {
    hide Do, Enabled, CounterUse, CounterThreadOk, ThreadOk, CellPcOk;
    var last := states[|actions|];
    if |actions| == 0 {
      FreshIsOk(states[0], cell, n, initial);
    } else {
      var k := |actions| - 1;
      var ss, aa := states[..k + 1], actions[..k];
      assert IsCounterRun(ss, aa, cell, n);
      CounterIsExact(ss, aa, cell, n, initial);
      CounterKept(states[k], cell, n, initial, actions[k]);
    }
    Pow256Positive(n);
    DecodeEncode((initial + last.committed) % Pow256(n), n);
  }

  lemma FreshIsOk(s: State, cell: Addr, n: nat, initial: nat)
    requires Fresh(s) && s.mem(cell) == CounterBytes(initial, n)
    ensures CounterOk(s, cell, n, initial)
  {
    assert initial + s.committed == initial;
  }

  // ----- a lock word -----

  function Zero(n: nat): Bytes { Encode(0, n) }
  function One(n: nat): Bytes { Encode(1, n) }

  lemma ZeroIsNotOne(n: nat)
    requires n > 0
    ensures Zero(n) != One(n)
  {
    assert Zero(n)[n - 1] == 0 && One(n)[n - 1] == 1;
  }

  /** The lock discipline: store-conditional 1 only after reading 0 and not holding it, plain-store 0 only
      as the holder. */
  ghost predicate LockUse(s: State, cell: Addr, n: nat, a: Action) {
    && MarksQuietly(s, cell, a) && !SpuWrites(a, cell)
    && match a
       case Stwcx(t, addr, desired, _) =>
         t < |s.threads| && (addr == cell ==>
                               !s.threads[t].holds && s.threads[t].loaded == Zero(n) && desired == One(n))
       case Store(t, addr, bytes) => t < |s.threads| && (addr == cell ==> s.threads[t].holds && bytes == Zero(n))
       case _ => true
  }

  function Holders(s: State): set<nat> { set t: nat | t < |s.threads| && s.threads[t].holds }

  ghost predicate LockThreadOk(th: Thread, cell: Addr, n: nat) {
    !th.pc.Ready? && OpOf(th.pc).addr == cell ==>
      match OpOf(th.pc)
      case Conditional(_, expected, desired, _) =>
        expected == Zero(n) && desired == One(n) && (th.pc.Unlocking? || !th.holds)
      case Plain(_, bytes) => bytes == Zero(n) && (th.pc.Unlocking? || th.holds)
  }

  /** The word is 0 and nobody holds it, or 1 and exactly one thread does. */
  ghost predicate LockWordOk(s: State, cell: Addr, n: nat) {
    (s.mem(cell) == Zero(n) && Holders(s) == {}) || (s.mem(cell) == One(n) && exists h: nat :: Holders(s) == {h})
  }

  ghost predicate LockOk(s: State, cell: Addr, n: nat) {
    && CellOk(s, cell)
    && (forall t :: 0 <= t < |s.threads| ==> LockThreadOk(s.threads[t], cell, n))
    && LockWordOk(s, cell, n)
  }

  lemma LockActor(s: State, cell: Addr, n: nat, a: Action, t: nat)
    requires LockOk(s, cell, n) && Enabled(s, a) && LockUse(s, cell, n, a)
    requires t < |s.threads| && t == ActorOf(a)
    ensures t < |Do(s, cell, a).threads| && LockThreadOk(Do(s, cell, a).threads[t], cell, n)
  {
    hide Zero, One, CellPcOk, Holders;
    assert LockThreadOk(s.threads[t], cell, n) && ThreadOk(s, t);
  }

  /** Taking the lock: the word was 0, so nobody held it. */
  lemma TakingTheLock(s: State, cell: Addr, n: nat, a: Action)
    requires n > 0 && LockOk(s, cell, n) && Enabled(s, a) && WritesCell(s, cell, a)
    requires s.threads[ActorOf(a)].pc.op.Conditional?
    ensures LockWordOk(Do(s, cell, a), cell, n)
  {
    var t := ActorOf(a);
    ZeroIsNotOne(n);
    assert LockThreadOk(s.threads[t], cell, n) && CellPcOk(s, cell, t) && ThreadOk(s, t);
    assert Holders(s) == {};
    assert forall u: nat :: u < |s.threads| ==> u !in Holders(s);
    var next := Do(s, cell, a);
    assert next.mem(cell) == One(n);
    assert Holders(next) == {t};
  }

  /** Releasing it: the storing thread was the only holder. */
  lemma ReleasingTheLock(s: State, cell: Addr, n: nat, a: Action)
    requires n > 0 && LockOk(s, cell, n) && Enabled(s, a) && WritesCell(s, cell, a)
    requires s.threads[ActorOf(a)].pc.op.Plain?
    ensures LockWordOk(Do(s, cell, a), cell, n)
  {
    var t := ActorOf(a);
    assert LockThreadOk(s.threads[t], cell, n) && CellPcOk(s, cell, t) && ThreadOk(s, t);
    assert t in Holders(s);
    var h: nat :| Holders(s) == {h};
    assert h == t;
    var next := Do(s, cell, a);
    assert next.mem(cell) == Zero(n);
    forall u: nat | u < |next.threads| ensures !next.threads[u].holds {
      if u != t {
        assert u !in Holders(s);
      }
    }
    assert Holders(next) == {};
  }

  lemma OtherStepsKeepHolders(s: State, cell: Addr, a: Action)
    requires Enabled(s, a) && !WritesCell(s, cell, a)
    ensures Holders(Do(s, cell, a)) == Holders(s)
  {
    var n := Do(s, cell, a);
    assert |n.threads| == |s.threads|;
    assert forall u: nat :: u < |s.threads| ==> n.threads[u].holds == s.threads[u].holds;
  }

  /** A release writes the 0 that every thread between compare and write has found. */
  lemma ReleaseDeceivesNobody(s: State, cell: Addr, n: nat, a: Action)
    requires n > 0 && LockOk(s, cell, n) && Enabled(s, a)
    ensures !OverwritesCompared(s, cell, a)
  {
    hide Zero, One;
  }

  lemma LockKept(s: State, cell: Addr, n: nat, a: Action)
    requires n > 0 && LockOk(s, cell, n) && Enabled(s, a) && LockUse(s, cell, n, a)
    ensures LockOk(Do(s, cell, a), cell, n)
  {
    hide Do, Enabled, LockThreadOk, CellOk, Zero, One, Holders, WritesCell;
    ReleaseDeceivesNobody(s, cell, n, a);
    CellKept(s, cell, a);
    SameThreads(s, cell, a);
    var next := Do(s, cell, a);
    forall t | 0 <= t < |next.threads| ensures LockThreadOk(next.threads[t], cell, n) {
      if t == ActorOf(a) {
        LockActor(s, cell, n, a, t);
      } else {
        OthersUnchanged(s, cell, a, t);
      }
    }
    if WritesCell(s, cell, a) {
      WriterHasOp(s, cell, a);
      if s.threads[ActorOf(a)].pc.op.Conditional? {
        TakingTheLock(s, cell, n, a);
      } else {
        ReleasingTheLock(s, cell, n, a);
      }
    } else {
      CellChangesOnlyByWriter(s, cell, a);
      OtherStepsKeepHolders(s, cell, a);
    }
  }

  lemma WriterHasOp(s: State, cell: Addr, a: Action)
    requires Enabled(s, a) && WritesCell(s, cell, a)
    ensures 0 <= ActorOf(a) < |s.threads| && !s.threads[ActorOf(a)].pc.Ready?
  {
  }

  ghost predicate IsLockRun(states: seq<State>, actions: seq<Action>, cell: Addr, n: nat) {
    && |states| == |actions| + 1
    && forall i :: 0 <= i < |actions| ==> Enabled(states[i], actions[i]) && LockUse(states[i], cell, n, actions[i])
                                          && states[i + 1] == Do(states[i], cell, actions[i])
  }

  /** Mutual exclusion in every interleaving, whatever values the word went through in between. */
  lemma {:induction false} NeverTwoHolders(states: seq<State>, actions: seq<Action>, cell: Addr, n: nat)
    requires n > 0 && IsLockRun(states, actions, cell, n) && Fresh(states[0]) && states[0].mem(cell) == Zero(n)
    ensures LockOk(states[|actions|], cell, n)
    ensures forall t: nat, u: nat :: t in Holders(states[|actions|]) && u in Holders(states[|actions|]) ==> t == u
    decreases |actions|
  {
    hide Do, Enabled, LockUse, LockThreadOk, CellOk, Zero, One, Holders;
    if |actions| == 0 {
      FreshIsUnlocked(states[0], cell, n);
    } else {
      var k := |actions| - 1;
      assert IsLockRun(states[..k + 1], actions[..k], cell, n);
      NeverTwoHolders(states[..k + 1], actions[..k], cell, n);
      LockKept(states[k], cell, n, actions[k]);
    }
    if Holders(states[|actions|]) != {} {
      var h: nat :| Holders(states[|actions|]) == {h};
    }
  }

  lemma FreshIsUnlocked(s: State, cell: Addr, n: nat)
    requires Fresh(s) && s.mem(cell) == Zero(n)
    ensures LockOk(s, cell, n)
  {
    assert Holders(s) == {};
  }
}
