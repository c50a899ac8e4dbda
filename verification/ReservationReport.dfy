/** What the guest is told: CR0 after a conditional store (`set_store_conditional_cr0`, yakuza/shims.cpp) against what
    the store did to memory, step by step and over whole runs. */
module ReservationReport {
  import opened BigEndian
  import opened Reservation

  /** The step by which a thread's conditional store is over: refused at once, after its compare-exchange, or when it
      gives the lock-line back. */
  predicate EndsConditional(s: State, a: Action, t: nat)
    requires Enabled(s, a) && t < |s.threads|
  {
    match a
    case Stwcx(u, addr, _, _) => u == t && (s.threads[t].reserveAddr == 0 || s.threads[t].reserveAddr != addr)
    case CompareExchange(u) => u == t
    case Release(u) => u == t && s.threads[t].pc.op.Conditional?
    case _ => false
  }

  /** The step by which it stores. */
  predicate TakesEffect(s: State, a: Action, t: nat)
    requires Enabled(s, a) && t < |s.threads|
  {
    match a
    case CompareExchange(u) => u == t && s.mem(s.threads[t].pc.op.addr) == s.threads[t].pc.op.expected
    case Write(u) => u == t && s.threads[t].pc.op.Conditional?
    case _ => false
  }

  /** CR0[EQ], the bit a retry loop tests. */
  predicate Equal(cr: bv32) { (cr >> 29) & 1 == 1 }

  /** Stored, and not yet told. */
  predicate Pending(th: Thread) { th.pc.Unlocking? && th.pc.op.Conditional? && th.pc.ok }

  /** A conditional store of a thread does to memory what it should or nothing; and only its own steps do. */
  lemma EffectIsTheStore(s: State, cell: Addr, a: Action, t: nat)
    requires Enabled(s, a) && t < |s.threads|
    requires t == ActorOf(a) && !s.threads[t].pc.Ready? && s.threads[t].pc.op.Conditional?
    ensures var op := s.threads[t].pc.op;
            Do(s, cell, a).mem(op.addr) == if TakesEffect(s, a, t) then op.desired else s.mem(op.addr)
    ensures forall x: Addr :: x != s.threads[t].pc.op.addr ==> Do(s, cell, a).mem(x) == s.mem(x)
  {
    hide StoreConditionalCr;
  }

  /** A plain store writes its bytes to its address in one step, the copy, and no other step of it writes. */
  lemma PlainIsTheStore(s: State, cell: Addr, a: Action, t: nat)
    requires Enabled(s, a) && t < |s.threads|
    requires t == ActorOf(a) && !s.threads[t].pc.Ready? && s.threads[t].pc.op.Plain?
    ensures var op := s.threads[t].pc.op;
            Do(s, cell, a).mem(op.addr) == if a.CopyUnlocked? || a.Write? then op.bytes else s.mem(op.addr)
    ensures forall x: Addr :: x != s.threads[t].pc.op.addr ==> Do(s, cell, a).mem(x) == s.mem(x)
  {
    hide StoreConditionalCr;
  }

  /** Without a reservation of the address nothing is stored and nothing waits to be. */
  lemma RefusedAtOnce(s: State, cell: Addr, a: Action)
    requires Enabled(s, a) && a.Stwcx?
    requires s.threads[a.t].reserveAddr == 0 || s.threads[a.t].reserveAddr != a.addr
    ensures Do(s, cell, a).mem == s.mem && Do(s, cell, a).threads[a.t].pc.Ready?
  {
    hide StoreConditionalCr;
  }

  /** A first attempt after lwarx of the same address goes on to the test, with the bytes lwarx read. */
  lemma ReservedGoesOn(s: State, cell: Addr, t: nat, addr: Addr, desired: Bytes, amount: nat)
    requires addr != 0 && Enabled(s, Lwarx(t, addr))
    ensures var r := Do(s, cell, Lwarx(t, addr));
            Enabled(r, Stwcx(t, addr, desired, amount))
            && var n := Do(r, cell, Stwcx(t, addr, desired, amount));
               |n.threads| == |s.threads| && n.threads[t].pc == Entered(Conditional(addr, s.mem(addr), desired, amount))
  {
    hide StoreConditionalCr;
  }

  lemma EndFinishes(s: State, cell: Addr, a: Action, t: nat)
    requires Enabled(s, a) && t < |s.threads| && EndsConditional(s, a, t)
    ensures |Do(s, cell, a).threads| == |s.threads|
    ensures var was, now, ok := s.threads[t], Do(s, cell, a).threads[t], Pending(s.threads[t]) || TakesEffect(s, a, t);
            && now.cr == StoreConditionalCr(was.cr, was.xer, ok) && now.xer == was.xer
            && now.reserveAddr == 0 && now.pc.Ready? && now.reported == was.reported + (if ok then 1 else 0)
  {
    hide StoreConditionalCr, Put;
  }

  /** A thread is told of a store exactly when it took effect. */
  lemma EndReports(s: State, cell: Addr, a: Action, t: nat)
    requires Enabled(s, a) && t < |s.threads| && EndsConditional(s, a, t)
    ensures |Do(s, cell, a).threads| == |s.threads|
    ensures var was, now := s.threads[t], Do(s, cell, a).threads[t];
            && (Equal(now.cr) <==> Pending(was) || TakesEffect(s, a, t))
            && now.cr >> 30 == 0 && (now.cr >> 28) & 1 == was.xer >> 31 && now.cr & 0x0FFF_FFFF == was.cr & 0x0FFF_FFFF
            && now.xer == was.xer && now.reserveAddr == 0 && now.pc.Ready?
            && now.reported == was.reported + (if Equal(now.cr) then 1 else 0)
  {
    hide StoreConditionalCr, Do, Enabled, EndsConditional, TakesEffect, Pending;
    EndFinishes(s, cell, a, t);
    Cr0Meaning(s.threads[t].cr, s.threads[t].xer, Pending(s.threads[t]) || TakesEffect(s, a, t));
  }

  /** No other step touches CR, XER or the count of reports. */
  lemma CrStays(s: State, cell: Addr, a: Action, t: nat)
    requires Enabled(s, a) && t < |s.threads| && !EndsConditional(s, a, t)
    ensures |Do(s, cell, a).threads| == |s.threads|
    ensures var was, now := s.threads[t], Do(s, cell, a).threads[t];
            now.cr == was.cr && now.xer == was.xer && now.reported == was.reported
            && (Pending(now) <==> Pending(was) || (TakesEffect(s, a, t) && a.Write?))
  {
    hide StoreConditionalCr, Put;
  }

  // ----- over a run -----

  ghost predicate IsRun(states: seq<State>, actions: seq<Action>, cell: Addr) {
    && |states| == |actions| + 1
    && forall i :: 0 <= i < |actions| ==>
         Enabled(states[i], actions[i]) && states[i + 1] == Do(states[i], cell, actions[i])
  }

  lemma {:induction false} ThreadsOfRun(states: seq<State>, actions: seq<Action>, cell: Addr, k: nat)
    requires IsRun(states, actions, cell) && k <= |actions|
    ensures |states[k].threads| == |states[0].threads|
  {
    hide Do, Enabled;
    if k > 0 {
      ThreadsOfRun(states, actions, cell, k - 1);
      SameThreads(states[k - 1], cell, actions[k - 1]);
    }
  }

  /** Step i of a run ends a conditional store of the thread with CR0[EQ] set. */
  predicate TellsAt(states: seq<State>, actions: seq<Action>, t: nat, i: nat) {
    && i < |actions| && i + 1 < |states| && t < |states[i].threads| && t < |states[i + 1].threads|
    && Enabled(states[i], actions[i]) && EndsConditional(states[i], actions[i], t) && Equal(states[i + 1].threads[t].cr)
  }

  predicate StoresAt(states: seq<State>, actions: seq<Action>, t: nat, i: nat) {
    && i < |actions| && i < |states| && t < |states[i].threads|
    && Enabled(states[i], actions[i]) && TakesEffect(states[i], actions[i], t)
  }

  /** How often the guest saw EQ set in the first k steps. */
  function Told(states: seq<State>, actions: seq<Action>, t: nat, k: nat): nat {
    if k == 0 then 0 else Told(states, actions, t, k - 1) + (if TellsAt(states, actions, t, k - 1) then 1 else 0)
  }

  /** And how often its conditional stores wrote memory. */
  function Stored(states: seq<State>, actions: seq<Action>, t: nat, k: nat): nat {
    if k == 0 then 0 else Stored(states, actions, t, k - 1) + (if StoresAt(states, actions, t, k - 1) then 1 else 0)
  }

  lemma ToldStep(s: State, cell: Addr, a: Action, t: nat)
    requires ProtocolOk(s) && Enabled(s, a) && t < |s.threads|
    ensures |Do(s, cell, a).threads| == |s.threads|
    ensures var now, told := Do(s, cell, a).threads[t], EndsConditional(s, a, t) && Equal(Do(s, cell, a).threads[t].cr);
            && now.reported == s.threads[t].reported + (if told then 1 else 0)
            && (if Pending(now) then 1 else 0) + (if told then 1 else 0)
               == (if Pending(s.threads[t]) then 1 else 0) + (if TakesEffect(s, a, t) then 1 else 0)
  {
    hide Do, Equal, ThreadOk;
    if EndsConditional(s, a, t) {
      EndReports(s, cell, a, t);
    } else {
      CrStays(s, cell, a, t);
    }
    if Pending(s.threads[t]) {
      PendingMoves(s, cell, a, t);
    }
  }

  /** A thread that has stored goes on to tell: it does not store again before. */
  lemma PendingMoves(s: State, cell: Addr, a: Action, t: nat)
    requires Enabled(s, a) && t < |s.threads| && Pending(s.threads[t])
    ensures !TakesEffect(s, a, t)
  {
  }

  /** In every run the guest sees CR0[EQ] set once for each store of its that took effect, and not otherwise; a store
      whose thread still holds the lock-line is told next. */
  lemma {:induction false} GuestIsTold(states: seq<State>, actions: seq<Action>, cell: Addr, t: nat, k: nat)
    requires IsRun(states, actions, cell) && Fresh(states[0]) && t < |states[0].threads| && k <= |actions|
    ensures ProtocolOk(states[k]) && |states[k].threads| == |states[0].threads|
    ensures Told(states, actions, t, k) + (if Pending(states[k].threads[t]) then 1 else 0)
            == Stored(states, actions, t, k)
    ensures states[k].threads[t].reported == states[0].threads[t].reported + Told(states, actions, t, k)
    decreases k
  {
    hide Do, Enabled, TakesEffect, EndsConditional, Equal, ProtocolOk, Fresh;
    if k == 0 {
      FreshProtocol(states[0], t);
    } else {
      GuestIsTold(states, actions, cell, t, k - 1);
      ToldStep(states[k - 1], cell, actions[k - 1], t);
      ProtocolKept(states[k - 1], cell, actions[k - 1]);
    }
  }

  lemma FreshProtocol(s: State, t: nat)
    requires Fresh(s) && t < |s.threads|
    ensures ProtocolOk(s) && !Pending(s.threads[t])
  {
  }
}
