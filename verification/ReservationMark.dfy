/** The moment a line joins the coherence set. `ppu_res_stwcx` (yakuza/shims.cpp) tests membership and commits in
    separate steps; a first GETLLAR (runtime/spu/spu_dma.h) may mark the line in between. Marking is safe for a
    counter exactly when no thread is caught there. */
module ReservationMark {
  import opened Basics
  import opened BigEndian
  import opened Reservation
  import opened ReservationScript

  lemma {:induction false} FollowKeeps(s: State, cell: Addr, n: nat, initial: nat, script: seq<Action>)
    requires CounterOk(s, cell, n, initial) && Follow(AsCounter, s, cell, n, script).Some?
    ensures CounterOk(Follow(AsCounter, s, cell, n, script).value, cell, n, initial)
    decreases |script|
  {
    hide Do, Enabled, CounterUse, CounterOk;
    if script != [] {
      CounterKept(s, cell, n, initial, script[0]);
      FollowKeeps(Do(s, cell, script[0]), cell, n, initial, script[1..]);
    }
  }

  // ----- any value can be reached -----

  /** The amount that turns one word into another. */
  function Gap(v: Bytes, w: Bytes, n: nat): nat {
    Pow256Positive(n);
    (Decode(w) + Pow256(n) - Decode(v) % Pow256(n)) % Pow256(n)
  }

  lemma GapReaches(v: Bytes, w: Bytes, n: nat)
    requires |v| == n && |w| == n
    ensures Plus(v, Gap(v, w, n), n) == w
  {
    hide Encode, Decode, Pow256;
    Pow256Positive(n);
    var m, x, y := Pow256(n), Decode(v), Decode(w);
    DecodeBelow(v);
    DecodeBelow(w);
    GapSum(x, y, m);
    EncodeDecode(w);
  }

  lemma GapSum(x: nat, y: nat, m: nat)
    requires x < m && y < m
    ensures (x + (y + m - x % m) % m) % m == y
  {
    if y >= x {
      QuotientIs(y + m - x, m, 1, y - x);
      QuotientIs(y, m, 0, y);
    } else {
      QuotientIs(y + m - x, m, 0, y + m - x);
      QuotientIs(y + m, m, 1, y);
    }
    QuotientIs(x, m, 0, x);
  }

  lemma CountersDiffer(v: nat, amount: nat, n: nat)
    requires CounterBytes(v + amount, n) == CounterBytes(v, n)
    ensures amount % (Pow256Positive(n); Pow256(n)) == 0
  {
    Pow256Positive(n);
    var m := Pow256(n);
    ModBelow(v, m);
    ModBelow(v + amount, m);
    DecodeEncode(v % m, n);
    DecodeEncode((v + amount) % m, n);
    SameRemainder(v, amount, m);
  }

  lemma ModBelow(x: nat, m: nat)
    requires m > 0
    ensures 0 <= x % m < m
  {
  }

  lemma SameRemainder(v: nat, amount: nat, m: nat)
    requires m > 0 && (v + amount) % m == v % m
    ensures amount % m == 0
  {
    var q := (v + amount) / m - v / m;
    assert amount == q * m + 0 by {
      assert v + amount == ((v + amount) / m) * m + (v + amount) % m;
      assert v == (v / m) * m + v % m;
      assert q * m == ((v + amount) / m) * m - (v / m) * m;
    }
    QuotientIs(amount, m, q, 0);
  }

  // ----- marking -----

  /** u increments the word to what t expects, and then holds a second increment while t's compare-exchange
      goes through. */
  function Losing(t: nat, u: nat, cell: Addr, n: nat, v: Bytes, w: Bytes): seq<Action> {
    Take(u, cell, n, v, Gap(v, w, n)) + Finishing(u) + Take(u, cell, n, w, 1) + [CompareExchange(t)] + Finishing(u)
  }

  /** The two increments of u, up to the point where t's compare-exchange can succeed. */
  lemma Baited(s: State, cell: Addr, n: nat, t: nat, u: nat, parked: Thread, v: Bytes, w: Bytes, k: nat)
    requires cell != 0 && Idle(s, cell, t, u, parked, v, k) && |v| == n && |w| == n
    ensures var e := Follow(AsCounter, s, cell, n, Take(u, cell, n, v, Gap(v, w, n)) + Finishing(u)
                            + Take(u, cell, n, w, 1));
            e.Some? && u < |e.value.threads|
            && Holding(e.value, cell, n, t, u, parked, w, 1, w, k + Gap(v, w, n), e.value.threads[u].reported)
  {
    hide Follow, Idle, Holding, Plus, Gap, Take, Finishing;
    var d := Gap(v, w, n);
    GapReaches(v, w, n);
    InRange(s, cell, t, u, parked, v, k);
    Taking(AsCounter, s, cell, n, t, u, parked, v, k, d);
    var s1 := Follow(AsCounter, s, cell, n, Take(u, cell, n, v, d)).value;
    Finished(AsCounter, s1, cell, n, t, u, parked, v, d, v, k, s.threads[u].reported);
    var s2 := Follow(AsCounter, s1, cell, n, Finishing(u)).value;
    FollowAppend(AsCounter, s, cell, n, Take(u, cell, n, v, d), Finishing(u));
    InRange(s2, cell, t, u, parked, w, k + d);
    Taking(AsCounter, s2, cell, n, t, u, parked, w, k + d, 1);
    FollowAppend(AsCounter, s, cell, n, Take(u, cell, n, v, d) + Finishing(u), Take(u, cell, n, w, 1));
    HoldingAny(Follow(AsCounter, s2, cell, n, Take(u, cell, n, w, 1)).value, cell, n, t, u, parked, w, 1, w, k + d,
               s2.threads[u].reported);
  }

  lemma HoldingAny(s: State, cell: Addr, n: nat, t: nat, u: nat, parked: Thread, from: Bytes, amount: nat, v: Bytes,
                   k: nat, reported: nat)
    requires Holding(s, cell, n, t, u, parked, from, amount, v, k, reported)
    ensures u < |s.threads| && s.threads[u].reported == reported
  {
  }

  /** And from there: t commits under u's compare, and u's write wipes it out. */
  lemma Wiped(s: State, cell: Addr, n: nat, t: nat, u: nat, parked: Thread, k: nat, reported: nat)
    requires parked.pc.Tested? && !parked.pc.member && parked.pc.op.Conditional? && parked.pc.op.addr == cell
    requires Holding(s, cell, n, t, u, parked, parked.pc.op.expected, 1, parked.pc.op.expected, k, reported)
    ensures var e := Follow(AsCounter, s, cell, n, [CompareExchange(t)] + Finishing(u));
            e.Some? && t < |e.value.threads| && e.value.mem(cell) == Plus(parked.pc.op.expected, 1, n)
            && e.value.committed == k + parked.pc.op.amount + 1 && e.value.threads[t].reported == parked.reported + 1
  {
    hide Follow, Plus, Finishing;
    var w := parked.pc.op.expected;
    Overtaken(AsCounter, s, cell, n, t, u, parked, w, 1, k, reported);
    var s1 := Follow(AsCounter, s, cell, n, [CompareExchange(t)]).value;
    Finished(AsCounter, s1, cell, n, t, u, s1.threads[t], w, 1, parked.pc.op.desired, k + parked.pc.op.amount,
             reported);
    FollowAppend(AsCounter, s, cell, n, [CompareExchange(t)], Finishing(u));
  }

  /** From an idle u: the caught thread's update is reported as done, and exactly that update is lost. */
  lemma UpdateIsLost(s: State, cell: Addr, n: nat, initial: nat, t: nat, u: nat, parked: Thread)
    requires cell != 0 && Idle(s, cell, t, u, parked, s.mem(cell), s.committed) && Exact(s, cell, n, initial)
    requires parked.pc.Tested? && !parked.pc.member && parked.pc.op.Conditional? && parked.pc.op.addr == cell
    requires |parked.pc.op.expected| == n && parked.pc.op.desired == Plus(parked.pc.op.expected, parked.pc.op.amount, n)
    ensures var op := parked.pc.op;
            var e := Follow(AsCounter, s, cell, n, Losing(t, u, cell, n, s.mem(cell), op.expected));
            e.Some? && t < |e.value.threads| && e.value.threads[t].reported == parked.reported + 1
            && e.value.committed >= op.amount
               && e.value.mem(cell) == CounterBytes(initial + e.value.committed - op.amount, n)
  {
    hide Follow, Plus, Gap, Take, Finishing, Idle, CounterBytes;
    var v, k, w := s.mem(cell), s.committed, parked.pc.op.expected;
    CounterLength(initial + k, n);
    var bait := Take(u, cell, n, v, Gap(v, w, n)) + Finishing(u) + Take(u, cell, n, w, 1);
    Baited(s, cell, n, t, u, parked, v, w, k);
    var s2 := Follow(AsCounter, s, cell, n, bait).value;
    Wiped(s2, cell, n, t, u, parked, k + Gap(v, w, n), s2.threads[u].reported);
    FollowAppend(AsCounter, s, cell, n, bait, [CompareExchange(t)] + Finishing(u));
    assert Losing(t, u, cell, n, v, w) == bait + ([CompareExchange(t)] + Finishing(u));
    Tally(v, w, n, initial + k);
  }

  /** What the word counts after both increments of u. */
  lemma Tally(v: Bytes, w: Bytes, n: nat, total: nat)
    requires v == CounterBytes(total, n) && |w| == n
    ensures Plus(w, 1, n) == CounterBytes(total + Gap(v, w, n) + 1, n)
  {
    hide Plus, Gap, CounterBytes;
    CounterLength(total, n);
    GapReaches(v, w, n);
    PlusCounts(total, Gap(v, w, n), n);
    PlusCounts(total + Gap(v, w, n), 1, n);
  }

  // ----- a thread by itself -----

  /** The only thread: nobody can slip between its compare and its write. */
  ghost predicate Sole(s: State, cell: Addr, n: nat, initial: nat) {
    && |s.threads| == 1 && ThreadOk(s, 0) && CounterThreadOk(s, cell, n, 0) && Exact(s, cell, n, initial)
    && (s.threads[0].pc.Compared? && s.threads[0].pc.op.addr == cell ==> s.mem(cell) == s.threads[0].pc.op.expected)
  }

  lemma SoleThreadKept(s: State, cell: Addr, n: nat, initial: nat, a: Action)
    requires Sole(s, cell, n, initial) && Enabled(s, a) && CounterUse(s, cell, n, a) && ActorOf(a) == 0
    ensures |Do(s, cell, a).threads| == 1 && ThreadOk(Do(s, cell, a), 0) && CounterThreadOk(Do(s, cell, a), cell, n, 0)
  {
    hide Plus, CounterBytes, StoreConditionalCr, Put;
    CounterLength(initial + s.committed, n);
    ActorKept(s, cell, a, 0);
  }

  lemma SoleWriter(s: State, cell: Addr, n: nat, initial: nat, a: Action)
    requires Sole(s, cell, n, initial) && Enabled(s, a) && WritesCell(s, cell, a)
    ensures !s.threads[0].pc.Ready?
    ensures var op := s.threads[0].pc.op;
            op.Conditional? && op.desired == Plus(op.expected, op.amount, n) && s.mem(cell) == op.expected
            && Do(s, cell, a).mem(cell) == op.desired && Do(s, cell, a).committed == s.committed + op.amount
  {
    hide Plus, CounterBytes, StoreConditionalCr, Finish;
    assert ActorOf(a) == 0;
    assert CounterThreadOk(s, cell, n, 0);
  }

  lemma SoleWordKept(s: State, cell: Addr, n: nat, initial: nat, a: Action)
    requires Sole(s, cell, n, initial) && Enabled(s, a) && CounterUse(s, cell, n, a)
    ensures Exact(Do(s, cell, a), cell, n, initial)
  {
    hide Plus, CounterBytes, Do, Enabled, WritesCell;
    if WritesCell(s, cell, a) {
      SoleWriter(s, cell, n, initial, a);
      ExactAfter(s, Do(s, cell, a), cell, n, initial, s.threads[0].pc.op);
    } else {
      CellChangesOnlyByWriter(s, cell, a);
    }
  }

  lemma SoleKept(s: State, cell: Addr, n: nat, initial: nat, a: Action)
    requires Sole(s, cell, n, initial) && Enabled(s, a) && CounterUse(s, cell, n, a)
    ensures Sole(Do(s, cell, a), cell, n, initial)
  {
    hide Plus, CounterBytes, StoreConditionalCr, Exact;
    SoleWordKept(s, cell, n, initial, a);
    if ActorOf(a) == 0 {
      SoleThreadKept(s, cell, n, initial, a);
    }
  }

  lemma {:induction false} SoleFollows(s: State, cell: Addr, n: nat, initial: nat, script: seq<Action>)
    requires Sole(s, cell, n, initial) && Follow(AsCounter, s, cell, n, script).Some?
    ensures Sole(Follow(AsCounter, s, cell, n, script).value, cell, n, initial)
    decreases |script|
  {
    hide Do, Enabled, CounterUse, Sole;
    if script != [] {
      SoleKept(s, cell, n, initial, script[0]);
      SoleFollows(Do(s, cell, script[0]), cell, n, initial, script[1..]);
    }
  }

  // ----- marking -----

  lemma CaughtThread(s: State, cell: Addr, n: nat, initial: nat, t: nat)
    requires CounterOk(s, cell, n, initial) && Exposed(s, cell, t)
    ensures t < |s.threads| && s.threads[t].pc.Tested? && !s.threads[t].pc.member
    ensures var op := s.threads[t].pc.op;
            op.addr == cell != 0 && op.Conditional? && |op.expected| == n
              && op.desired == Plus(op.expected, op.amount, n)
            && op.desired != op.expected
  {
    hide CellOk, Plus;
    assert CounterThreadOk(s, cell, n, t);
  }

  /** The mark and the unlock leave u alone to move. */
  lemma Marked(s: State, cell: Addr, n: nat, initial: nat, mark: Addr, t: nat, u: nat)
    requires CounterOk(s, cell, n, initial) && s.lock.Spu? && SameLine(cell, mark)
    requires t < |s.threads| && u < |s.threads| && u != t
    ensures Enabled(s, SpuMark(mark))
    ensures var e := Follow(AsCounter, Do(s, cell, SpuMark(mark)), cell, n, [SpuUnlock]);
            e.Some? && Alone(AsCounter, e.value, cell, n, initial, t, u, s.threads[t])
  {
    hide Plus, CounterBytes;
    assert ThreadOk(s, u) && CounterThreadOk(s, cell, n, u);
    FollowOne(AsCounter, Do(s, cell, SpuMark(mark)), cell, n, SpuUnlock);
  }

  /** If the mark catches a thread exposed and there is another, some continuation that keeps the discipline
      reports the caught thread's update as done and loses exactly that update. */
  lemma CaughtUpdateIsLost(s: State, cell: Addr, n: nat, initial: nat, mark: Addr, t: nat, u: nat)
    returns (script: seq<Action>)
    requires CounterOk(s, cell, n, initial) && s.lock.Spu? && SameLine(cell, mark)
    requires Exposed(s, cell, t) && u < |s.threads| && u != t
    ensures Enabled(s, SpuMark(mark)) && s.threads[t].pc.op.Conditional?
    ensures var op := s.threads[t].pc.op;
            var e := Follow(AsCounter, Do(s, cell, SpuMark(mark)), cell, n, script);
            e.Some? && t < |e.value.threads| && e.value.threads[t].reported == s.threads[t].reported + 1
            && e.value.committed >= op.amount
               && e.value.mem(cell) == CounterBytes(initial + e.value.committed - op.amount, n)
  {
    hide Follow, Plus, Do, Enabled, CounterOk, Alone, Idle, CounterBytes, Losing, Exact, Exposed;
    CaughtThread(s, cell, n, initial, t);
    Marked(s, cell, n, initial, mark, t, u);
    var parked, s0 := s.threads[t], Do(s, cell, SpuMark(mark));
    var s1 := Follow(AsCounter, s0, cell, n, [SpuUnlock]).value;
    var rest := RunToRest(AsCounter, s1, cell, n, initial, t, u, parked);
    var s2 := Follow(AsCounter, s1, cell, n, rest).value;
    RestIsIdle(AsCounter, s2, cell, n, initial, t, u, parked);
    UpdateIsLost(s2, cell, n, initial, t, u, parked);
    var lose := Losing(t, u, cell, n, s2.mem(cell), parked.pc.op.expected);
    FollowAppend(AsCounter, s0, cell, n, [SpuUnlock], rest);
    FollowAppend(AsCounter, s0, cell, n, [SpuUnlock] + rest, lose);
    script := [SpuUnlock] + rest + lose;
  }

  ghost predicate AlwaysExact(s: State, cell: Addr, n: nat, initial: nat) {
    forall script: seq<Action> :: Follow(AsCounter, s, cell, n, script).Some?
      ==> Exact(Follow(AsCounter, s, cell, n, script).value, cell, n, initial)
  }

  lemma QuietMarkIsSafe(s: State, cell: Addr, n: nat, initial: nat, mark: Addr)
    requires CounterOk(s, cell, n, initial) && s.lock.Spu? && forall t: nat :: !Exposed(s, cell, t)
    ensures Enabled(s, SpuMark(mark)) && AlwaysExact(Do(s, cell, SpuMark(mark)), cell, n, initial)
  {
    hide Do, CellOk, CounterThreadOk, Exposed, Follow, CounterBytes;
    CounterKept(s, cell, n, initial, SpuMark(mark));
    var next := Do(s, cell, SpuMark(mark));
    forall script: seq<Action> | Follow(AsCounter, next, cell, n, script).Some?
      ensures Exact(Follow(AsCounter, next, cell, n, script).value, cell, n, initial)
    {
      FollowKeeps(next, cell, n, initial, script);
    }
  }

  lemma SoleMarkIsSafe(s: State, cell: Addr, n: nat, initial: nat, mark: Addr)
    requires CounterOk(s, cell, n, initial) && s.lock.Spu? && |s.threads| == 1
    ensures Enabled(s, SpuMark(mark)) && AlwaysExact(Do(s, cell, SpuMark(mark)), cell, n, initial)
  {
    hide Follow, CounterBytes, Plus;
    var next := Do(s, cell, SpuMark(mark));
    assert ThreadOk(s, 0) && CounterThreadOk(s, cell, n, 0);
    forall script: seq<Action> | Follow(AsCounter, next, cell, n, script).Some?
      ensures Exact(Follow(AsCounter, next, cell, n, script).value, cell, n, initial)
    {
      SoleFollows(next, cell, n, initial, script);
    }
  }

  /** Marking the counter's line keeps every continuation exact iff it catches no thread exposed, or there is
      only one thread. */
  lemma MarkingIsSafeIff(s: State, cell: Addr, n: nat, initial: nat, mark: Addr)
    requires CounterOk(s, cell, n, initial) && s.lock.Spu? && SameLine(cell, mark)
    ensures Enabled(s, SpuMark(mark))
    ensures AlwaysExact(Do(s, cell, SpuMark(mark)), cell, n, initial)
       <==> |s.threads| == 1 || forall t: nat :: !Exposed(s, cell, t)
  {
    hide Follow, Do, Enabled, CounterOk, Exposed, CounterBytes;
    MarkEnabled(s, cell, mark);
    if |s.threads| == 1 {
      SoleMarkIsSafe(s, cell, n, initial, mark);
    } else if forall t: nat :: !Exposed(s, cell, t) {
      QuietMarkIsSafe(s, cell, n, initial, mark);
    } else {
      var t: nat :| Exposed(s, cell, t);
      CaughtThread(s, cell, n, initial, t);
      var script := CaughtUpdateIsLost(s, cell, n, initial, mark, t, if t == 0 then 1 else 0);
      var op, e := s.threads[t].pc.op, Follow(AsCounter, Do(s, cell, SpuMark(mark)), cell, n, script).value;
      NothingCounted(op, n);
      if Exact(e, cell, n, initial) {
        CountersDiffer(initial + e.committed - op.amount, op.amount, n);
      }
    }
  }

  lemma NothingCounted(op: Op, n: nat)
    requires op.Conditional? && |op.expected| == n && op.desired == Plus(op.expected, op.amount, n)
    ensures op.amount % (Pow256Positive(n); Pow256(n)) == 0 ==> op.desired == op.expected
  {
    hide Encode, Decode, Pow256;
    Pow256Positive(n);
    var m := Pow256(n);
    if op.amount % m == 0 {
      DecodeBelow(op.expected);
      var q := op.amount / m;
      QuotientIs(Decode(op.expected) + op.amount, m, q, Decode(op.expected));
      EncodeDecode(op.expected);
    }
  }

  lemma ZeroCounts()
    ensures Zero(4) == CounterBytes(0, 4) && |Zero(4)| == 4
  {
    hide Encode;
    Pow256Positive(4);
    QuotientIs(0, Pow256(4), 0, 0);
  }

  lemma ExposureCounts(cr: bv32)
    ensures var e := Follow(AsCounter, TwoIdle(cr), 4, 4, EXPOSING);
            e.Some? && CounterOk(e.value, 4, 4, 0)
  {
    hide Follow, Zero, CounterBytes, CounterOk;
    ZeroCounts();
    FreshIsOk(TwoIdle(cr), 4, 4, 0);
    ReachesExposure(AsCounter, cr);
    FollowKeeps(TwoIdle(cr), 4, 4, 0, EXPOSING);
  }

  /** A whole run from idle threads, with the line marked once and never unmarked: thread 1 is told its update is
      done, and the counter is one short. */
  lemma MarkingCanLoseAnUpdate(cr: bv32) returns (after: seq<Action>)
    ensures var s := Follow(AsCounter, TwoIdle(cr), 4, 4, EXPOSING);
            s.Some? && Enabled(s.value, SpuMark(4))
            && var e := Follow(AsCounter, Do(s.value, 4, SpuMark(4)), 4, 4, after);
               e.Some? && |e.value.threads| > 1 && e.value.threads[1].reported == 1 && e.value.committed > 0
               && e.value.mem(4) == CounterBytes(e.value.committed - 1, 4)
  {
    hide Follow, Do, Enabled, CounterOk, Exposed, CounterBytes;
    ReachesExposure(AsCounter, cr);
    ExposureCounts(cr);
    var s := Follow(AsCounter, TwoIdle(cr), 4, 4, EXPOSING).value;
    after := CaughtUpdateIsLost(s, 4, 4, 0, 4, 1, 0);
  }
}
