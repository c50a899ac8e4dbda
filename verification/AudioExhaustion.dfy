/** Three ring sizes are the most a session may use for sure: with four, a close can find the free table full and drop
    its blocks, and a later open then runs out of memory although a port slot is free. */
module AudioExhaustion {
  import opened Basics
  import opened AudioServer
  import opened AudioCapacity
  import opened AudioSession

  // ----- books of the allocator -----

  /** Empty entries, index blocks, and the rings of 4, 8, 16 and 32 blocks of 8 channels. */
  const SIZES: seq<U32> := [0, 128, 32768, 65536, 131072, 262144]

  function Blocks(k: nat): U64 { if k == 2 then 4 else if k == 3 then 8 else if k == 4 then 16 else 32 }

  lemma RingIs(k: nat)
    requires 2 <= k < 6
    ensures ValidChannels(8) && ValidBlocks(Blocks(k)) && RingBytes(8, Blocks(k)) == SIZES[k]
            && Round(SIZES[k]) == SIZES[k]
    ensures Round(INDEX_SIZE) == SIZES[1]
  {
  }

  lemma Classes(j: nat, k: nat)
    requires j < 6 && k < 6
    ensures SIZES[j] == SIZES[k] <==> j == k
  {
  }

  /** The bytes bumped, how many entries of each class the free table has, and the class each port holds (0 for a
      closed one). */
  datatype Books = Books(used: nat, stock: seq<nat>, held: seq<nat>)

  ghost predicate Stocked(vm: Vm, b: Books) {
    && |b.stock| == 6 && vm.bump == VM_BASE + b.used && |vm.free| == FREE_MAX
    && (forall k :: 0 <= k < 6 ==> Count(vm.free, SIZES[k]) == b.stock[k])
    && (forall i :: 0 <= i < FREE_MAX ==> vm.free[i].size == 0 || vm.free[i].addr != 0)
  }

  ghost predicate Holds(p: Port, k: nat) {
    k < 6 && (p.inUse <==> k != 0) && (p.inUse ==> p.bufSize == SIZES[k] && p.portAddr != 0 && p.readIdxAddr != 0)
  }

  ghost predicate Tracks(s: State, b: Books) {
    && Stocked(s.vm, b) && |b.stock| == 6 && |b.held| == PORT_MAX && |s.ports| == PORT_MAX
    && forall i :: 0 <= i < PORT_MAX ==> Holds(s.ports[i], b.held[i])
  }

  /** A block of a class: from the table if there is one, else from the window. */
  function Draw(b: Books, k: nat): (r: Books)
    requires |b.stock| == 6 && 0 < k < 6
    ensures |r.stock| == 6 && r.held == b.held
  {
    if b.stock[k] > 0 then b.(stock := b.stock[k := b.stock[k] - 1][0 := b.stock[0] + 1])
    else b.(used := b.used + SIZES[k])
  }

  predicate CanDraw(b: Books, k: nat)
    requires |b.stock| == 6 && 0 < k < 6
  {
    b.stock[k] > 0 || b.used + SIZES[k] <= VM_SIZE
  }

  /** Back into the table, or dropped when it is full. */
  function Return(b: Books, k: nat): (r: Books)
    requires |b.stock| == 6 && 0 < k < 6
    ensures |r.stock| == 6 && r.held == b.held
  {
    if b.stock[0] > 0 then b.(stock := b.stock[0 := b.stock[0] - 1][k := b.stock[k] + 1]) else b
  }

  lemma Replaced(free: seq<Block>, i: nat, was: nat, now: nat, block: Block, j: nat)
    requires i < |free| && was < 6 && now < 6 && was != now && j < 6
    requires free[i].size == SIZES[was] && block.size == SIZES[now]
    ensures Count(free[i := block], SIZES[j])
         == Count(free, SIZES[j]) - (if j == was then 1 else 0) + (if j == now then 1 else 0)
  {
    CountUpdate(free, i, block, SIZES[j]);
    Classes(was, j);
    Classes(now, j);
  }

  /** audio_vm_alloc by the books. */
  lemma AllocDraws(vm: Vm, b: Books, k: nat, request: U32)
    requires Stocked(vm, b) && 0 < k < 6 && Round(request) == SIZES[k]
    ensures var (v, addr) := Alloc(vm, request, true);
            if CanDraw(b, k) then addr != 0 && Stocked(v, Draw(b, k)) else addr == 0 && Stocked(v, b)
  {
    hide Round;
    var i := FindSize(vm.free, SIZES[k]);
    Classes(0, k);
    if i < |vm.free| {
      forall j | 0 <= j < 6
        ensures Count(vm.free[i := EMPTY], SIZES[j]) == Count(vm.free, SIZES[j]) - (if j == k then 1 else 0)
                + (if j == 0 then 1 else 0)
      {
        Replaced(vm.free, i, k, 0, EMPTY, j);
      }
      assert b.stock[k] == Count(vm.free[i := EMPTY], SIZES[k]) + 1;
    } else {
      CountAbsent(vm.free, SIZES[k]);
    }
  }

  /** audio_vm_free by the books. */
  lemma FreeReturns(vm: Vm, b: Books, k: nat, addr: U32, request: U32)
    requires Stocked(vm, b) && 0 < k < 6 && Round(request) == SIZES[k] && addr != 0
    ensures Stocked(Free(vm, addr, request), Return(b, k))
    ensures b.stock[0] == 0 ==> Free(vm, addr, request) == vm
  {
    hide Round;
    var i := FindSize(vm.free, 0);
    if i < |vm.free| {
      var block := Block(addr, SIZES[k]);
      forall j | 0 <= j < 6
        ensures Count(vm.free[i := block], SIZES[j]) == Count(vm.free, SIZES[j]) - (if j == 0 then 1 else 0)
                + (if j == k then 1 else 0)
      {
        Replaced(vm.free, i, 0, k, block, j);
      }
      assert b.stock[0] == Count(vm.free[i := block], 0) + 1;
    } else {
      CountAbsent(vm.free, 0);
    }
  }

  // ----- one call -----

  function Opening(k: nat): Action { DoOpen(8, Blocks(k), true) }

  /** The first closed port. */
  ghost predicate IsNext(b: Books, i: nat) {
    |b.held| == PORT_MAX && i < PORT_MAX && b.held[i] == 0 && forall j :: 0 <= j < i ==> b.held[j] != 0
  }

  lemma FirstFree(s: State, b: Books, i: nat)
    requires Tracks(s, b) && IsNext(b, i)
    ensures FreeSlot(s.ports) == i
  {
    hide Stocked;
    assert Holds(s.ports[i], b.held[i]);
    assert forall j :: 0 <= j < i ==> Holds(s.ports[j], b.held[j]) && s.ports[j].inUse;
  }

  /** What an open takes. */
  function OpenBooks(b: Books, i: nat, k: nat): Books
    requires |b.stock| == 6 && |b.held| == PORT_MAX && i < PORT_MAX && 2 <= k < 6
  {
    Draw(Draw(b, k), 1).(held := b.held[i := k])
  }

  lemma OpenTracks(s: State, b: Books, i: nat, k: nat)
    requires Tracks(s, b) && IsNext(b, i) && 2 <= k < 6 && CanDraw(b, k) && CanDraw(Draw(b, k), 1)
    ensures Act(s, Opening(k)).0 == Ok && Tracks(Act(s, Opening(k)).1, OpenBooks(b, i, k))
  {
    hide Alloc, Stocked, Draw, CanDraw, Round, RingBytes, FreeSlot, ValidBlocks;
    FirstFree(s, b, i);
    RingIs(k);
    AllocDraws(s.vm, b, k, SIZES[k]);
    AllocDraws(Alloc(s.vm, SIZES[k], true).0, Draw(b, k), 1, INDEX_SIZE);
    SameBooks(Act(s, Opening(k)).1.vm, Draw(Draw(b, k), 1), OpenBooks(b, i, k));
  }

  lemma SameBooks(vm: Vm, b: Books, c: Books)
    requires Stocked(vm, b) && c == b.(held := c.held)
    ensures Stocked(vm, c)
  {
  }

  /** Without a block in the table and room in the window an open fails. */
  lemma OpenFails(s: State, b: Books, i: nat, k: nat)
    requires Tracks(s, b) && IsNext(b, i) && 2 <= k < 6 && !CanDraw(b, k)
    ensures Act(s, Opening(k)).0 == NoMemory && FreeSlot(s.ports) < PORT_MAX
  {
    hide Alloc, Stocked, Draw, CanDraw, Round, RingBytes, FreeSlot, ValidBlocks;
    FirstFree(s, b, i);
    RingIs(k);
    AllocDraws(s.vm, b, k, SIZES[k]);
  }

  function CloseBooks(b: Books, i: nat): Books
    requires |b.stock| == 6 && |b.held| == PORT_MAX && i < PORT_MAX && 0 < b.held[i] < 6
  {
    Return(Return(b, b.held[i]), 1).(held := b.held[i := 0])
  }

  lemma CloseTracks(s: State, b: Books, i: nat)
    requires Tracks(s, b) && i < PORT_MAX && b.held[i] >= 2
    ensures var (status, n) := Act(s, DoClose(i)); status == Ok && Tracks(n, CloseBooks(b, i))
    ensures b.stock[0] == 0 ==> Act(s, DoClose(i)).1.vm == s.vm
  {
    hide Free, Stocked, Return, Round;
    var k, p := b.held[i], s.ports[i];
    assert Holds(p, k);
    RingIs(k);
    FreeReturns(s.vm, b, k, p.portAddr, p.bufSize);
    FreeReturns(Free(s.vm, p.portAddr, p.bufSize), Return(b, k), 1, p.readIdxAddr, INDEX_SIZE);
    FullStays(b, k);
    SameBooks(Act(s, DoClose(i)).1.vm, Return(Return(b, k), 1), CloseBooks(b, i));
  }

  lemma FullStays(b: Books, k: nat)
    requires |b.stock| == 6 && 0 < k < 6
    ensures |Return(b, k).stock| == 6 && (b.stock[0] == 0 ==> Return(b, k) == b)
  {
  }

  // ----- many calls -----

  function Opens(k: nat, m: nat): seq<Action> { seq(m, _ => Opening(k)) }

  function Closes(i: nat, m: nat): seq<Action>
    requires i + m <= PORT_MAX
  {
    seq(m, (j: nat) requires j < m => DoClose(i + j))
  }

  /** How many of m requests the table can serve. */
  function Served(have: nat, m: nat): nat { if have < m then have else m }

  function Bumped(b: Books, k: nat, m: nat): nat
    requires |b.stock| == 6 && 2 <= k < 6
  {
    (m - Served(b.stock[k], m)) * SIZES[k] + (m - Served(b.stock[1], m)) * 128
  }

  /** After m opens of one class, from the first closed port on. */
  function Opened(b: Books, i: nat, k: nat, m: nat): Books
    requires |b.stock| == 6 && |b.held| == PORT_MAX && i + m <= PORT_MAX && 2 <= k < 6
  {
    var rings, indexes := Served(b.stock[k], m), Served(b.stock[1], m);
    Books(b.used + Bumped(b, k, m),
          b.stock[k := b.stock[k] - rings][1 := b.stock[1] - indexes][0 := b.stock[0] + rings + indexes],
          b.held[..i] + seq(m, _ => k) + b.held[i + m..])
  }

  ghost predicate ClosedFrom(b: Books, i: nat, m: nat) {
    && |b.held| == PORT_MAX && i + m <= PORT_MAX && (forall j :: 0 <= j < i ==> b.held[j] != 0)
    && (forall j :: i <= j < i + m ==> b.held[j] == 0)
  }

  lemma ServedStep(have: nat, m: nat)
    requires m > 0
    ensures Served(have, m) == Served(have, m - 1) + (if have >= m then 1 else 0)
  {
  }

  lemma BumpedStep(b: Books, k: nat, m: nat)
    requires |b.stock| == 6 && 2 <= k < 6 && m > 0
    ensures Bumped(b, k, m) == Bumped(b, k, m - 1) + (if b.stock[k] >= m then 0 else SIZES[k])
            + (if b.stock[1] >= m then 0 else 128)
  {
    ServedStep(b.stock[k], m);
    ServedStep(b.stock[1], m);
    Distribute(SIZES[k], m - 1 - Served(b.stock[k], m - 1), 1);
  }

  lemma OpenedStep(b: Books, i: nat, k: nat, m: nat)
    requires |b.stock| == 6 && |b.held| == PORT_MAX && i + m <= PORT_MAX && 2 <= k < 6 && m > 0 && ClosedFrom(b, i, m)
    requires b.used + Bumped(b, k, m) <= VM_SIZE
    ensures var mid := Opened(b, i, k, m - 1);
            IsNext(mid, i + m - 1) && CanDraw(mid, k) && CanDraw(Draw(mid, k), 1)
            && OpenBooks(mid, i + m - 1, k) == Opened(b, i, k, m)
  {
    hide Bumped;
    BumpedStep(b, k, m);
    BumpedStays(b, k, m - 1);
    ServedStep(b.stock[k], m);
    ServedStep(b.stock[1], m);
  }

  lemma BumpedStays(b: Books, k: nat, m: nat)
    requires |b.stock| == 6 && 2 <= k < 6
    ensures Bumped(b, k, m) >= 0
  {
  }

  lemma {:induction false} OpensTrack(s: State, b: Books, i: nat, k: nat, m: nat)
    requires Tracks(s, b) && 2 <= k < 6 && ClosedFrom(b, i, m) && b.used + Bumped(b, k, m) <= VM_SIZE
    ensures Tracks(From(s, Opens(k, m)), Opened(b, i, k, m))
    decreases m
  {
    hide Act, Bumped, Opened, OpenBooks, Draw, CanDraw;
    if m == 0 {
      NoneOpened(b, i, k);
    } else {
      BumpedStep(b, k, m);
      OpensTrack(s, b, i, k, m - 1);
      OpenedStep(b, i, k, m);
      assert Opens(k, m)[..m - 1] == Opens(k, m - 1);
      OpenTracks(From(s, Opens(k, m - 1)), Opened(b, i, k, m - 1), i + m - 1, k);
    }
  }

  lemma NoneOpened(b: Books, i: nat, k: nat)
    requires |b.stock| == 6 && |b.held| == PORT_MAX && i <= PORT_MAX && 2 <= k < 6
    ensures Opened(b, i, k, 0) == b
  {
  }

  /** After m closes of ports of one class, with room in the table for all of it, or for none. */
  function Closed(b: Books, i: nat, k: nat, m: nat): Books
    requires |b.stock| == 6 && |b.held| == PORT_MAX && i + m <= PORT_MAX && 2 <= k < 6
    requires b.stock[0] == 0 || b.stock[0] >= 2 * m
  {
    Books(b.used,
          if b.stock[0] == 0 then b.stock
          else b.stock[0 := b.stock[0] - 2 * m][k := b.stock[k] + m][1 := b.stock[1] + m],
          b.held[..i] + seq(m, _ => 0) + b.held[i + m..])
  }

  lemma ClosedStep(b: Books, i: nat, k: nat, m: nat)
    requires |b.stock| == 6 && |b.held| == PORT_MAX && i + m <= PORT_MAX && 2 <= k < 6 && m > 0
    requires (b.stock[0] == 0 || b.stock[0] >= 2 * m) && b.held[i + m - 1] == k
    ensures var mid := Closed(b, i, k, m - 1);
            mid.held[i + m - 1] == k && CloseBooks(mid, i + m - 1) == Closed(b, i, k, m)
  {
    var mid, end := Closed(b, i, k, m - 1), Closed(b, i, k, m);
    assert mid.held[i + m - 1 := 0] == end.held;
    if b.stock[0] > 0 {
      assert mid.stock[0] >= 2;
      assert Return(Return(mid, k), 1).stock == end.stock;
    }
  }

  lemma NoneClosed(b: Books, i: nat, k: nat)
    requires |b.stock| == 6 && |b.held| == PORT_MAX && i <= PORT_MAX && 2 <= k < 6
    ensures Closed(b, i, k, 0) == b
  {
  }

  lemma {:induction false} ClosesTrack(s: State, b: Books, i: nat, k: nat, m: nat)
    requires Tracks(s, b) && 2 <= k < 6 && i + m <= PORT_MAX && (b.stock[0] == 0 || b.stock[0] >= 2 * m)
    requires forall j :: i <= j < i + m ==> b.held[j] == k
    ensures Tracks(From(s, Closes(i, m)), Closed(b, i, k, m))
    decreases m
  {
    hide Act, Closed, CloseBooks, Stocked, Holds;
    if m == 0 {
      NoneClosed(b, i, k);
    } else {
      ClosesTrack(s, b, i, k, m - 1);
      assert Closes(i, m)[..m - 1] == Closes(i, m - 1);
      ClosedStep(b, i, k, m);
      CloseTracks(From(s, Closes(i, m - 1)), Closed(b, i, k, m - 1), i + m - 1);
    }
  }

  // ----- a session with four sizes -----

  lemma {:induction false} FromAppend(s: State, p: seq<Action>, q: seq<Action>)
    ensures From(s, p + q) == From(From(s, p), q)
    decreases |q|
  {
    hide Act;
    if q == [] {
      assert p + q == p;
    } else {
      var n := |q| - 1;
      assert (p + q)[..|p + q| - 1] == p + q[..n];
      FromAppend(s, p, q[..n]);
    }
  }

  lemma {:induction false} AllEmpty(slots: seq<Block>)
    requires forall i :: 0 <= i < |slots| ==> slots[i] == EMPTY
    ensures Count(slots, 0) == |slots|
  {
    if slots != [] {
      AllEmpty(slots[1..]);
    }
  }

  const FRESH := Books(0, [FREE_MAX, 0, 0, 0, 0, 0], [0, 0, 0, 0, 0, 0, 0, 0])

  lemma EmptyTable(free: seq<Block>)
    requires |free| == FREE_MAX && forall i :: 0 <= i < FREE_MAX ==> free[i] == EMPTY
    ensures Count(free, SIZES[0]) == FREE_MAX
    ensures forall k :: 1 <= k < 6 ==> Count(free, SIZES[k]) == 0
  {
    hide Count;
    AllEmpty(free);
    forall k | 1 <= k < 6
      ensures Count(free, SIZES[k]) == 0
    {
      Classes(0, k);
      CountAbsent(free, SIZES[k]);
    }
  }

  lemma FreshBooks()
    ensures Tracks(Initial(), FRESH)
  {
    hide Count;
    EmptyTable(Initial().vm.free);
  }

  /** Eight ports of one class, opened and closed again. */
  function Round8(k: nat): seq<Action> { Opens(k, 8) + Closes(0, 8) }

  lemma Round8Tracks(s: State, b: Books, k: nat, end: Books)
    requires Tracks(s, b) && |b.stock| == 6 && 2 <= k < 6 && ClosedFrom(b, 0, 8) && b.stock[k] == 0
             && (b.stock[1] == 0 || b.stock[1] == 8)
    requires b.used + 8 * SIZES[k] + (8 - b.stock[1]) * 128 <= VM_SIZE && b.stock[0] + b.stock[1] >= 16
    requires end == Books(b.used + 8 * SIZES[k] + (8 - b.stock[1]) * 128,
                          b.stock[k := 8][1 := 8][0 := b.stock[0] + b.stock[1] - 16], [0, 0, 0, 0, 0, 0, 0, 0])
    ensures Tracks(From(s, Round8(k)), end)
  {
    hide Tracks, From, Act;
    OpensTrack(s, b, 0, k, 8);
    var mid := Opened(b, 0, k, 8);
    ClosesTrack(From(s, Opens(k, 8)), mid, 0, k, 8);
    FromAppend(s, Opens(k, 8), Closes(0, 8));
    assert Closed(mid, 0, k, 8) == end;
  }

  /** Rings of 16 and of 8 blocks for all eight ports, one size after the other. */
  function Filling(): seq<Action> { Round8(4) + Round8(3) }

  /** Rings of 32 blocks in all ports, four of which are closed for rings of 4 blocks; when those and two of the others
      are closed too, the free table is full. */
  function Topping(): seq<Action> { Opens(5, 8) + Closes(0, 4) + Opens(2, 4) + Closes(0, 4) + Closes(4, 2) }

  const FILLED := Books(1573888, [8, 8, 0, 8, 8, 0], [0, 0, 0, 0, 0, 0, 0, 0])

  lemma FillingTracks(s: State)
    requires Tracks(s, FRESH)
    ensures Tracks(From(s, Filling()), FILLED)
  {
    hide Tracks, From, Act;
    var mid := Books(1049600, [16, 8, 0, 0, 8, 0], [0, 0, 0, 0, 0, 0, 0, 0]);
    Round8Tracks(s, FRESH, 4, mid);
    Round8Tracks(From(s, Round8(4)), mid, 3, FILLED);
    FromAppend(s, Round8(4), Round8(3));
  }

  const FULL := Books(3802112, [0, 6, 4, 8, 8, 6], [0, 0, 0, 0, 0, 0, 5, 5])

  lemma LargeOnes(s: State)
    requires Tracks(s, FILLED)
    ensures Tracks(From(s, Opens(5, 8) + Closes(0, 4)), Books(3671040, [8, 4, 0, 8, 8, 4], [0, 0, 0, 0, 5, 5, 5, 5]))
  {
    hide Tracks, From, Act;
    OpensTrack(s, FILLED, 0, 5, 8);
    var b := Opened(FILLED, 0, 5, 8);
    assert b.held == [5, 5, 5, 5, 5, 5, 5, 5];
    assert b == Books(3671040, [16, 0, 0, 8, 8, 0], [5, 5, 5, 5, 5, 5, 5, 5]);
    ClosesTrack(From(s, Opens(5, 8)), b, 0, 5, 4);
    FromAppend(s, Opens(5, 8), Closes(0, 4));
    assert Closed(b, 0, 5, 4).held == [0, 0, 0, 0, 5, 5, 5, 5] && Closed(b, 0, 5, 4).stock == [8, 4, 0, 8, 8, 4];
  }

  lemma SmallOnes(s: State)
    requires Tracks(s, Books(3671040, [8, 4, 0, 8, 8, 4], [0, 0, 0, 0, 5, 5, 5, 5]))
    ensures Tracks(From(s, Opens(2, 4) + Closes(0, 4)), Books(3802112, [4, 4, 4, 8, 8, 4], [0, 0, 0, 0, 5, 5, 5, 5]))
  {
    hide Tracks, From, Act;
    var a := Books(3671040, [8, 4, 0, 8, 8, 4], [0, 0, 0, 0, 5, 5, 5, 5]);
    OpensTrack(s, a, 0, 2, 4);
    var b := Opened(a, 0, 2, 4);
    assert b.held == [2, 2, 2, 2, 5, 5, 5, 5];
    assert b == Books(3802112, [12, 0, 0, 8, 8, 4], [2, 2, 2, 2, 5, 5, 5, 5]);
    ClosesTrack(From(s, Opens(2, 4)), b, 0, 2, 4);
    FromAppend(s, Opens(2, 4), Closes(0, 4));
    assert Closed(b, 0, 2, 4).held == [0, 0, 0, 0, 5, 5, 5, 5] && Closed(b, 0, 2, 4).stock == [4, 4, 4, 8, 8, 4];
  }

  lemma ToppingTracks(s: State)
    requires Tracks(s, FILLED)
    ensures Tracks(From(s, Topping()), FULL)
  {
    hide Tracks, From, Act, Opens, Closes;
    LargeOnes(s);
    var p, q := Opens(5, 8) + Closes(0, 4), Opens(2, 4) + Closes(0, 4);
    SmallOnes(From(s, p));
    FromAppend(s, p, q);
    var b := Books(3802112, [4, 4, 4, 8, 8, 4], [0, 0, 0, 0, 5, 5, 5, 5]);
    ClosesTrack(From(s, p + q), b, 4, 5, 2);
    FromAppend(s, p + q, Closes(4, 2));
    assert Closed(b, 4, 5, 2).held == FULL.held && Closed(b, 4, 5, 2).stock == FULL.stock;
    assert Topping() == p + q + Closes(4, 2);
  }

  const DRAINED := Books(4064384, [12, 0, 4, 8, 8, 0], [5, 5, 5, 5, 5, 5, 5, 0])

  lemma DropsTwo(s: State)
    requires Tracks(s, FULL)
    ensures Tracks(From(s, Closes(6, 2) + Opens(5, 7)), DRAINED)
  {
    hide Tracks, From, Act;
    ClosesTrack(s, FULL, 6, 5, 2);
    var b := Closed(FULL, 6, 5, 2);
    assert b.held == [0, 0, 0, 0, 0, 0, 0, 0];
    OpensTrack(From(s, Closes(6, 2)), b, 0, 5, 7);
    FromAppend(s, Closes(6, 2), Opens(5, 7));
    assert Opened(b, 0, 5, 7).held == DRAINED.held && Opened(b, 0, 5, 7).stock == DRAINED.stock;
  }

  /** Windows always commit, and rings have one of four sizes. */
  predicate FourSizes(a: Action) {
    a.DoOpen? ==> a.commitOk && a.nChannel == 8 && a.nBlock in {4, 8, 16, 32}
  }

  function Session(): seq<Action> { Filling() + Topping() }

  function Ending(): seq<Action> { Closes(6, 2) + Opens(5, 7) }

  lemma OpensAreSized(k: nat, m: nat)
    requires 2 <= k < 6
    ensures forall i :: 0 <= i < m ==> FourSizes(Opens(k, m)[i])
  {
  }

  lemma SessionIsSized()
    ensures forall a :: a in Session() + Ending() ==> FourSizes(a)
  {
    OpensAreSized(4, 8);
    OpensAreSized(3, 8);
    OpensAreSized(5, 8);
    OpensAreSized(2, 4);
    OpensAreSized(5, 7);
  }

  lemma SessionIs()
    ensures Session() == Filling() + Topping() && Ending() == Closes(6, 2) + Opens(5, 7)
  {
  }

  lemma SessionTracks()
    ensures Tracks(After(Session()), FULL) && Tracks(After(Session() + Ending()), DRAINED)
  {
    hide Act, From, Session, Ending, Tracks, Filling, Topping, Opens, Closes, Initial;
    SessionIs();
    FreshBooks();
    FillingTracks(Initial());
    ToppingTracks(From(Initial(), Filling()));
    FromAppend(Initial(), Filling(), Topping());
    DropsTwo(After(Session()));
    FromAppend(Initial(), Session(), Ending());
  }

  /** A session with four ring sizes: a close that gives neither of its blocks back, and, after one more close and seven
      opens, an open that fails for memory with a port slot free. */
  lemma FourSizesRunOut()
    ensures forall a :: a in Session() + Ending() ==> FourSizes(a)
    ensures var s := After(Session());
            var (status, n) := Act(s, DoClose(6));
            status == Ok && n.vm == s.vm && |s.ports| == PORT_MAX && s.ports[6].portAddr != 0
              && s.ports[6].readIdxAddr != 0
    ensures var s := After(Session() + Ending());
            FreeSlot(s.ports) < PORT_MAX && Act(s, DoOpen(8, 32, true)).0 == NoMemory
  {
    hide Act, From, After, Session, Ending, Stocked, FourSizes;
    SessionIsSized();
    SessionTracks();
    CloseTracks(After(Session()), FULL, 6);
    assert Holds(After(Session()).ports[6], FULL.held[6]);
    OpenFails(After(Session() + Ending()), DRAINED, 7, 5);
  }
}
