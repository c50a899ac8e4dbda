/** The 4 MB audio window over whole sessions: blocks never overlap, and with at most three ring sizes
    in use it never runs out (`audio_vm_alloc`, `audio_vm_free`, `cellAudioPortOpen`,
    `cellAudioPortClose`). */
module AudioCapacity {
  import opened Basics
  import opened AudioServer

  // ----- every block of the window, in one table -----

  /** The ring and the read-index block of an open port. */
  function RingOf(p: Port): Block { if p.inUse then Block(p.portAddr, Round(p.bufSize)) else EMPTY }

  function IndexOf(p: Port): Block { if p.inUse then Block(p.readIdxAddr, 128) else EMPTY }

  function Rings(ports: seq<Port>): seq<Block> { seq(|ports|, i requires 0 <= i < |ports| => RingOf(ports[i])) }

  function Indexes(ports: seq<Port>): seq<Block> { seq(|ports|, i requires 0 <= i < |ports| => IndexOf(ports[i])) }

  /** The blocks of the open ports: rings, then read indexes. */
  function Live(ports: seq<Port>): seq<Block> { Rings(ports) + Indexes(ports) }

  /** Every block of the window that is not lost: the free table, then the open ports. */
  function Table(vm: Vm, live: seq<Block>): seq<Block> { vm.free + live }

  predicate Apart(a: Block, b: Block) {
    a.size == 0 || b.size == 0 || a.addr + a.size <= b.addr || b.addr + b.size <= a.addr
  }

  predicate InWindow(b: Block, bump: int) {
    b.size != 0 ==> VM_BASE <= b.addr && b.addr + b.size <= bump && b.addr % 128 == 0 && b.size % 128 == 0
  }

  ghost predicate Disjoint(slots: seq<Block>) {
    forall i, j :: 0 <= i < j < |slots| ==> Apart(slots[i], slots[j])
  }

  ghost predicate AllInWindow(slots: seq<Block>, bump: int) {
    forall i :: 0 <= i < |slots| ==> InWindow(slots[i], bump)
  }

  predicate PortOk(p: Port) {
    p.inUse ==> p.portAddr != 0 && p.readIdxAddr != 0 && ValidChannels(p.nChannel) && ValidBlocks(p.nBlock)
                && p.bufSize == RingBytes(p.nChannel, p.nBlock)
  }

  ghost predicate SoundVm(vm: Vm, live: seq<Block>) {
    && |vm.free| == FREE_MAX
    && VM_BASE <= vm.bump <= VM_BASE + VM_SIZE && vm.bump % 128 == 0
    && Disjoint(Table(vm, live)) && AllInWindow(Table(vm, live), vm.bump)
  }

  /** What holds in every run, whatever sizes it uses. */
  ghost predicate Sound(s: State) {
    && Shape(s) && SoundVm(s.vm, Live(s.ports))
    && forall i :: 0 <= i < |s.ports| ==> PortOk(s.ports[i])
  }

  // ----- counting and summing a table -----

  function Count(slots: seq<Block>, size: U32): nat {
    if slots == [] then 0 else (if slots[0].size == size then 1 else 0) + Count(slots[1..], size)
  }

  function Total(slots: seq<Block>): nat {
    if slots == [] then 0 else slots[0].size + Total(slots[1..])
  }

  function Is(b: Block, size: U32): int { if b.size == size then 1 else 0 }

  lemma {:induction false} CountUpdate(slots: seq<Block>, i: nat, b: Block, size: U32)
    requires i < |slots|
    ensures Count(slots[i := b], size) == Count(slots, size) - Is(slots[i], size) + Is(b, size)
  {
    if i > 0 {
      assert slots[i := b][1..] == slots[1..][i - 1 := b];
      CountUpdate(slots[1..], i - 1, b, size);
    } else {
      assert slots[i := b][1..] == slots[1..];
    }
  }

  lemma {:induction false} TotalUpdate(slots: seq<Block>, i: nat, b: Block)
    requires i < |slots|
    ensures Total(slots[i := b]) == Total(slots) - slots[i].size + b.size
  {
    if i > 0 {
      assert slots[i := b][1..] == slots[1..][i - 1 := b];
      TotalUpdate(slots[1..], i - 1, b);
    } else {
      assert slots[i := b][1..] == slots[1..];
    }
  }

  lemma {:induction false} CountAppend(a: seq<Block>, b: seq<Block>, size: U32)
    ensures Count(a + b, size) == Count(a, size) + Count(b, size)
  {
    if a == [] {
      assert a + b == b;
    } else {
      assert (a + b)[1..] == a[1..] + b;
      CountAppend(a[1..], b, size);
    }
  }

  lemma {:induction false} CountAtMost(slots: seq<Block>, size: U32)
    ensures Count(slots, size) <= |slots|
  {
    if slots != [] {
      CountAtMost(slots[1..], size);
    }
  }

  /** An entry of another size leaves room in the count. */
  lemma {:induction false} CountBelow(slots: seq<Block>, size: U32, i: nat)
    requires i < |slots| && slots[i].size != size
    ensures Count(slots, size) < |slots|
  {
    if i > 0 {
      CountBelow(slots[1..], size, i - 1);
    } else {
      CountAtMost(slots[1..], size);
    }
  }

  lemma {:induction false} CountAbsent(slots: seq<Block>, size: U32)
    requires forall i :: 0 <= i < |slots| ==> slots[i].size != size
    ensures Count(slots, size) == 0
  {
    if slots != [] {
      CountAbsent(slots[1..], size);
    }
  }

  // ----- the three ring sizes of a session -----

  /** Three distinct ring sizes: the sizes a session uses are among them. */
  datatype Sizes = Sizes(a: U32, b: U32, c: U32)

  predicate IsRingSize(z: int) {
    z == 4096 || z == 8192 || z == 16384 || z == 32768 || z == 65536 || z == 131072 || z == 262144
  }

  predicate GoodSizes(z: Sizes) {
    IsRingSize(z.a) && IsRingSize(z.b) && IsRingSize(z.c) && z.a != z.b && z.a != z.c && z.b != z.c
  }

  predicate Among(size: int, z: Sizes) { size == z.a || size == z.b || size == z.c }

  ghost predicate SizesOk(slots: seq<Block>, z: Sizes) {
    forall i :: 0 <= i < |slots| ==> slots[i].size == 0 || slots[i].size == 128 || Among(slots[i].size, z)
  }

  lemma OneBlock(b: Block, z: Sizes)
    requires GoodSizes(z) && (b.size == 0 || b.size == 128 || Among(b.size, z))
    ensures b.size == z.a * Is(b, z.a) + z.b * Is(b, z.b) + z.c * Is(b, z.c) + 128 * Is(b, 128)
    ensures Is(b, 0) == 1 - Is(b, z.a) - Is(b, z.b) - Is(b, z.c) - Is(b, 128)
  {
    hide IsRingSize;
    RingSizeIsLarge(z.a);
    RingSizeIsLarge(z.b);
    RingSizeIsLarge(z.c);
    TimesIs(b, z.a);
    TimesIs(b, z.b);
    TimesIs(b, z.c);
  }

  lemma RingSizeIsLarge(size: int)
    requires IsRingSize(size)
    ensures size >= 4096
  {
  }

  lemma TimesIs(b: Block, size: U32)
    ensures size * Is(b, size) == if b.size == size then size else 0
  {
  }

  lemma CountCons(slots: seq<Block>, size: U32)
    requires slots != []
    ensures Count(slots, size) == Is(slots[0], size) + Count(slots[1..], size)
    ensures Total(slots) == slots[0].size + Total(slots[1..])
  {
  }

  lemma CountNothing(size: U32)
    ensures Count([], size) == 0 && Total([]) == 0
    ensures size * Count([], size) == 0
  {
  }

  /** The bytes in a table, and its empty entries, from the counts of the sizes in use. */
  lemma {:induction false} TotalBySize(slots: seq<Block>, z: Sizes)
    requires GoodSizes(z) && SizesOk(slots, z)
    ensures Total(slots) == z.a * Count(slots, z.a) + z.b * Count(slots, z.b) + z.c * Count(slots, z.c)
            + 128 * Count(slots, 128)
    ensures Count(slots, 0) == |slots| - Count(slots, z.a) - Count(slots, z.b) - Count(slots, z.c) - Count(slots, 128)
  {
    hide GoodSizes, Among, Is, IsRingSize, Count, Total;
    if slots == [] {
      CountNothing(z.a);
      CountNothing(z.b);
      CountNothing(z.c);
      CountNothing(128);
      CountNothing(0);
    } else {
      var rest := slots[1..];
      TotalBySize(rest, z);
      var b := slots[0];
      OneBlock(b, z);
      CountCons(slots, z.a);
      CountCons(slots, z.b);
      CountCons(slots, z.c);
      CountCons(slots, 128);
      CountCons(slots, 0);
      Distribute(z.a, Is(b, z.a), Count(rest, z.a));
      Distribute(z.b, Is(b, z.b), Count(rest, z.b));
      Distribute(z.c, Is(b, z.c), Count(rest, z.c));
    }
  }

  /** Three distinct ring sizes are at most the three largest. */
  lemma SizesSum(z: Sizes)
    requires GoodSizes(z)
    ensures z.a + z.b + z.c <= 262144 + 131072 + 65536
  {
  }

  ghost predicate BoundedVm(vm: Vm, live: seq<Block>, z: Sizes) {
    var t := Table(vm, live);
    && SizesOk(t, z)
    && Total(t) == vm.bump - VM_BASE
    && Count(t, z.a) <= 8 && Count(t, z.b) <= 8 && Count(t, z.c) <= 8 && Count(t, 128) <= 8
  }

  /** What a session with at most three ring sizes keeps: nothing leaks, and at most eight blocks of
      each size were ever taken from the window. */
  ghost predicate Bounded(s: State, z: Sizes) {
    Sound(s) && BoundedVm(s.vm, Live(s.ports), z)
  }

  // ----- taking a block into an empty place of the live table -----

  /** Moving an entry to an empty place keeps the table disjoint and in the window. */
  lemma MoveKeepsSound(t: seq<Block>, i: nat, j: nat, bump: int)
    requires i < |t| && j < |t| && i != j && t[j].size == 0
    requires Disjoint(t) && AllInWindow(t, bump)
    ensures Disjoint(t[i := EMPTY][j := t[i]]) && AllInWindow(t[i := EMPTY][j := t[i]], bump)
  {
    var n := t[i := EMPTY][j := t[i]];
    forall x, y | 0 <= x < y < |n| ensures Apart(n[x], n[y]) {
      var px := if x == j then i else x;
      var py := if y == j then i else y;
      if px < py {
        assert Apart(t[px], t[py]);
      } else if py < px {
        assert Apart(t[py], t[px]);
      }
    }
    forall x | 0 <= x < |n| ensures InWindow(n[x], bump) {
      assert InWindow(t[x], bump) && InWindow(t[i], bump);
    }
  }

  lemma DropKeepsSound(t: seq<Block>, i: nat, bump: int)
    requires i < |t| && Disjoint(t) && AllInWindow(t, bump)
    ensures Disjoint(t[i := EMPTY]) && AllInWindow(t[i := EMPTY], bump)
  {
    var n := t[i := EMPTY];
    forall x, y | 0 <= x < y < |n| ensures Apart(n[x], n[y]) {
      assert Apart(t[x], t[y]);
    }
  }

  /** A block at the bump cursor is apart from everything below it. */
  lemma BumpKeepsSound(t: seq<Block>, j: nat, bump: U32, size: U32)
    requires j < |t| && t[j].size == 0 && Disjoint(t) && AllInWindow(t, bump)
    requires VM_BASE <= bump && bump % 128 == 0 && size % 128 == 0
    ensures Disjoint(t[j := Block(bump, size)]) && AllInWindow(t[j := Block(bump, size)], bump + size)
  {
    var n := t[j := Block(bump, size)];
    forall x, y | 0 <= x < y < |n| ensures Apart(n[x], n[y]) {
      assert Apart(t[x], t[y]) && InWindow(t[x], bump) && InWindow(t[y], bump);
    }
    forall x | 0 <= x < |n| ensures InWindow(n[x], bump + size) {
      assert InWindow(t[x], bump);
    }
  }

  /** The table after an allocation into place k. */
  function Taken(live: seq<Block>, k: nat, addr: U32, size: U32): seq<Block>
    requires k < |live|
  {
    if addr == 0 then live else live[k := Block(addr, size)]
  }

  lemma TakeKeepsSound(vm: Vm, live: seq<Block>, k: nat, request: U32, commitOk: bool)
    requires SoundVm(vm, live) && k < |live| && live[k].size == 0 && Round(request) > 0
    ensures var (v, addr) := Alloc(vm, request, commitOk);
            SoundVm(v, Taken(live, k, addr, Round(request)))
  {
    var (v, addr) := Alloc(vm, request, commitOk);
    var size := Round(request);
    var t := Table(vm, live);
    var i := FindSize(vm.free, size);
    assert t[FREE_MAX + k] == live[k];
    if !vm.ready && !commitOk {
    } else if i < FREE_MAX {
      assert t[i] == vm.free[i];
      assert InWindow(t[i], vm.bump);
      MoveKeepsSound(t, i, FREE_MAX + k, vm.bump);
      assert Table(v, live[k := Block(addr, size)]) == t[i := EMPTY][FREE_MAX + k := t[i]];
    } else if vm.bump + size <= VM_BASE + VM_SIZE {
      BumpKeepsSound(t, FREE_MAX + k, vm.bump, size);
      assert Table(v, live[k := Block(addr, size)]) == t[FREE_MAX + k := Block(vm.bump, size)];
    }
  }

  lemma PutKeepsSound(vm: Vm, live: seq<Block>, k: nat, request: U32)
    requires SoundVm(vm, live) && k < |live| && live[k].size == Round(request) > 0
    ensures SoundVm(Free(vm, live[k].addr, request), live[k := EMPTY])
  {
    var t := Table(vm, live);
    var i := FindSize(vm.free, 0);
    assert t[FREE_MAX + k] == live[k];
    assert InWindow(t[FREE_MAX + k], vm.bump);
    var v := Free(vm, live[k].addr, request);
    if i < FREE_MAX {
      assert t[i] == vm.free[i];
      MoveKeepsSound(t, FREE_MAX + k, i, vm.bump);
      assert Table(v, live[k := EMPTY]) == t[FREE_MAX + k := EMPTY][i := t[FREE_MAX + k]];
    } else {
      DropKeepsSound(t, FREE_MAX + k, vm.bump);
      assert Table(v, live[k := EMPTY]) == t[FREE_MAX + k := EMPTY];
    }
  }

  // ----- the same with the bound: the allocation succeeds, the free table has room -----

  ghost predicate CountsOk(t: seq<Block>, z: Sizes) {
    Count(t, z.a) <= 8 && Count(t, z.b) <= 8 && Count(t, z.c) <= 8 && Count(t, 128) <= 8
  }

  lemma MoveKeepsCounts(t: seq<Block>, i: nat, j: nat, size: U32)
    requires i < |t| && j < |t| && i != j && t[j].size == 0 && size > 0
    ensures var n := t[i := EMPTY][j := t[i]];
            Count(n, size) == Count(t, size) && Total(n) == Total(t)
  {
    CountUpdate(t, i, EMPTY, size);
    CountUpdate(t[i := EMPTY], j, t[i], size);
    TotalUpdate(t, i, EMPTY);
    TotalUpdate(t[i := EMPTY], j, t[i]);
  }

  lemma MoveKeepsSizes(t: seq<Block>, i: nat, j: nat, z: Sizes)
    requires i < |t| && j < |t| && i != j && t[j].size == 0 && SizesOk(t, z)
    ensures SizesOk(t[i := EMPTY][j := t[i]], z)
  {
  }

  /** Eight blocks of each of four sizes fit the window. */
  lemma FitsTheWindow(t: seq<Block>, z: Sizes)
    requires GoodSizes(z) && SizesOk(t, z) && CountsOk(t, z)
    ensures Total(t) <= VM_SIZE
    ensures Count(t, 0) >= |t| - 32
  {
    hide GoodSizes;
    TotalBySize(t, z);
    SizesSum(z);
    AtMostEight(z.a, Count(t, z.a));
    AtMostEight(z.b, Count(t, z.b));
    AtMostEight(z.c, Count(t, z.c));
  }

  lemma AtMostEight(size: nat, n: nat)
    requires n <= 8
    ensures size * n <= size * 8
  {
  }

  lemma TakeSucceeds(vm: Vm, live: seq<Block>, k: nat, request: U32, z: Sizes)
    requires GoodSizes(z) && SoundVm(vm, live) && BoundedVm(vm, live, z)
    requires k < |live| && live[k].size == 0
    requires Round(request) == 128 || Among(Round(request), z)
    requires Count(live, Round(request)) < 8
    ensures var (v, addr) := Alloc(vm, request, true);
            addr != 0 && BoundedVm(v, Taken(live, k, addr, Round(request)), z)
  {
    hide Count, Total, SizesOk, Disjoint, AllInWindow, GoodSizes, Among, Round;
    var (v, addr) := Alloc(vm, request, true);
    var size := Round(request);
    SizePositive(size, z);
    var t := Table(vm, live);
    var i := FindSize(vm.free, size);
    assert t[FREE_MAX + k] == live[k];
    if i < FREE_MAX {
      ReuseKeepsBound(vm, live, k, i, z);
      assert Table(v, live[k := Block(addr, size)]) == t[i := EMPTY][FREE_MAX + k := t[i]];
    } else {
      BumpKeepsBound(vm, live, k, size, z);
      assert Table(v, live[k := Block(addr, size)]) == t[FREE_MAX + k := Block(vm.bump, size)];
    }
  }

  lemma SizePositive(size: U32, z: Sizes)
    requires GoodSizes(z) && (size == 128 || Among(size, z))
    ensures 128 <= size <= 262144
  {
  }

  lemma ReuseKeepsBound(vm: Vm, live: seq<Block>, k: nat, i: nat, z: Sizes)
    requires GoodSizes(z) && SoundVm(vm, live) && BoundedVm(vm, live, z)
    requires k < |live| && live[k].size == 0 && i < FREE_MAX && vm.free[i].size > 0
    ensures var n := Table(vm, live)[i := EMPTY][FREE_MAX + k := vm.free[i]];
            vm.free[i].addr != 0 && SizesOk(n, z) && Total(n) == Total(Table(vm, live)) && CountsOk(n, z)
  {
    hide GoodSizes, Disjoint;
    SizePositiveAll(z);
    var t := Table(vm, live);
    assert t[i] == vm.free[i] && t[FREE_MAX + k] == live[k] && InWindow(t[i], vm.bump);
    MoveKeepsSizes(t, i, FREE_MAX + k, z);
    MoveKeepsCounts(t, i, FREE_MAX + k, z.a);
    MoveKeepsCounts(t, i, FREE_MAX + k, z.b);
    MoveKeepsCounts(t, i, FREE_MAX + k, z.c);
    MoveKeepsCounts(t, i, FREE_MAX + k, 128);
  }

  lemma SizePositiveAll(z: Sizes)
    requires GoodSizes(z)
    ensures z.a > 0 && z.b > 0 && z.c > 0 && z.a != 128 && z.b != 128 && z.c != 128
  {
  }

  lemma BumpKeepsBound(vm: Vm, live: seq<Block>, k: nat, size: U32, z: Sizes)
    requires GoodSizes(z) && SoundVm(vm, live) && BoundedVm(vm, live, z)
    requires k < |live| && live[k].size == 0 && (size == 128 || Among(size, z))
    requires FindSize(vm.free, size) == FREE_MAX && Count(live, size) < 8
    ensures var n := Table(vm, live)[FREE_MAX + k := Block(vm.bump, size)];
            SizesOk(n, z) && CountsOk(n, z) && Total(n) == Total(Table(vm, live)) + size
              && vm.bump + size <= VM_BASE + VM_SIZE
  {
    hide Disjoint, AllInWindow;
    var t := Table(vm, live);
    var b := Block(vm.bump, size);
    var n := t[FREE_MAX + k := b];
    SizePositive(size, z);
    SizePositiveAll(z);
    hide GoodSizes;
    CountAbsent(vm.free, size);
    CountAppend(vm.free, live, size);
    assert t[FREE_MAX + k] == live[k];
    CountUpdate(t, FREE_MAX + k, b, z.a);
    CountUpdate(t, FREE_MAX + k, b, z.b);
    CountUpdate(t, FREE_MAX + k, b, z.c);
    CountUpdate(t, FREE_MAX + k, b, 128);
    TotalUpdate(t, FREE_MAX + k, b);
    FitsTheWindow(n, z);
  }

  lemma FreedTable(vm: Vm, live: seq<Block>, k: nat, request: U32)
    requires |vm.free| == FREE_MAX && FindSize(vm.free, 0) < FREE_MAX && k < |live|
    requires live[k].addr != 0 && live[k].size == Round(request)
    ensures var t, i := Table(vm, live), FindSize(vm.free, 0);
            Table(Free(vm, live[k].addr, request), live[k := EMPTY]) == t[FREE_MAX + k := EMPTY][i := t[FREE_MAX + k]]
  {
    hide FindSize, Round;
  }

  lemma PutKeepsBound(vm: Vm, live: seq<Block>, k: nat, request: U32, z: Sizes)
    requires GoodSizes(z) && SoundVm(vm, live) && BoundedVm(vm, live, z) && |live| == 16
    requires k < |live| && live[k].size == Round(request) > 0
    ensures BoundedVm(Free(vm, live[k].addr, request), live[k := EMPTY], z)
    ensures FindSize(vm.free, 0) < FREE_MAX
  {
    hide Disjoint, GoodSizes;
    var t := Table(vm, live);
    SizePositiveAll(z);
    FitsTheWindow(t, z);
    CountAppend(vm.free, live, 0);
    CountBelow(live, 0, k);
    if FindSize(vm.free, 0) == FREE_MAX {
      CountAbsent(vm.free, 0);
    }
    var i := FindSize(vm.free, 0);
    assert t[FREE_MAX + k] == live[k] && t[i] == vm.free[i] && InWindow(t[FREE_MAX + k], vm.bump);
    MoveKeepsSizes(t, FREE_MAX + k, i, z);
    MoveKeepsCounts(t, FREE_MAX + k, i, z.a);
    MoveKeepsCounts(t, FREE_MAX + k, i, z.b);
    MoveKeepsCounts(t, FREE_MAX + k, i, z.c);
    MoveKeepsCounts(t, FREE_MAX + k, i, 128);
    FreedTable(vm, live, k, request);
  }

  // ----- opening and closing ports -----

  lemma LiveAfter(ports: seq<Port>, found: nat, p: Port)
    requires |ports| == PORT_MAX && found < PORT_MAX
    ensures Live(ports[found := p]) == Live(ports)[found := RingOf(p)][PORT_MAX + found := IndexOf(p)]
    ensures Live(ports)[found] == RingOf(ports[found]) && Live(ports)[PORT_MAX + found] == IndexOf(ports[found])
    ensures |Live(ports)| == 2 * PORT_MAX
  {
  }

  lemma RoundedSizes(nChannel: U64, nBlock: U64)
    requires ValidChannels(nChannel) && ValidBlocks(nBlock)
    ensures Round(RingBytes(nChannel, nBlock)) == RingBytes(nChannel, nBlock)
    ensures Round(INDEX_SIZE) == 128
    ensures IsRingSize(RingBytes(nChannel, nBlock))
  {
  }

  /** The allocator calls of one open, on a free slot. */
  lemma TakeTwo(vm: Vm, live: seq<Block>, found: nat, bytes: U32, commitOk: bool)
    requires SoundVm(vm, live) && |live| == 2 * PORT_MAX && found < PORT_MAX
    requires live[found].size == 0 && live[PORT_MAX + found].size == 0 && Round(bytes) == bytes > 0
    ensures var (v1, ring) := Alloc(vm, bytes, commitOk);
            var (v2, index) := Alloc(v1, INDEX_SIZE, commitOk);
            SoundVm(v2, Taken(Taken(live, found, ring, bytes), PORT_MAX + found, index, 128))
            && SoundVm(v2, live[found := EMPTY][PORT_MAX + found := EMPTY])
  {
    hide SoundVm, Alloc;
    var (v1, ring) := Alloc(vm, bytes, commitOk);
    var (v2, index) := Alloc(v1, INDEX_SIZE, commitOk);
    TakeKeepsSound(vm, live, found, bytes, commitOk);
    var l1 := Taken(live, found, ring, bytes);
    TakeKeepsSound(v1, l1, PORT_MAX + found, INDEX_SIZE, commitOk);
    var l2 := Taken(l1, PORT_MAX + found, index, 128);
    ForgetTwo(v2, l2, found);
    assert l2[found := EMPTY][PORT_MAX + found := EMPTY] == live[found := EMPTY][PORT_MAX + found := EMPTY];
  }

  lemma ForgetTwo(vm: Vm, live: seq<Block>, found: nat)
    requires SoundVm(vm, live) && |live| == 2 * PORT_MAX && found < PORT_MAX
    ensures SoundVm(vm, live[found := EMPTY][PORT_MAX + found := EMPTY])
  {
    var t := Table(vm, live);
    DropKeepsSound(t, FREE_MAX + found, vm.bump);
    DropKeepsSound(t[FREE_MAX + found := EMPTY], FREE_MAX + PORT_MAX + found, vm.bump);
    assert Table(vm, live[found := EMPTY][PORT_MAX + found := EMPTY])
        == t[FREE_MAX + found := EMPTY][FREE_MAX + PORT_MAX + found := EMPTY];
  }

  /** Opening keeps every block apart, in the window and aligned, also when it fails. */
  lemma OpenKeepsSound(s: State, nChannel: U64, nBlock: U64, commitOk: bool)
    requires Sound(s)
    ensures Sound(Open(s, nChannel, nBlock, commitOk).1)
  {
    var found := FreeSlot(s.ports);
    if ValidChannels(nChannel) && ValidBlocks(nBlock) && found < PORT_MAX {
      hide SoundVm, Alloc, Round, RingBytes, ValidBlocks, ValidChannels;
      RoundedSizes(nChannel, nBlock);
      var bytes := RingBytes(nChannel, nBlock);
      var live := Live(s.ports);
      LiveAfter(s.ports, found, s.ports[found]);
      TakeTwo(s.vm, live, found, bytes, commitOk);
      var n := Open(s, nChannel, nBlock, commitOk).1;
      LiveAfter(s.ports, found, n.ports[found]);
      var (v1, ring) := Alloc(s.vm, bytes, commitOk);
      var (v2, index) := Alloc(v1, INDEX_SIZE, commitOk);
      assert n.vm == v2;
      if ring != 0 && index != 0 {
        assert Live(n.ports) == Taken(Taken(live, found, ring, bytes), PORT_MAX + found, index, 128);
      } else {
        assert Live(n.ports) == live[found := EMPTY][PORT_MAX + found := EMPTY];
      }
      assert SoundVm(n.vm, Live(n.ports));
    }
  }

  lemma CloseKeepsSound(s: State, portNum: U32)
    requires Sound(s)
    ensures Sound(Close(s, portNum).1)
  {
    if portNum < PORT_MAX && s.ports[portNum].inUse {
      hide SoundVm, Free, Round, RingBytes;
      var p, live := s.ports[portNum], Live(s.ports);
      var n := Close(s, portNum).1;
      assert PortOk(p);
      RoundedSizes(p.nChannel, p.nBlock);
      LiveAfter(s.ports, portNum, n.ports[portNum]);
      PutKeepsSound(s.vm, live, portNum, p.bufSize);
      var v1, l1 := Free(s.vm, p.portAddr, p.bufSize), live[portNum := EMPTY];
      PutKeepsSound(v1, l1, PORT_MAX + portNum, INDEX_SIZE);
      assert Live(n.ports) == l1[PORT_MAX + portNum := EMPTY];
    }
  }

  /** No live ring or index block has the size when its place is empty: fewer than eight are taken. */
  lemma RoomForOneMore(ports: seq<Port>, found: nat, size: U32)
    requires |ports| == PORT_MAX && found < PORT_MAX && !ports[found].inUse && size > 0
    requires forall i :: 0 <= i < PORT_MAX ==> PortOk(ports[i])
    ensures size != 128 ==> Count(Live(ports), size) < 8
    ensures Count(Indexes(ports), 128) < 8 && Count(Rings(ports), 128) == 0
  {
    hide Round, RingBytes, ValidBlocks, ValidChannels;
    CountAppend(Rings(ports), Indexes(ports), size);
    forall i | 0 <= i < PORT_MAX ensures Rings(ports)[i].size != 128 {
      RingIsNot128(ports[i]);
    }
    CountAbsent(Rings(ports), 128);
    CountBelow(Indexes(ports), 128, found);
    CountBelow(Rings(ports), size, found);
    if size != 128 {
      CountAbsent(Indexes(ports), size);
    }
  }

  lemma RingIsNot128(p: Port)
    requires PortOk(p)
    ensures RingOf(p).size != 128
  {
    if p.inUse {
      RoundedSizes(p.nChannel, p.nBlock);
    }
  }

  /** With its ring size among three, an open with a free slot always succeeds. */
  lemma OpenSucceeds(s: State, nChannel: U64, nBlock: U64, z: Sizes)
    requires GoodSizes(z) && Bounded(s, z)
    requires ValidChannels(nChannel) && ValidBlocks(nBlock) && Among(RingBytes(nChannel, nBlock), z)
    requires FreeSlot(s.ports) < PORT_MAX
    ensures var (status, n, portNum) := Open(s, nChannel, nBlock, true);
            status == Ok && Bounded(n, z) && portNum == FreeSlot(s.ports) && n.ports[portNum].inUse
  {
    hide SoundVm, BoundedVm, Alloc, Round, RingBytes, ValidBlocks, ValidChannels, GoodSizes, Among;
    OpenKeepsSound(s, nChannel, nBlock, true);
    var found := FreeSlot(s.ports);
    RoundedSizes(nChannel, nBlock);
    var bytes := RingBytes(nChannel, nBlock);
    var live := Live(s.ports);
    LiveAfter(s.ports, found, s.ports[found]);
    RoomForOneMore(s.ports, found, bytes);
    TakeSucceeds(s.vm, live, found, bytes, z);
    TakeKeepsSound(s.vm, live, found, bytes, true);
    var (v1, ring) := Alloc(s.vm, bytes, true);
    var l1 := live[found := Block(ring, bytes)];
    CountAfterRing(s.ports, found, Block(ring, bytes));
    TakeSucceeds(v1, l1, PORT_MAX + found, INDEX_SIZE, z);
    var (v2, index) := Alloc(v1, INDEX_SIZE, true);
    var n := Open(s, nChannel, nBlock, true).1;
    LiveAfter(s.ports, found, n.ports[found]);
    assert Live(n.ports) == l1[PORT_MAX + found := Block(index, 128)];
  }

  lemma CountAfterRing(ports: seq<Port>, found: nat, b: Block)
    requires |ports| == PORT_MAX && found < PORT_MAX && !ports[found].inUse && b.size != 128
    requires forall i :: 0 <= i < PORT_MAX ==> PortOk(ports[i])
    ensures Count(Live(ports)[found := b], 128) < 8
  {
    RoomForOneMore(ports, found, 128);
    CountAppend(Rings(ports), Indexes(ports), 128);
    CountUpdate(Live(ports), found, b, 128);
    assert Live(ports)[found] == RingOf(ports[found]);
  }

  /** Closing returns both blocks to the free table: it has room for them. */
  lemma CloseKeepsBounded(s: State, portNum: U32, z: Sizes)
    requires GoodSizes(z) && Bounded(s, z)
    ensures Bounded(Close(s, portNum).1, z)
  {
    CloseKeepsSound(s, portNum);
    if portNum < PORT_MAX && s.ports[portNum].inUse {
      hide SoundVm, BoundedVm, Free, Round, RingBytes, GoodSizes;
      var p, live := s.ports[portNum], Live(s.ports);
      var n := Close(s, portNum).1;
      assert PortOk(p);
      RoundedSizes(p.nChannel, p.nBlock);
      LiveAfter(s.ports, portNum, n.ports[portNum]);
      PutKeepsSound(s.vm, live, portNum, p.bufSize);
      PutKeepsBound(s.vm, live, portNum, p.bufSize, z);
      var v1, l1 := Free(s.vm, p.portAddr, p.bufSize), live[portNum := EMPTY];
      PutKeepsBound(v1, l1, PORT_MAX + portNum, INDEX_SIZE, z);
      assert Live(n.ports) == l1[PORT_MAX + portNum := EMPTY];
    }
  }
}
