/** Publication repair of the RSX command ring: when a consumer stuck at GET may move on, and to where.
    All arithmetic is the source's 32-bit unsigned arithmetic; a result of 0 means "stay". */
module FifoPublication {
  import opened Basics

  function Wrap(x: int): U32 { x % M32 }

  /** A non-zero size with size & (size - 1) == 0. */
  predicate PowerOfTwo(size: nat) { size == 1 || (size > 1 && size % 2 == 0 && PowerOfTwo(size / 2)) }

  /** x & (size - 1) for a power of two. */
  function Mask(x: int, size: U32): U32
    requires size > 0
  {
    x % size
  }

  /** Bytes from `get` forward to `to` on the ring: (to - get) & (size - 1). */
  function RingDistance(get: U32, to: U32, size: U32): U32
    requires size > 0
  {
    Mask(Wrap(to - get), size)
  }

  /** The two low bits clear, the three high bits 001. */
  predicate IsOldJump(word: U32) { word / 0x2000_0000 == 1 && word % 4 == 0 }

  /** A word the consumer must never skip: old JUMP, JUMP, CALL or RETURN. */
  predicate IsFlow(word: U32) {
    IsOldJump(word) || word % 4 == 1 || word % 4 == 2 || (word / 0x10000 == 2 && word % 4 == 0)
  }

  /** No bit of 0xA0030003 set, and a non-zero argument count in bits 18 to 28. */
  predicate IsMethod(word: U32) {
    word / 0x8000_0000 == 0 && word / 0x2000_0000 % 2 == 0 && word / 0x1_0000 % 4 == 0 && word % 4 == 0
    && word / 0x4_0000 % 0x800 != 0
  }

  // ----- modular arithmetic of the ring -----

  lemma {:induction false} PowersArePowers(n: nat)
    ensures PowerOfTwo(Pow2(n))
  {
    if n > 0 {
      PowersArePowers(n - 1);
      assert Pow2(n) / 2 == Pow2(n - 1);
    }
  }

  lemma {:induction false} PowersNest(b: nat, f: nat)
    requires PowerOfTwo(b) && PowerOfTwo(f) && b <= f
    ensures f % b == 0
    decreases f
  {
    if b > 1 {
      PowersNest(b / 2, f / 2);
      var half, q := b / 2, f / 2 / (b / 2);
      DivMod(f / 2, half);
      assert q * b == 2 * (q * half) by {
        assert b == 2 * half;
      }
      QuotientIs(f, b, q, 0);
    }
  }

  lemma Pow2Of32()
    ensures Pow2(32) == M32
  {
    assert Pow2(8) == 0x100;
    assert Pow2(16) == 0x1_0000;
    assert Pow2(24) == 0x100_0000;
  }

  lemma SizeDivides(size: U32)
    requires PowerOfTwo(size)
    ensures size >= 1 && M32 % size == 0
  {
    hide Pow2;
    Pow2Of32();
    PowersArePowers(32);
    PowersNest(size, M32);
  }

  lemma WrapThenMask(x: int, size: U32)
    requires PowerOfTwo(size)
    ensures Mask(Wrap(x), size) == Mask(x, size)
  {
    hide PowerOfTwo;
    SizeDivides(size);
    var q := M32 / size;
    var k := x / M32;
    assert x == Wrap(x) + (k * q) * size by {
      assert M32 == q * size;
      assert (k * q) * size == k * (q * size);
      assert x == k * M32 + x % M32;
    }
    ModPlusMultiple(Wrap(x), k * q, size);
  }

  /** The ring distance is the difference modulo the ring size. */
  lemma DistanceIsMod(get: U32, to: U32, size: U32)
    requires PowerOfTwo(size)
    ensures RingDistance(get, to, size) == Mask(to - get, size)
  {
    WrapThenMask(to - get, size);
  }

  lemma MaskSmall(x: int, size: U32)
    requires size > 0 && 0 <= x < size
    ensures Mask(x, size) == x
  {
    QuotientIs(x, size, 0, x);
  }

  lemma MaskOfDifference(x: int, y: int, size: U32)
    requires size > 0
    ensures Mask(x - Mask(y, size), size) == Mask(x - y, size)
    ensures Mask(Mask(x, size) - y, size) == Mask(x - y, size)
  {
    assert x - y % size == (x - y) + (y / size) * size;
    ModPlusMultiple(x - y, y / size, size);
    assert x - y == (x % size - y) + (x / size) * size;
    ModPlusMultiple(x % size - y, x / size, size);
  }

  /** A ring offset at or past GET's offset is that many bytes ahead. */
  lemma DistanceWithinTurn(get: U32, r: U32, size: U32)
    requires PowerOfTwo(size) && Mask(get, size) <= r < size
    ensures RingDistance(get, r, size) == r - Mask(get, size)
  {
    hide Mask, RingDistance;
    DistanceIsMod(get, r, size);
    MaskOfDifference(r, get, size);
    MaskSmall(r - Mask(get, size), size);
  }

  /** Moving k bytes on, with k below the ring size. */
  lemma DistanceOfMove(get: U32, k: int, size: U32)
    requires PowerOfTwo(size) && 0 <= k < size
    ensures RingDistance(get, Mask(Wrap(get + k), size), size) == k
  {
    hide Mask, RingDistance, Wrap;
    WrapThenMask(get + k, size);
    DistanceIsMod(get, Mask(get + k, size), size);
    MaskOfDifference(get + k, get, size);
    assert get + k - get == k;
    MaskSmall(k, size);
  }

  lemma MaskSplits(x: int, y: int, size: U32)
    requires size > 0 && Mask(x, size) <= Mask(y, size)
    ensures Mask(y - x, size) == Mask(y, size) - Mask(x, size)
  {
    var i, j := x / size, y / size;
    assert x == i * size + x % size && y == j * size + y % size;
    assert (j - i) * size == j * size - i * size;
    QuotientIs(y - x, size, j - i, y % size - x % size);
  }

  /** Distances add up along the ring. */
  lemma DistanceFromAhead(get: U32, r: U32, put: U32, size: U32)
    requires PowerOfTwo(size) && RingDistance(get, r, size) <= RingDistance(get, put, size)
    ensures RingDistance(r, put, size) == RingDistance(get, put, size) - RingDistance(get, r, size)
  {
    hide Mask, RingDistance, Wrap;
    DistanceIsMod(get, r, size);
    DistanceIsMod(get, put, size);
    DistanceIsMod(r, put, size);
    MaskSplits(r - get, put - get, size);
  }

  lemma MultipleOfFour(size: nat)
    requires PowerOfTwo(size) && size >= 4
    ensures size % 4 == 0
  {
    assert PowerOfTwo(size / 2);
    assert size / 2 % 2 == 0;
  }

  lemma FourDivides(q: int, size: nat)
    requires size % 4 == 0
    ensures (q * size) % 4 == 0
  {
    var m := size / 4;
    assert q * size == 4 * (q * m) by {
      assert size == 4 * m;
    }
  }

  /** Masking by a multiple of four keeps alignment. */
  lemma MaskAligned(x: int, size: U32)
    requires PowerOfTwo(size) && size >= 4 && x % 4 == 0
    ensures Mask(x, size) % 4 == 0
  {
    hide PowerOfTwo;
    MultipleOfFour(size);
    FourDivides(x / size, size);
    DivMod(x, size);
  }

  // ----- the helpers -----

  /** 0x20000000 | get, for a ring offset below the flag bit. */
  function JumpTo(get: U32): U32 { if get / 0x2000_0000 % 2 == 1 then get else Wrap(get + 0x2000_0000) }

  function StartupHeadRelease(get: U32, put: U32, command: U32, fifoSize: U32, segmentSize: U32,
                              alreadyReleased: bool): U32 {
    if alreadyReleased || !PowerOfTwo(fifoSize) || segmentSize == 0 || segmentSize % 4 != 0
       || segmentSize > fifoSize || get >= fifoSize || put >= fifoSize
    then 0
    else
      var segment := get / segmentSize;
      var segmentHead := Wrap(segment * segmentSize + (if segment == 0 then 0x1000 else 0));
      var ahead := RingDistance(get, put, fifoSize);
      if segment != 0 || get != segmentHead || command != JumpTo(get) || ahead <= 4 || ahead >= fifoSize / 2
      then 0
      else Mask(Wrap(get + 4), fifoSize)
  }

  function RegisteredIsland(stopperEa: U32, dataEndEa: U32, get: U32, put: U32, fifoBase: U32, fifoSize: U32): U32 {
    if !PowerOfTwo(fifoSize) || stopperEa % 4 != 0 || dataEndEa % 4 != 0
       || stopperEa != Wrap(fifoBase + Mask(get, fifoSize)) || dataEndEa <= stopperEa
       || dataEndEa >= Wrap(fifoBase + fifoSize)
    then 0
    else
      var span: U32 := dataEndEa - stopperEa;
      if span < 4 || span > 0x10000 then 0
      else
        var resume := Mask(Wrap(dataEndEa - fifoBase), fifoSize);
        var distance := RingDistance(get, resume, fifoSize);
        var ahead := RingDistance(get, put, fifoSize);
        if resume == 0 || ahead == 0 || distance != span || distance >= ahead then 0 else resume
  }

  function InlineIsland(sourceEa: U32, command: U32, dataEndEa: U32, get: U32, put: U32, fifoBase: U32,
                        fifoSize: U32): U32 {
    if !PowerOfTwo(fifoSize) || sourceEa % 4 != 0 || dataEndEa % 4 != 0
       || sourceEa != Wrap(fifoBase + Mask(get, fifoSize)) || !IsOldJump(command)
    then 0
    else
      var target := Payload(command);
      var source := Mask(get, fifoSize);
      var resume := Wrap(dataEndEa - fifoBase);
      if dataEndEa <= sourceEa || dataEndEa >= Wrap(fifoBase + fifoSize) || target <= source || target >= resume then 0
      else
        var prefix: U32 := target - source;
        var span: U32 := resume - source;
        if prefix < 4 || prefix > 0x10 || span < 8 || span > 0x10000 then 0
        else
          var ahead := RingDistance(get, put, fifoSize);
          if resume == 0 || ahead == 0 || span >= ahead then 0 else resume
  }

  /** Where the payload of a jump-over-payload command starts. */
  function Payload(command: U32): U32 { command % 0x2000_0000 / 4 * 4 }

  function IslandMember(sourceEa: U32, command: U32, dataEndEa: U32, memberGet: U32, put: U32, fifoBase: U32,
                        fifoSize: U32): U32 {
    if !PowerOfTwo(fifoSize) || sourceEa < fifoBase || sourceEa >= Wrap(fifoBase + fifoSize) then 0
    else
      var sourceGet: U32 := sourceEa - fifoBase;
      var resume := InlineIsland(sourceEa, command, dataEndEa, sourceGet, put, fifoBase, fifoSize);
      if resume == 0 then 0
      else if memberGet != Payload(command) || memberGet <= sourceGet || memberGet >= resume then 0
      else
        var remaining := RingDistance(memberGet, resume, fifoSize);
        var ahead := RingDistance(memberGet, put, fifoSize);
        if remaining != 0 && ahead != 0 && remaining < ahead then resume else 0
  }

  function IslandInterior(sourceEa: U32, command: U32, dataEndEa: U32, memberGet: U32, put: U32, fifoBase: U32,
                          fifoSize: U32): U32 {
    if !PowerOfTwo(fifoSize) || sourceEa < fifoBase || sourceEa >= Wrap(fifoBase + fifoSize) then 0
    else
      var sourceGet: U32 := sourceEa - fifoBase;
      var resume := InlineIsland(sourceEa, command, dataEndEa, sourceGet, put, fifoBase, fifoSize);
      if resume == 0 then 0
      else if memberGet < Payload(command) || memberGet >= resume then 0
      else
        var remaining := RingDistance(memberGet, resume, fifoSize);
        var ahead := RingDistance(memberGet, put, fifoSize);
        if remaining != 0 && ahead != 0 && remaining < ahead then resume else 0
  }

  function ConstantTail(previousCommand: U32, tailWord: U32, get: U32, put: U32, fifoSize: U32,
                        prologueReady: bool): U32 {
    if !PowerOfTwo(fifoSize) || get % 4 != 0 || get >= fifoSize || put >= fifoSize
       || previousCommand != 0x00441EFC || !prologueReady
    then 0
    else if tailWord == 0 || IsFlow(tailWord) || IsMethod(tailWord) then 0
    else
      var resume := Mask(Wrap(get + 8), fifoSize);
      if RingDistance(get, put, fifoSize) < 0x34 || resume == 0 then 0 else resume
  }

  function ProgramTail(previousGet: U32, previousCommand: U32, tailWord: U32, get: U32, put: U32, fifoSize: U32,
                       packets: U32, endCommand: U32, endArgument: U32): U32 {
    if !PowerOfTwo(fifoSize) || previousGet % 4 != 0 || previousGet >= fifoSize || get % 4 != 0
       || get >= fifoSize || put >= fifoSize || previousCommand != 0x00800B80
       || Mask(Wrap(previousGet + 0x84), fifoSize) != get || packets < 4 || tailWord % 4 != 2
       || Payload(tailWord) < fifoSize || endCommand != 0x00041808 || endArgument != 0
    then 0
    else
      var resume := Mask(Wrap(get + 0x0C), fifoSize);
      if resume != 0 && RingDistance(get, put, fifoSize) >= 0x14 then resume else 0
  }

  /** The checks the two draw-prologue scans share once their producer boundary has been recognised. */
  function Candidate(gapWord: U32, get: U32, put: U32, candidate: U32, fifoSize: U32, maxGap: U32,
                     flowUnmapped: bool): U32
    requires fifoSize > 0
  {
    if gapWord == 0 || (IsFlow(gapWord) && !flowUnmapped) then 0
    else
      var distance := RingDistance(get, candidate, fifoSize);
      if candidate == 0 || distance < 4 || distance > maxGap || RingDistance(get, put, fifoSize) < Wrap(distance + 0x2C)
      then 0
      else candidate
  }

  function InlineCandidate(previousGet: U32, previousCommand: U32, gapWord: U32, get: U32, put: U32, candidate: U32,
                           fifoSize: U32, maxGap: U32, flowUnmapped: bool, prologueReady: bool, balanced: bool): U32 {
    if !PowerOfTwo(fifoSize) || previousGet % 4 != 0 || previousGet >= fifoSize || get % 4 != 0
       || get >= fifoSize || put >= fifoSize || candidate % 4 != 0 || candidate >= fifoSize
       || maxGap == 0 || maxGap >= fifoSize / 2 || previousCommand != 0
       || Mask(Wrap(previousGet + 4), fifoSize) != get || !prologueReady || !balanced
    then 0
    else Candidate(gapWord, get, put, candidate, fifoSize, maxGap, flowUnmapped)
  }

  function PostDrawCandidate(previousGet: U32, previousCommand: U32, previousArgument: U32, gapWord: U32, get: U32,
                             put: U32, candidate: U32, fifoSize: U32, maxGap: U32, flowUnmapped: bool,
                             prologueReady: bool, balanced: bool): U32 {
    if !PowerOfTwo(fifoSize) || previousGet % 4 != 0 || previousGet >= fifoSize || get % 4 != 0
       || get >= fifoSize || put >= fifoSize || candidate % 4 != 0 || candidate >= fifoSize
       || maxGap == 0 || maxGap >= fifoSize / 2 || previousCommand != 0x00041808 || previousArgument != 0
       || Mask(Wrap(previousGet + 8), fifoSize) != get || !prologueReady || !balanced
    then 0
    else Candidate(gapWord, get, put, candidate, fifoSize, maxGap, flowUnmapped)
  }

  function InlineGap(previousGet: U32, previousCommand: U32, gapWord: U32, get: U32, put: U32, fifoSize: U32,
                     prologueReady: bool, balanced: bool): U32 {
    var candidate := if fifoSize != 0 then Mask(Wrap(get + 0x28), fifoSize) else 0;
    InlineCandidate(previousGet, previousCommand, gapWord, get, put, candidate, fifoSize, 0x28, false, prologueReady,
                    balanced)
  }

  function BlockCandidate(tail: U32, tailWord: U32, candidate: U32, fifoSize: U32, blockSize: U32, prologueReady: bool,
                          balanced: bool): U32 {
    if !PowerOfTwo(fifoSize) || !PowerOfTwo(blockSize) || blockSize > fifoSize || tail % 4 != 0 || tail >= fifoSize
       || Mask(Wrap(tail + 4), blockSize) != 0 || candidate == 0 || candidate % 4 != 0 || candidate >= fifoSize
       || !prologueReady || !balanced || IsFlow(tailWord)
    then 0
    else
      var blockStart := Mask(Wrap(tail + 4), fifoSize);
      if RingDistance(blockStart, candidate, fifoSize) < blockSize then candidate else 0
  }

  function BlockTail(tail: U32, tailWord: U32, fifoSize: U32, blockSize: U32, prologueReady: bool,
                     balanced: bool): U32 {
    var candidate := if fifoSize != 0 then Mask(Wrap(tail + 4), fifoSize) else 0;
    BlockCandidate(tail, tailWord, candidate, fifoSize, blockSize, prologueReady, balanced)
  }

  // ----- the block helpers: into the next block of the ring, and nowhere else -----

  lemma Multiply(t: int, m: int, k: int, b: int)
    ensures (t * m + k) * b == t * (m * b) + k * b
  {
    assert (t * m + k) * b == t * m * b + k * b;
    assert t * m * b == t * (m * b);
  }

  lemma SmallerMultiple(k: int, m: int, b: int)
    requires 0 <= k < m && b > 0
    ensures 0 <= k * b < m * b
  {
    assert (m - k) * b >= 1;
    assert (m - k) * b == m * b - k * b;
  }

  /** The start of the block after a tail, with the blocks of the ring counted from 0. */
  lemma NextBlockStart(x: nat, b: nat, f: nat)
    requires 0 < b <= f && f % b == 0 && x % b == 0
    ensures f / b > 0 && x % f == (x / b % (f / b)) * b && x / b % (f / b) < f / b
  {
    var m, j := f / b, x / b;
    assert f == m * b && x == j * b by {
      DivMod(f, b);
      DivMod(x, b);
    }
    assert m > 0;
    DivMod(j, m);
    Multiply(j / m, m, j % m, b);
    SmallerMultiple(j % m, m, b);
    QuotientIs(x, f, j / m, j % m * b);
  }

  /** Within a block of the block's start, going forward, iff in the block of that index. */
  lemma InBlockIff(start: nat, c: nat, k: nat, b: nat, f: nat)
    requires 0 < b && start == k * b && start + b <= f && c < f
    ensures (c - start) % f < b <==> c / b == k
  {
    DivMod(c, b);
    if c < start {
      QuotientIs(c - start, f, -1, c - start + f);
    } else {
      QuotientIs(c - start, f, 0, c - start);
      if c < start + b {
        QuotientIs(c, b, k, c - start);
      }
    }
  }

  /** What a block move needs besides its goal: a ring of blocks, the last word of a block, no flow word in it, and a
      proven prologue. */
  predicate BlockMove(tail: U32, tailWord: U32, candidate: U32, fifoSize: U32, blockSize: U32, prologueReady: bool,
                      balanced: bool) {
    && PowerOfTwo(fifoSize) && PowerOfTwo(blockSize) && blockSize <= fifoSize
    && tail % 4 == 0 && tail < fifoSize && Mask(tail + 4, blockSize) == 0
    && candidate != 0 && candidate % 4 == 0 && candidate < fifoSize && prologueReady && balanced && !IsFlow(tailWord)
  }

  /** The index of the block after a tail, counted around the ring. */
  function NextBlock(tail: U32, fifoSize: U32, blockSize: U32): nat
    requires PowerOfTwo(fifoSize) && PowerOfTwo(blockSize) && blockSize <= fifoSize
  {
    PowersNest(blockSize, fifoSize);
    BlockFits(0, blockSize, fifoSize);
    (tail + 4) / blockSize % (fifoSize / blockSize)
  }

  lemma GoalInNextBlock(tail: U32, candidate: U32, fifoSize: U32, blockSize: U32)
    requires PowerOfTwo(fifoSize) && PowerOfTwo(blockSize) && blockSize <= fifoSize
    requires Mask(tail + 4, blockSize) == 0 && candidate < fifoSize
    ensures Mask(tail + 4, fifoSize) == NextBlock(tail, fifoSize, blockSize) * blockSize
    ensures RingDistance(Mask(tail + 4, fifoSize), candidate, fifoSize) < blockSize
       <==> candidate / blockSize == NextBlock(tail, fifoSize, blockSize)
  {
    hide RingDistance;
    var start: U32 := Mask(tail + 4, fifoSize);
    var k := NextBlock(tail, fifoSize, blockSize);
    PowersNest(blockSize, fifoSize);
    NextBlockStart(tail + 4, blockSize, fifoSize);
    BlockFits(k, blockSize, fifoSize);
    DistanceIsMod(start, candidate, fifoSize);
    InBlockIff(start, candidate, k, blockSize, fifoSize);
  }

  /** A block move is granted iff its goal lies in the block right after the tail, counted around the ring. */
  lemma BlockMoveIffNextBlock(tail: U32, tailWord: U32, candidate: U32, fifoSize: U32, blockSize: U32,
                              prologueReady: bool, balanced: bool)
    ensures var r := BlockCandidate(tail, tailWord, candidate, fifoSize, blockSize, prologueReady, balanced);
            && (r != 0 ==> r == candidate && r % 4 == 0 && r < fifoSize && tail % 4 == 0 && !IsFlow(tailWord))
            && (r != 0 <==> BlockMove(tail, tailWord, candidate, fifoSize, blockSize, prologueReady, balanced)
                            && candidate / blockSize == NextBlock(tail, fifoSize, blockSize))
  {
    hide PowerOfTwo, RingDistance, Wrap, IsFlow, Mask, NextBlock;
    if PowerOfTwo(fifoSize) && PowerOfTwo(blockSize) && blockSize <= fifoSize {
      WrapThenMask(tail + 4, blockSize);
      WrapThenMask(tail + 4, fifoSize);
      if BlockMove(tail, tailWord, candidate, fifoSize, blockSize, prologueReady, balanced) {
        GoalInNextBlock(tail, candidate, fifoSize, blockSize);
      }
    }
  }

  lemma BlockFits(k: nat, b: nat, f: nat)
    requires 0 < b && f % b == 0 && k < f / b
    ensures k * b + b <= f
  {
    DivMod(f, b);
    assert (k + 1) * b <= (f / b) * b;
  }

  /** The fixed form moves to the first word of that block, unless the ring wraps there. */
  lemma BlockTailMovesToItsStart(tail: U32, tailWord: U32, fifoSize: U32, blockSize: U32, prologueReady: bool,
                                 balanced: bool)
    requires fifoSize > 0
    ensures var r, next := BlockTail(tail, tailWord, fifoSize, blockSize, prologueReady, balanced),
            Mask(tail + 4, fifoSize);
            && (r != 0 ==> r == next == NextBlock(tail, fifoSize, blockSize) * blockSize)
            && (r != 0 <==> BlockMove(tail, tailWord, next, fifoSize, blockSize, prologueReady, balanced))
  {
    hide PowerOfTwo, RingDistance, IsFlow, Wrap, Mask, NextBlock, BlockCandidate;
    if PowerOfTwo(fifoSize) {
      WrapThenMask(tail + 4, fifoSize);
      var next: U32 := Mask(tail + 4, fifoSize);
      BlockMoveIffNextBlock(tail, tailWord, next, fifoSize, blockSize, prologueReady, balanced);
      if BlockMove(tail, tailWord, next, fifoSize, blockSize, prologueReady, balanced) {
        GoalInNextBlock(tail, next, fifoSize, blockSize);
        MultipleIs(next, NextBlock(tail, fifoSize, blockSize), blockSize);
      }
    } else {
      NoBlockMove(tail, tailWord, Mask(Wrap(tail + 4), fifoSize), fifoSize, blockSize, prologueReady, balanced);
    }
  }

  lemma NoBlockMove(tail: U32, tailWord: U32, candidate: U32, fifoSize: U32, blockSize: U32, prologueReady: bool,
                    balanced: bool)
    requires !PowerOfTwo(fifoSize)
    ensures BlockCandidate(tail, tailWord, candidate, fifoSize, blockSize, prologueReady, balanced) == 0
  {
  }

  lemma MultipleIs(x: nat, k: nat, b: nat)
    requires b > 0 && x == k * b
    ensures x / b == k
  {
    QuotientIs(x, b, k, 0);
  }

  // ----- fail-closed: a repair makes progress and never overtakes the producer -----

  /** A call of a helper that takes PUT, with its own arguments. */
  datatype Query =
    | QHead(command: U32, segmentSize: U32, released: bool)
    | QIsland(stopperEa: U32, dataEndEa: U32, fifoBase: U32)
    | QInline(sourceEa: U32, command: U32, dataEndEa: U32, fifoBase: U32)
    | QMember(sourceEa: U32, command: U32, dataEndEa: U32, fifoBase: U32)
    | QInterior(sourceEa: U32, command: U32, dataEndEa: U32, fifoBase: U32)
    | QConstants(previousCommand: U32, word: U32, ready: bool)
    | QProgram(previousGet: U32, previousCommand: U32, word: U32, packets: U32, endCommand: U32, endArgument: U32)
    | QGap(previousGet: U32, previousCommand: U32, word: U32, candidate: U32, maxGap: U32, unmapped: bool, ready: bool,
           balanced: bool)
    | QPostDraw(previousGet: U32, previousCommand: U32, previousArgument: U32, word: U32, candidate: U32, maxGap: U32,
                unmapped: bool, ready: bool, balanced: bool)
    | QFixedGap(previousGet: U32, previousCommand: U32, word: U32, ready: bool, balanced: bool)

  function Resume(q: Query, get: U32, put: U32, size: U32): U32 {
    match q
    case QHead(command, segmentSize, released) => StartupHeadRelease(get, put, command, size, segmentSize, released)
    case QIsland(stopper, end, base) => RegisteredIsland(stopper, end, get, put, base, size)
    case QInline(source, command, end, base) => InlineIsland(source, command, end, get, put, base, size)
    case QMember(source, command, end, base) => IslandMember(source, command, end, get, put, base, size)
    case QInterior(source, command, end, base) => IslandInterior(source, command, end, get, put, base, size)
    case QConstants(previous, word, ready) => ConstantTail(previous, word, get, put, size, ready)
    case QProgram(pg, pc, word, packets, ec, ea) => ProgramTail(pg, pc, word, get, put, size, packets, ec, ea)
    case QGap(pg, pc, word, candidate, maxGap, unmapped, ready, balanced) =>
      InlineCandidate(pg, pc, word, get, put, candidate, size, maxGap, unmapped, ready, balanced)
    case QPostDraw(pg, pc, pa, word, candidate, maxGap, unmapped, ready, balanced) =>
      PostDrawCandidate(pg, pc, pa, word, get, put, candidate, size, maxGap, unmapped, ready, balanced)
    case QFixedGap(pg, pc, word, ready, balanced) => InlineGap(pg, pc, word, get, put, size, ready, balanced)
  }

  /** The FIFO window of an island query: base word-aligned, base + size not wrapping. */
  predicate WindowOk(q: Query, size: U32) {
    match q
    case QIsland(_, _, base) => base % 4 == 0 && base + size < M32
    case QInline(_, _, _, base) => base % 4 == 0 && base + size < M32
    case QMember(_, _, _, base) => base % 4 == 0 && base + size < M32
    case QInterior(_, _, _, base) => base % 4 == 0 && base + size < M32
    case _ => true
  }

  /** r is a word-aligned ring offset strictly ahead of GET and strictly before PUT. */
  predicate SafeMove(get: U32, put: U32, size: U32, r: U32) {
    r < size && r % 4 == 0 && 0 < RingDistance(get, r, size) < RingDistance(get, put, size)
  }

  lemma HeadIsSafe(get: U32, put: U32, command: U32, size: U32, segmentSize: U32, released: bool)
    requires get % 4 == 0
    ensures var r := StartupHeadRelease(get, put, command, size, segmentSize, released);
            r != 0 ==> SafeMove(get, put, size, r) && RingDistance(get, r, size) == 4
  {
    hide Mask, RingDistance, PowerOfTwo;
    if StartupHeadRelease(get, put, command, size, segmentSize, released) != 0 {
      DistanceBelow(get, put, size);
      DistanceOfMove(get, 4, size);
      AlignedMove(get, 4, size);
      MaskBelow(Wrap(get + 4), size);
    }
  }

  lemma AlignedMove(get: U32, k: int, size: U32)
    requires PowerOfTwo(size) && get % 4 == 0 && k % 4 == 0 && 0 <= k < size && size >= 4
    ensures Mask(Wrap(get + k), size) % 4 == 0
  {
    hide Mask, Wrap, PowerOfTwo;
    var x := get + k;
    assert x % 4 == 0;
    WrapThenMask(x, size);
    MaskAligned(x, size);
  }

  lemma IslandIsSafe(stopper: U32, end: U32, get: U32, put: U32, base: U32, size: U32)
    requires base % 4 == 0 && base + size < M32
    ensures var r := RegisteredIsland(stopper, end, get, put, base, size);
            r != 0 ==> PowerOfTwo(size) && SafeMove(get, put, size, r) && base + r == end
  {
    hide Mask, RingDistance, PowerOfTwo;
    var r := RegisteredIsland(stopper, end, get, put, base, size);
    if r != 0 {
      PowerIsPositive(size);
      MaskBelow(get, size);
      assert base <= stopper < end < base + size;
      MaskSmall(end - base, size);
    }
  }

  lemma PowerIsPositive(size: nat)
    requires PowerOfTwo(size)
    ensures size > 0
  {
  }

  lemma MaskBelow(x: int, size: U32)
    requires size > 0
    ensures 0 <= Mask(x, size) < size
  {
  }

  /** An accepted inline island: the window arithmetic without wrap, and its span in ring distance. */
  lemma InlineIsSafe(source: U32, command: U32, end: U32, get: U32, put: U32, base: U32, size: U32)
    requires base % 4 == 0 && base + size < M32
    ensures var r := InlineIsland(source, command, end, get, put, base, size);
            r != 0 ==> PowerOfTwo(size) && SafeMove(get, put, size, r) && base + r == end
                       && source == base + Mask(get, size) && Mask(get, size) < Payload(command) < r
                       && RingDistance(get, r, size) == r - Mask(get, size)
  {
    hide Mask, RingDistance, PowerOfTwo, Payload;
    var r := InlineIsland(source, command, end, get, put, base, size);
    if r != 0 {
      PowerIsPositive(size);
      MaskBelow(get, size);
      DistanceWithinTurn(get, r, size);
    }
  }

  lemma MemberIsSafe(source: U32, command: U32, end: U32, get: U32, put: U32, base: U32, size: U32)
    requires base % 4 == 0 && base + size < M32
    ensures var r := IslandMember(source, command, end, get, put, base, size);
            r != 0 ==> PowerOfTwo(size) && SafeMove(get, put, size, r)
  {
    hide Mask, RingDistance, InlineIsland;
    if IslandMember(source, command, end, get, put, base, size) != 0 {
      InlineIsSafe(source, command, end, source - base, put, base, size);
    }
  }

  lemma InteriorIsSafe(source: U32, command: U32, end: U32, get: U32, put: U32, base: U32, size: U32)
    requires base % 4 == 0 && base + size < M32
    ensures var r := IslandInterior(source, command, end, get, put, base, size);
            r != 0 ==> PowerOfTwo(size) && SafeMove(get, put, size, r)
  {
    hide Mask, RingDistance, InlineIsland;
    if IslandInterior(source, command, end, get, put, base, size) != 0 {
      InlineIsSafe(source, command, end, source - base, put, base, size);
    }
  }

  lemma TailMoveIsSafe(get: U32, put: U32, size: U32, k: int, margin: int)
    requires PowerOfTwo(size) && get % 4 == 0 && get < size && 0 < k < margin && k % 4 == 0 && margin >= 8
    requires RingDistance(get, put, size) >= margin
    ensures SafeMove(get, put, size, Mask(Wrap(get + k), size))
  {
    hide Mask, RingDistance, PowerOfTwo;
    DistanceBelow(get, put, size);
    DistanceOfMove(get, k, size);
    AlignedMove(get, k, size);
    MaskBelow(Wrap(get + k), size);
  }

  lemma DistanceBelow(get: U32, to: U32, size: U32)
    requires size > 0
    ensures RingDistance(get, to, size) < size
  {
  }

  lemma CandidateIsSafe(word: U32, get: U32, put: U32, candidate: U32, size: U32, maxGap: U32, unmapped: bool)
    requires size > 0 && candidate < size && candidate % 4 == 0 && maxGap < 0x8000_0000
    ensures var r := Candidate(word, get, put, candidate, size, maxGap, unmapped);
            r != 0 ==> SafeMove(get, put, size, r)
  {
    hide RingDistance;
  }

  /** Every non-zero answer of a helper that takes PUT is word-aligned, inside the ring, strictly ahead
      of GET and strictly before PUT: a repair always makes progress and never reaches the producer. */
  lemma EveryRepairIsSafe(q: Query, get: U32, put: U32, size: U32)
    requires get % 4 == 0 && WindowOk(q, size)
    ensures Resume(q, get, put, size) != 0 ==> PowerOfTwo(size) && SafeMove(get, put, size, Resume(q, get, put, size))
  {
    if Resume(q, get, put, size) != 0 {
      match q
      case QHead(command, segmentSize, released) => HeadIsSafe(get, put, command, size, segmentSize, released);
      case QIsland(stopper, end, base) => IslandIsSafe(stopper, end, get, put, base, size);
      case QInline(source, command, end, base) => InlineIsSafe(source, command, end, get, put, base, size);
      case QMember(source, command, end, base) => MemberIsSafe(source, command, end, get, put, base, size);
      case QInterior(source, command, end, base) => InteriorIsSafe(source, command, end, get, put, base, size);
      case QConstants(_, _, _) => SmallTailsAreSafe(q, get, put, size);
      case QProgram(_, _, _, _, _, _) => SmallTailsAreSafe(q, get, put, size);
      case QGap(_, _, word, candidate, maxGap, unmapped, _, _) =>
        CandidateIsSafe(word, get, put, candidate, size, maxGap, unmapped);
      case QPostDraw(_, _, _, word, candidate, maxGap, unmapped, _, _) =>
        CandidateIsSafe(word, get, put, candidate, size, maxGap, unmapped);
      case QFixedGap(_, _, word, _, _) =>
        CandidateIsSafe(word, get, put, Mask(Wrap(get + 0x28), size), size, 0x28, false);
    }
  }

  lemma SmallTailsAreSafe(q: Query, get: U32, put: U32, size: U32)
    requires get % 4 == 0 && (q.QConstants? || q.QProgram?) && Resume(q, get, put, size) != 0
    ensures PowerOfTwo(size) && SafeMove(get, put, size, Resume(q, get, put, size))
  {
    if q.QConstants? {
      TailMoveIsSafe(get, put, size, 8, 0x34);
    } else {
      TailMoveIsSafe(get, put, size, 12, 0x14);
    }
  }

  // ----- runs of repairs against a moving producer -----

  datatype Event = Repair(q: Query) | Publish(put: U32)

  datatype Cursor = Cursor(get: U32, put: U32)

  /** One event: the producer publishes words ahead of what it had published, or a repair is taken. */
  ghost predicate CanHappen(e: Event, c: Cursor, size: U32)
    requires size > 0
  {
    match e
    case Repair(q) => WindowOk(q, size) && Resume(q, c.get, c.put, size) != 0
    case Publish(put) => RingDistance(c.get, put, size) >= RingDistance(c.get, c.put, size)
  }

  function After(e: Event, c: Cursor, size: U32): Cursor {
    match e
    case Repair(q) => c.(get := Resume(q, c.get, c.put, size))
    case Publish(put) => c.(put := put)
  }

  ghost predicate IsRun(events: seq<Event>, states: seq<Cursor>, size: U32)
    requires size > 0
  {
    && |states| == |events| + 1
    && forall i :: 0 <= i < |events| ==>
         CanHappen(events[i], states[i], size) && states[i + 1] == After(events[i], states[i], size)
  }

  function Repairs(events: seq<Event>): nat {
    if events == [] then 0 else Repairs(events[..|events| - 1]) + (if events[|events| - 1].Repair? then 1 else 0)
  }

  /** Bytes published over a run. */
  function Published(events: seq<Event>, states: seq<Cursor>, size: U32): int
    requires size > 0 && |states| == |events| + 1
  {
    if events == [] then 0
    else
      var n := |events| - 1;
      Published(events[..n], states[..n + 1], size)
      + (if events[n].Publish?
         then RingDistance(states[n].get, states[n + 1].put, size) - RingDistance(states[n].get, states[n].put, size)
         else 0)
  }

  /** Bytes the repairs of a run pass over. */
  function Consumed(events: seq<Event>, states: seq<Cursor>, size: U32): int
    requires size > 0 && |states| == |events| + 1
  {
    if events == [] then 0
    else
      var n := |events| - 1;
      Consumed(events[..n], states[..n + 1], size)
      + (if events[n].Repair? then RingDistance(states[n].get, states[n + 1].get, size) else 0)
  }

  /** Over any run of repairs and publications the producer stays ahead: what is ahead at the end and what was
      consumed is what was ahead at the start and what was published, and n repairs consume at least 4n bytes. */
  lemma {:induction false} RepairsNeverOvertake(events: seq<Event>, states: seq<Cursor>, size: U32)
    requires PowerOfTwo(size) && IsRun(events, states, size)
    requires states[0].get % 4 == 0 && 0 < RingDistance(states[0].get, states[0].put, size)
    ensures var last := states[|events|];
            last.get % 4 == 0 && 0 < RingDistance(last.get, last.put, size)
            && RingDistance(last.get, last.put, size) + Consumed(events, states, size)
               == RingDistance(states[0].get, states[0].put, size) + Published(events, states, size)
            && 4 * Repairs(events) <= Consumed(events, states, size)
    decreases |events|
  {
    if events != [] {
      var n := |events| - 1;
      var es, ss := events[..n], states[..n + 1];
      assert IsRun(es, ss, size) by {
        assert forall i :: 0 <= i < n ==>
          CanHappen(events[i], states[i], size) && states[i + 1] == After(events[i], states[i], size);
      }
      RepairsNeverOvertake(es, ss, size);
      assert CanHappen(events[n], states[n], size) && states[n + 1] == After(events[n], states[n], size);
      if events[n].Repair? {
        RepairConsumes(events[n].q, states[n].get, states[n].put, size);
      }
    }
  }

  lemma RepairConsumes(q: Query, get: U32, put: U32, size: U32)
    requires get % 4 == 0 && PowerOfTwo(size) && WindowOk(q, size) && Resume(q, get, put, size) != 0
    ensures var r := Resume(q, get, put, size);
            && r % 4 == 0 && 0 < RingDistance(r, put, size) && RingDistance(get, r, size) >= 4
            && RingDistance(get, r, size) + RingDistance(r, put, size) == RingDistance(get, put, size)
  {
    hide Resume, WindowOk, Mask, RingDistance, PowerOfTwo;
    EveryRepairIsSafe(q, get, put, size);
    var r := Resume(q, get, put, size);
    DistanceFromAhead(get, r, put, size);
    DistanceIsMod(get, r, size);
    MaskAligned(r - get, size);
  }

  // ----- islands: the three queries agree -----

  /** When the source query accepts an island from an in-range GET, the interior query accepts at every
      payload offset, with the same resume point. */
  lemma InteriorIsComplete(source: U32, command: U32, end: U32, get: U32, put: U32, base: U32, size: U32, m: U32)
    requires base % 4 == 0 && base + size < M32 && get < size
    requires InlineIsland(source, command, end, get, put, base, size) != 0
    requires Payload(command) <= m < InlineIsland(source, command, end, get, put, base, size)
    ensures IslandInterior(source, command, end, m, put, base, size)
            == InlineIsland(source, command, end, get, put, base, size)
  {
    hide Mask, RingDistance, InlineIsland;
    var r := InlineIsland(source, command, end, get, put, base, size);
    InlineIsSafe(source, command, end, get, put, base, size);
    MaskSmall(get, size);
    MaskSmall(m, size);
    DistanceWithinTurn(get, m, size);
    DistanceWithinTurn(m, r, size);
    DistanceFromAhead(get, m, put, size);
  }

  /** The exact-start query is the interior query at the payload start, accepted or refused. */
  lemma MemberIsInteriorAtStart(source: U32, command: U32, end: U32, put: U32, base: U32, size: U32)
    requires base % 4 == 0 && base + size < M32
    ensures IslandMember(source, command, end, Payload(command), put, base, size)
         == IslandInterior(source, command, end, Payload(command), put, base, size)
  {
    hide Mask, RingDistance, InlineIsland, PowerOfTwo;
    if PowerOfTwo(size) && base <= source < base + size {
      InlineIsSafe(source, command, end, source - base, put, base, size);
    }
  }

  /** Whatever offset a recovery starts from, all recoveries of one island meet at the same word. */
  lemma RecoveryIsConfluent(source: U32, command: U32, end: U32, put: U32, base: U32, size: U32, m1: U32, m2: U32)
    requires base % 4 == 0 && base + size < M32
    requires IslandInterior(source, command, end, m1, put, base, size) != 0
    requires IslandInterior(source, command, end, m2, put, base, size) != 0
    ensures IslandInterior(source, command, end, m1, put, base, size)
            == IslandInterior(source, command, end, m2, put, base, size)
    ensures base + IslandInterior(source, command, end, m1, put, base, size) == end
  {
    hide Mask, RingDistance, InlineIsland, PowerOfTwo;
    InlineIsSafe(source, command, end, source - base, put, base, size);
  }
}
