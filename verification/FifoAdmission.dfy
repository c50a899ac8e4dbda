/** When each repair of module FifoPublication is granted, and how far it moves, on ring distances: which words it may
    stand on, and how much of what the caller went on to read must lie before PUT. */
module FifoAdmission {
  import opened Basics
  import opened FifoPublication

  // ----- words -----

  /** An old JUMP is 001 in its three high bits and 00 in its two low ones; JUMP and CALL are 01 and 10 in the two low
      ones; RETURN is 2 in the high half with the two low bits clear. An old JUMP's target is the rest. */
  lemma FlowBits(top: nat, middle: nat, low: nat)
    requires top < 8 && middle < 0x800_0000 && low < 4
    ensures var word := top * 0x2000_0000 + middle * 4 + low;
            && (IsOldJump(word) <==> top == 1 && low == 0)
            && (IsFlow(word) <==> (top == 1 && low == 0) || low == 1 || low == 2
                                  || (top == 0 && middle / 0x4000 == 2 && low == 0))
            && Payload(word) == middle * 4
  {
    var word := top * 0x2000_0000 + middle * 4 + low;
    QuotientIs(word, 0x2000_0000, top, middle * 4 + low);
    QuotientIs(word, 4, top * 0x800_0000 + middle, low);
    var half := middle / 0x4000;
    DivMod(middle, 0x4000);
    QuotientIs(word, 0x1_0000, top * 0x2000 + half, middle % 0x4000 * 4 + low);
    QuotientIs(middle * 4 + low, 4, middle, low);
  }

  /** A method header has bits 31, 29, 17, 16, 1 and 0 clear and a count in bits 18 to 28. */
  lemma MethodBits(b31: nat, b30: nat, b29: nat, count: nat, b17: nat, middle: nat, low: nat)
    requires b31 < 2 && b30 < 2 && b29 < 2 && count < 2048 && b17 < 4 && middle < 0x4000 && low < 4
    ensures var word := b31 * 0x8000_0000 + b30 * 0x4000_0000 + b29 * 0x2000_0000 + count * 0x4_0000 + b17 * 0x1_0000
                        + middle * 4 + low;
            IsMethod(word) <==> b31 == 0 && b29 == 0 && b17 == 0 && low == 0 && count != 0
  {
    var tail := middle * 4 + low;
    var word := b31 * 0x8000_0000 + b30 * 0x4000_0000 + b29 * 0x2000_0000 + count * 0x4_0000 + b17 * 0x1_0000 + tail;
    QuotientIs(word, 0x8000_0000, b31,
               b30 * 0x4000_0000 + b29 * 0x2000_0000 + count * 0x4_0000 + b17 * 0x1_0000 + tail);
    QuotientIs(word, 0x2000_0000, b31 * 4 + b30 * 2 + b29, count * 0x4_0000 + b17 * 0x1_0000 + tail);
    QuotientIs(word, 0x4_0000, (b31 * 4 + b30 * 2 + b29) * 0x800 + count, b17 * 0x1_0000 + tail);
    QuotientIs((b31 * 4 + b30 * 2 + b29) * 0x800 + count, 0x800, b31 * 4 + b30 * 2 + b29, count);
    QuotientIs(word, 0x1_0000, (b31 * 4 + b30 * 2 + b29) * 0x2000 + count * 4 + b17, tail);
  }

  // ----- a move and what it must leave ahead -----

  predicate Ring(size: U32, get: U32, put: U32) { PowerOfTwo(size) && get < size && put < size && get % 4 == 0 }

  /** k bytes on, with at least `left` published bytes from there. */
  predicate Moves(get: U32, put: U32, size: U32, r: U32, k: nat, left: nat)
    requires size > 0
  {
    r < size && r % 4 == 0 && RingDistance(get, r, size) == k && RingDistance(r, put, size) >= left
  }

  lemma MoveLeaves(get: U32, put: U32, size: U32, k: nat, left: nat)
    requires Ring(size, get, put) && 0 < k && k % 4 == 0 && RingDistance(get, put, size) >= k + left && left >= 4
    ensures Moves(get, put, size, Mask(Wrap(get + k), size), k, left)
  {
    hide Mask, RingDistance, PowerOfTwo;
    DistanceBelow(get, put, size);
    DistanceOfMove(get, k, size);
    DistanceFromAhead(get, Mask(Wrap(get + k), size), put, size);
    AlignedMove(get, k, size);
    MaskBelow(Wrap(get + k), size);
  }

  lemma ZeroIsTop(get: U32, k: nat, size: U32)
    requires PowerOfTwo(size) && get + k < M32
    ensures Mask(Wrap(get + k), size) == 0 <==> (get + k) % size == 0
  {
    hide PowerOfTwo;
    WrapThenMask(get + k, size);
  }

  /** The startup head: only at 0x1000, on a jump to itself, with less than half a ring published. */
  lemma HeadIsReleasedIff(get: U32, put: U32, command: U32, size: U32, segment: U32, released: bool)
    ensures var r := StartupHeadRelease(get, put, command, size, segment, released);
            && (r != 0 ==> r == 0x1004)
            && (r != 0 <==> !released && PowerOfTwo(size) && 0x1000 < segment <= size && segment % 4 == 0
                            && get == 0x1000 && put < size && command == 0x2000_1000
                            && 4 < RingDistance(get, put, size) < size / 2)
  {
    hide RingDistance;
    if PowerOfTwo(size) && 0x1000 < size {
      SizeAbove(size);
      MaskSmall(0x1004, size);
    }
    if segment > 0 && get < segment {
      QuotientIs(get, segment, 0, get);
    }
    if segment > 0 && get >= segment {
      NotFirst(get, segment);
    }
  }

  lemma NotFirst(get: nat, segment: nat)
    requires segment > 0 && get >= segment
    ensures get / segment != 0
  {
    DivMod(get, segment);
  }

  lemma SizeAbove(size: U32)
    requires PowerOfTwo(size) && size > 0x1000
    ensures size >= 0x2000
  {
    hide PowerOfTwo;
    assert Pow2(8) == 0x100 && Pow2(13) == 0x2000;
    if size < 0x2000 {
      Halves(size, 13);
    }
  }

  lemma {:induction false} Halves(size: nat, n: nat)
    requires PowerOfTwo(size) && size < Pow2(n) && n > 0
    ensures 2 * size <= Pow2(n)
    decreases n
  {
    if size > 1 && n > 1 {
      Halves(size / 2, n - 1);
    }
  }

  /** A vertex-constant tail: two words on from one that is neither empty, flow nor a header, with the eleven words the
      prologue check reads published. */
  lemma ConstantTailIff(command: U32, word: U32, get: U32, put: U32, size: U32, ready: bool)
    ensures var r := ConstantTail(command, word, get, put, size, ready);
            && (r != 0 ==> Moves(get, put, size, r, 8, 0x2C))
            && (r != 0 <==> Ring(size, get, put) && command == 0x0044_1EFC && ready
                            && word != 0 && !IsFlow(word) && !IsMethod(word)
                            && RingDistance(get, put, size) >= 0x34 && (get + 8) % size != 0)
  {
    hide RingDistance, Mask, IsFlow, IsMethod, Wrap, Moves;
    if Ring(size, get, put) {
      SizeIsPositive(size);
      if RingDistance(get, put, size) >= 0x34 {
        MoveLeaves(get, put, size, 8, 0x2C);
        RoomBelow(get, 8, size);
        ZeroIsTop(get, 8, size);
      }
    }
  }

  lemma SizeIsPositive(size: U32)
    requires PowerOfTwo(size)
    ensures size >= 1 && size <= 0x8000_0000
  {
    hide Pow2;
    Pow2Of32();
    Halves(size, 32);
  }

  /** Adding a few bytes to an offset inside a ring stays in 32 bits. */
  lemma RoomBelow(get: U32, k: nat, size: U32)
    requires PowerOfTwo(size) && get < size && k <= 0x8000_0000
    ensures get + k < M32
  {
    hide PowerOfTwo;
    SizeIsPositive(size);
  }

  /** A vertex-program tail: three words on, behind at least four upload packets, from a CALL-shaped word whose target
      lies outside the ring, with the draw-end pair published. */
  lemma ProgramTailIff(previousGet: U32, command: U32, word: U32, get: U32, put: U32, size: U32, packets: U32,
                       endCommand: U32, endArgument: U32)
    ensures var r := ProgramTail(previousGet, command, word, get, put, size, packets, endCommand, endArgument);
            && (r != 0 ==> Moves(get, put, size, r, 12, 8))
            && (r != 0 <==> Ring(size, get, put) && previousGet % 4 == 0 && previousGet < size
                            && get == (previousGet + 0x84) % size && command == 0x0080_0B80 && packets >= 4
                            && word % 4 == 2 && Payload(word) >= size && endCommand == 0x0004_1808 && endArgument == 0
                            && RingDistance(get, put, size) >= 0x14 && (get + 12) % size != 0)
  {
    hide RingDistance, Mask, Wrap, Moves, Payload;
    if Ring(size, get, put) && previousGet < size {
      SizeIsPositive(size);
      FollowsIff(previousGet, 0x84, get, size);
      if RingDistance(get, put, size) >= 0x14 {
        MoveLeaves(get, put, size, 12, 8);
        RoomBelow(get, 12, size);
        ZeroIsTop(get, 12, size);
      }
    }
  }

  lemma FollowsIff(previous: U32, k: nat, get: U32, size: U32)
    requires PowerOfTwo(size) && previous < size && k <= 0x8000_0000
    ensures Mask(Wrap(previous + k), size) == get <==> get == (previous + k) % size
  {
    hide PowerOfTwo, Wrap;
    WrapThenMask(previous + k, size);
  }

  /** What both draw-prologue scans demand of their candidate: a word that is not empty, and flow only when its target
      is unmapped; from one word to the largest gap ahead, with the eleven words of the prologue published. */
  predicate GapAccepted(word: U32, get: U32, put: U32, candidate: U32, size: U32, maxGap: U32, unmapped: bool)
    requires size > 0
  {
    && word != 0 && (IsFlow(word) ==> unmapped) && candidate != 0
    && 4 <= RingDistance(get, candidate, size) <= maxGap
    && RingDistance(get, put, size) >= RingDistance(get, candidate, size) + 0x2C
  }

  lemma CandidateIff(word: U32, get: U32, put: U32, candidate: U32, size: U32, maxGap: U32, unmapped: bool)
    requires PowerOfTwo(size) && maxGap < size / 2
    ensures var r := Candidate(word, get, put, candidate, size, maxGap, unmapped);
            && (r != 0 ==> r == candidate && RingDistance(r, put, size) >= 0x2C)
            && (r != 0 <==> GapAccepted(word, get, put, candidate, size, maxGap, unmapped))
  {
    hide IsFlow, RingDistance, PowerOfTwo;
    SizeIsPositive(size);
    if GapAccepted(word, get, put, candidate, size, maxGap, unmapped) {
      DistanceFromAhead(get, candidate, put, size);
    }
  }

  /** An inline gap begins one word after a NOOP and ends at an aligned candidate within a bound below half a ring. */
  lemma InlineCandidateIff(previousGet: U32, command: U32, word: U32, get: U32, put: U32, candidate: U32,
                           size: U32, maxGap: U32, unmapped: bool, ready: bool, balanced: bool)
    ensures var r := InlineCandidate(previousGet, command, word, get, put, candidate, size, maxGap, unmapped, ready,
                                     balanced);
            && (r != 0 ==> r == candidate && RingDistance(r, put, size) >= 0x2C)
            && (r != 0 <==> Ring(size, get, put) && previousGet % 4 == 0 && previousGet < size
                            && get == (previousGet + 4) % size && command == 0
                            && candidate % 4 == 0 && candidate < size && 0 < maxGap < size / 2 && ready && balanced
                            && GapAccepted(word, get, put, candidate, size, maxGap, unmapped))
  {
    hide RingDistance, Mask, Wrap, Candidate, GapAccepted;
    if Ring(size, get, put) && previousGet < size && maxGap < size / 2 {
      SizeIsPositive(size);
      FollowsIff(previousGet, 4, get, size);
      CandidateIff(word, get, put, candidate, size, maxGap, unmapped);
    }
  }

  /** A gap behind a draw begins two words after its SET_BEGIN_END(0). */
  lemma PostDrawIff(previousGet: U32, command: U32, argument: U32, word: U32, get: U32, put: U32, candidate: U32,
                    size: U32, maxGap: U32, unmapped: bool, ready: bool, balanced: bool)
    ensures var r := PostDrawCandidate(previousGet, command, argument, word, get, put, candidate, size, maxGap,
                                       unmapped, ready, balanced);
            && (r != 0 ==> r == candidate && RingDistance(r, put, size) >= 0x2C)
            && (r != 0 <==> Ring(size, get, put) && previousGet % 4 == 0 && previousGet < size
                            && get == (previousGet + 8) % size && command == 0x0004_1808 && argument == 0
                            && candidate % 4 == 0 && candidate < size && 0 < maxGap < size / 2 && ready && balanced
                            && GapAccepted(word, get, put, candidate, size, maxGap, unmapped))
  {
    hide RingDistance, Mask, Wrap, Candidate, GapAccepted;
    if Ring(size, get, put) && previousGet < size && maxGap < size / 2 {
      SizeIsPositive(size);
      FollowsIff(previousGet, 8, get, size);
      CandidateIff(word, get, put, candidate, size, maxGap, unmapped);
    }
  }

  /** The fixed form of the inline gap is ten words long, and never passes a flow word. */
  lemma InlineGapMoves(previousGet: U32, command: U32, word: U32, get: U32, put: U32, size: U32, ready: bool,
                       balanced: bool)
    ensures var r := InlineGap(previousGet, command, word, get, put, size, ready, balanced);
            && (r != 0 ==> Moves(get, put, size, r, 0x28, 0x2C) && !IsFlow(word) && word != 0)
            && (r != 0 <==> size > 0x50 && InlineCandidate(previousGet, command, word, get, put,
                                                           Mask(Wrap(get + 0x28), size), size, 0x28, false, ready,
                                                           balanced) != 0)
  {
    hide RingDistance, Mask, Wrap, Candidate, IsFlow, PowerOfTwo;
    if size > 0 {
      var candidate := Mask(Wrap(get + 0x28), size);
      InlineCandidateIff(previousGet, command, word, get, put, candidate, size, 0x28, false, ready, balanced);
      if InlineGap(previousGet, command, word, get, put, size, ready, balanced) != 0 {
        DistanceOfMove(get, 0x28, size);
        MaskBelow(Wrap(get + 0x28), size);
      }
    }
  }

  // ----- islands -----

  /** The window of a FIFO lies in 32 bits. */
  predicate Window(base: U32, size: U32) { PowerOfTwo(size) && base + size < M32 }

  /** A recorded island is passed iff it begins at GET, ends in the window within 64 KB, and PUT lies beyond its end;
      the repair goes to that end. */
  lemma RegisteredIslandIff(stopper: U32, end: U32, get: U32, put: U32, base: U32, size: U32)
    requires Window(base, size) && get < size && put < size
    ensures var r := RegisteredIsland(stopper, end, get, put, base, size);
            && (r != 0 ==> r == end - base && RingDistance(get, r, size) == end - stopper)
            && (r != 0 <==> stopper % 4 == 0 && end % 4 == 0 && stopper == base + get
                            && stopper + 4 <= end < base + size && end - stopper <= 0x1_0000
                            && end - stopper < RingDistance(get, put, size))
  {
    hide RingDistance, PowerOfTwo;
    SizeIsPositive(size);
    MaskSmall(get, size);
    if base <= end < base + size {
      MaskSmall(end - base, size);
      if get <= end - base {
        DistanceWithinTurn(get, end - base, size);
      }
    }
  }

  /** A jump over a payload is passed iff the record names the jump at GET, the payload follows it at once (within four
      words), its end lies in the window within 64 KB, and PUT lies beyond. */
  lemma InlineIslandIff(source: U32, command: U32, end: U32, get: U32, put: U32, base: U32, size: U32)
    requires Window(base, size) && get < size && put < size
    ensures var r := InlineIsland(source, command, end, get, put, base, size);
            && (r != 0 ==> r == end - base && RingDistance(get, r, size) == end - source)
            && (r != 0 <==> source % 4 == 0 && end % 4 == 0 && source == base + get && IsOldJump(command)
                            && get + 4 <= Payload(command) <= get + 0x10 && base + Payload(command) < end < base + size
                            && 8 <= end - source <= 0x1_0000 && end - source < RingDistance(get, put, size))
  {
    hide RingDistance, PowerOfTwo, IsOldJump, Payload;
    SizeIsPositive(size);
    MaskSmall(get, size);
    if base + get < end < base + size {
      DistanceWithinTurn(get, end - base, size);
    }
  }

  /** A consumer inside an island is taken to its end iff the island would be passed from its jump, and the consumer
      stands in its payload. */
  lemma InteriorIff(source: U32, command: U32, end: U32, member: U32, put: U32, base: U32, size: U32)
    requires Window(base, size) && base % 4 == 0
    ensures var r := IslandInterior(source, command, end, member, put, base, size);
            r != 0 <==> base <= source < base + size
                        && (var whole := InlineIsland(source, command, end, source - base, put, base, size);
                            whole != 0 && Payload(command) <= member < whole && r == whole)
  {
    hide InlineIsland, RingDistance, PowerOfTwo, Payload;
    if base <= source < base + size {
      var whole := InlineIsland(source, command, end, source - base, put, base, size);
      if whole != 0 && Payload(command) <= member < whole {
        InteriorIsComplete(source, command, end, source - base, put, base, size, member);
      }
    }
  }
}
