/** Whole sessions of the audio server: any sequence of opens, closes, starts, stops and mixed blocks
    after one cellAudioInit. */
module AudioSession {
  import opened Basics
  import opened AudioServer
  import opened AudioCapacity

  datatype Action =
    | DoOpen(nChannel: U64, nBlock: U64, commitOk: bool)
    | DoClose(portNum: U32)
    | DoStart(portNum: U32)
    | DoStop(portNum: U32)
    | DoMix

  function Act(s: State, a: Action): (Status, State) {
    match a
    case DoOpen(c, b, ok) => var (status, n, _) := Open(s, c, b, ok); (status, n)
    case DoClose(p) => Close(s, p)
    case DoStart(p) => SetRunning(s, p, true)
    case DoStop(p) => SetRunning(s, p, false)
    case DoMix => (Ok, Mix(s))
  }

  function From(s: State, actions: seq<Action>): State {
    if actions == [] then s else Act(From(s, actions[..|actions| - 1]), actions[|actions| - 1]).1
  }

  function After(actions: seq<Action>): State { From(Initial(), actions) }

  lemma SamePortsSameBlocks(a: seq<Port>, b: seq<Port>)
    requires |a| == |b|
    requires forall i :: 0 <= i < |a| ==> RingOf(a[i]) == RingOf(b[i]) && IndexOf(a[i]) == IndexOf(b[i])
    ensures Live(a) == Live(b)
  {
    hide RingOf, IndexOf;
    assert Rings(a) == Rings(b) && Indexes(a) == Indexes(b);
  }

  /** Starting, stopping and mixing leave every block where it is. */
  lemma QuietActions(s: State, a: Action)
    requires Sound(s) && (a.DoStart? || a.DoStop? || a.DoMix?)
    ensures var n := Act(s, a).1;
            n.vm == s.vm && Live(n.ports) == Live(s.ports) && Sound(n)
  {
    hide SoundVm;
    var n := Act(s, a).1;
    SamePortsSameBlocks(n.ports, s.ports);
  }

  lemma InitialIsSound()
    ensures Sound(Initial())
  {
    var s := Initial();
    assert forall i :: 0 <= i < |Table(s.vm, Live(s.ports))| ==> Table(s.vm, Live(s.ports))[i] == EMPTY;
  }

  /** In every run the blocks of the free table and of the open ports are pairwise disjoint, 128-byte
      aligned and inside the 4 MB window. */
  lemma {:induction false} BlocksStayApart(actions: seq<Action>)
    ensures Sound(After(actions))
    ensures var t := Table(After(actions).vm, Live(After(actions).ports));
            (forall i, j :: 0 <= i < j < |t| ==> Apart(t[i], t[j]))
            && (forall i :: 0 <= i < |t| ==> InWindow(t[i], VM_BASE + VM_SIZE))
    decreases |actions|
  {
    if actions == [] {
      InitialIsSound();
    } else {
      hide Open, Close, SetRunning, Mix, Apart;
      BlocksStayApart(actions[..|actions| - 1]);
      var s, a := After(actions[..|actions| - 1]), actions[|actions| - 1];
      match a
      case DoOpen(c, b, ok) => OpenKeepsSound(s, c, b, ok);
      case DoClose(p) => CloseKeepsSound(s, p);
      case _ => QuietActions(s, a);
    }
    WindowGrows(After(actions));
  }

  lemma WindowGrows(s: State)
    requires Sound(s)
    ensures var t := Table(s.vm, Live(s.ports)); forall i :: 0 <= i < |t| ==> InWindow(t[i], VM_BASE + VM_SIZE)
  {
    var t := Table(s.vm, Live(s.ports));
    forall i | 0 <= i < |t| ensures InWindow(t[i], VM_BASE + VM_SIZE) {
      assert InWindow(t[i], s.vm.bump);
    }
  }

  /** The session opens ports of these ring sizes only, and committing the window works. */
  ghost predicate UsesSizes(a: Action, z: Sizes) {
    a.DoOpen? ==>
      a.commitOk && (ValidChannels(a.nChannel) && ValidBlocks(a.nBlock) ==> Among(RingBytes(a.nChannel, a.nBlock), z))
  }

  lemma InitialIsBounded(z: Sizes)
    requires GoodSizes(z)
    ensures Bounded(Initial(), z)
  {
    InitialIsSound();
    var s := Initial();
    var t := Table(s.vm, Live(s.ports));
    assert forall i :: 0 <= i < |t| ==> t[i] == EMPTY;
    SizePositiveAll(z);
    CountAbsent(t, z.a);
    CountAbsent(t, z.b);
    CountAbsent(t, z.c);
    CountAbsent(t, 128);
    TotalOfEmpty(t);
  }

  lemma {:induction false} TotalOfEmpty(t: seq<Block>)
    requires forall i :: 0 <= i < |t| ==> t[i] == EMPTY
    ensures Total(t) == 0
  {
    if t != [] {
      TotalOfEmpty(t[1..]);
    }
  }

  /** With at most three ring sizes nothing is ever lost: the bytes taken from the window are exactly the
      bytes in the free table and the open ports, and at most eight blocks of each size were taken. */
  lemma {:induction false} SessionIsBounded(actions: seq<Action>, z: Sizes)
    requires GoodSizes(z) && forall i :: 0 <= i < |actions| ==> UsesSizes(actions[i], z)
    ensures Bounded(After(actions), z)
    decreases |actions|
  {
    if actions == [] {
      InitialIsBounded(z);
    } else {
      hide Open, Close, SetRunning, Mix, Bounded, GoodSizes, Among, RingBytes;
      var k := |actions| - 1;
      SessionIsBounded(actions[..k], z);
      var s, a := After(actions[..k]), actions[k];
      assert UsesSizes(a, z);
      ActKeepsBounded(s, a, z);
    }
  }

  lemma ActKeepsBounded(s: State, a: Action, z: Sizes)
    requires GoodSizes(z) && Bounded(s, z) && UsesSizes(a, z)
    ensures Bounded(Act(s, a).1, z)
  {
    hide GoodSizes, Among, RingBytes, BoundedVm, SoundVm;
    match a
    case DoOpen(c, b, ok) =>
      if ValidChannels(c) && ValidBlocks(b) && FreeSlot(s.ports) < PORT_MAX {
        OpenSucceeds(s, c, b, z);
      }
    case DoClose(p) => CloseKeepsBounded(s, p, z);
    case _ => QuietActions(s, a);
  }

  /** No open of such a session fails with out-of-memory: it succeeds exactly when its parameters are
      valid and a port slot is free. */
  lemma OpensNeverRunOut(actions: seq<Action>, z: Sizes, nChannel: U64, nBlock: U64)
    requires GoodSizes(z) && forall i :: 0 <= i < |actions| ==> UsesSizes(actions[i], z)
    requires UsesSizes(DoOpen(nChannel, nBlock, true), z)
    ensures var status := Act(After(actions), DoOpen(nChannel, nBlock, true)).0;
            status != NoMemory
            && (status == Ok <==>
                  ValidChannels(nChannel) && ValidBlocks(nBlock) && FreeSlot(After(actions).ports) < PORT_MAX)
  {
    SessionIsBounded(actions, z);
    var s := After(actions);
    if ValidChannels(nChannel) && ValidBlocks(nBlock) && FreeSlot(s.ports) < PORT_MAX {
      OpenSucceeds(s, nChannel, nBlock, z);
    }
  }

  /** A close always finds room in the free table: both its blocks come back. */
  lemma ClosesNeverDrop(actions: seq<Action>, z: Sizes, portNum: U32)
    requires GoodSizes(z) && forall i :: 0 <= i < |actions| ==> UsesSizes(actions[i], z)
    ensures var (s, n) := (After(actions), Close(After(actions), portNum).1);
            Total(Table(n.vm, Live(n.ports))) == Total(Table(s.vm, Live(s.ports))) == s.vm.bump - VM_BASE
              && n.vm.bump == s.vm.bump
  {
    SessionIsBounded(actions, z);
    CloseKeepsBounded(After(actions), portNum, z);
  }

  // ----- the block timeline -----

  function Mixes(actions: seq<Action>): nat {
    if actions == [] then 0 else Mixes(actions[..|actions| - 1]) + (if actions[|actions| - 1].DoMix? then 1 else 0)
  }

  ghost predicate PortTimeOk(p: Port, counter: U64) {
    p.readIndex <= counter && (p.inUse ==> ValidBlocks(p.nBlock) && p.shown == p.readIndex % p.nBlock)
  }

  ghost predicate TimelineOk(s: State) {
    |s.ports| == PORT_MAX && forall i :: 0 <= i < |s.ports| ==> PortTimeOk(s.ports[i], s.counter)
  }

  lemma ConsumeKeepsTime(p: Port, counter: U64)
    requires PortTimeOk(p, counter) && counter + 1 < M64
    ensures PortTimeOk(Consume(p), counter + 1)
  {
    hide ValidBlocks;
  }

  lemma ActKeepsTimeline(s: State, a: Action)
    requires TimelineOk(s) && (a.DoMix? ==> s.counter + 1 < M64)
    ensures TimelineOk(Act(s, a).1)
  {
    hide Alloc, Free, RingBytes;
    var n := Act(s, a).1;
    match a
    case DoOpen(c, b, ok) => OpenKeepsTime(s, c, b, ok);
    case DoMix =>
      forall i | 0 <= i < |n.ports| ensures PortTimeOk(n.ports[i], n.counter) {
        assert PortTimeOk(s.ports[i], s.counter);
        ConsumeKeepsTime(s.ports[i], s.counter);
      }
    case _ =>
  }

  lemma OpenKeepsTime(s: State, nChannel: U64, nBlock: U64, commitOk: bool)
    requires TimelineOk(s)
    ensures TimelineOk(Open(s, nChannel, nBlock, commitOk).1)
  {
    hide Alloc, RingBytes, ValidBlocks;
    var n := Open(s, nChannel, nBlock, commitOk).1;
    if ValidBlocks(nBlock) {
      RingSlots(nBlock, 0);
    }
    forall i | 0 <= i < |n.ports| ensures PortTimeOk(n.ports[i], n.counter) {
      assert PortTimeOk(s.ports[i], s.counter);
    }
  }

  /** In every run the shared counter is the number of mixed blocks, never behind any port's read index,
      and each open port's published index is its read index within the ring. */
  lemma {:induction false} TimelineHolds(actions: seq<Action>)
    requires Mixes(actions) < M64
    ensures TimelineOk(After(actions)) && After(actions).counter == Mixes(actions)
    decreases |actions|
  {
    if actions != [] {
      var k := |actions| - 1;
      TimelineHolds(actions[..k]);
      ActKeepsTimeline(After(actions[..k]), actions[k]);
      CounterMoves(After(actions[..k]), actions[k]);
    }
  }

  lemma CounterMoves(s: State, a: Action)
    ensures Act(s, a).1.counter == if a.DoMix? then (s.counter + 1) % M64 else s.counter
  {
    hide Alloc, Free, RingBytes;
  }

  lemma TagArithmetic(counter: U64, shown: nat, blockNo: nat)
    requires shown < 32 && blockNo < 32 && shown <= counter && counter + 32 < M64
    ensures (counter + blockNo - shown) % M64 == counter + blockNo - shown
  {
  }

  /** The tag of a slot of a port on the timeline, computed without wrap. */
  lemma TagOfSlot(s: State, portNum: U32, blockNo: U64)
    requires TimelineOk(s) && s.counter + 32 < M64 && BlockTag(s, portNum, blockNo).0 == Ok
    ensures var p := s.ports[portNum];
            p.inUse && blockNo < p.nBlock <= 32 && p.shown < p.nBlock && p.shown <= s.counter
            && BlockTag(s, portNum, blockNo).1 == s.counter + blockNo - p.shown
  {
    hide ValidBlocks;
    var p := s.ports[portNum];
    assert PortTimeOk(p, s.counter);
    RingSlots(p.nBlock, p.readIndex);
    TagArithmetic(s.counter, p.shown, blockNo);
  }

  /** Tags never underflow, and the current slot carries the counter's own value. */
  lemma TagsFollowTheCounter(actions: seq<Action>, portNum: U32, blockNo: U64)
    requires Mixes(actions) + 32 < M64
    requires BlockTag(After(actions), portNum, blockNo).0 == Ok
    ensures var s := After(actions);
            var tag := BlockTag(s, portNum, blockNo).1;
            portNum < |s.ports|
            && tag == s.counter + blockNo - s.ports[portNum].shown
            && (blockNo == s.ports[portNum].shown ==> tag == s.counter)
            && Mixes(actions) - 32 < tag < Mixes(actions) + 32
  {
    hide TimelineOk, After, ValidBlocks;
    TimelineHolds(actions);
    TagOfSlot(After(actions), portNum, blockNo);
  }

  lemma RingSlots(n: U64, index: U64)
    requires ValidBlocks(n)
    ensures 0 < n <= 32 && index % n < n && index % n <= index
  {
  }

  lemma ConsumeAdvances(p: Port, counter: U64)
    requires PortTimeOk(p, counter) && counter + 1 < M64 && p.inUse && p.running && p.portAddr != 0
    ensures Consume(p) == p.(readIndex := p.readIndex + 1, shown := if p.shown + 1 == p.nBlock then 0 else p.shown + 1)
  {
    hide ValidBlocks;
    RingSlots(p.nBlock, p.readIndex);
    NextInRing(p.readIndex, p.nBlock);
  }

  // ----- a port that keeps running -----

  predicate IsRunning(p: Port) { p.inUse && p.running && p.portAddr != 0 }

  /** Anything but closing or stopping the port. */
  predicate KeepsRunning(a: Action, i: U32) { a != DoClose(i) && a != DoStop(i) }

  lemma OthersLeaveIt(s: State, a: Action, i: U32)
    requires |s.ports| == PORT_MAX && i < PORT_MAX && IsRunning(s.ports[i]) && KeepsRunning(a, i) && !a.DoMix?
    ensures |Act(s, a).1.ports| == PORT_MAX && Act(s, a).1.ports[i] == s.ports[i]
  {
    hide Alloc, Free, RingBytes, ValidBlocks, ValidChannels;
  }

  lemma MixMovesIt(s: State, i: nat)
    requires TimelineOk(s) && i < PORT_MAX && IsRunning(s.ports[i]) && s.counter + 1 < M64
    ensures var p := s.ports[i];
            Mix(s).ports[i] == p.(readIndex := p.readIndex + 1,
                                  shown := if p.shown + 1 == p.nBlock then 0 else p.shown + 1)
    ensures s.ports[i].shown < s.ports[i].nBlock
  {
    hide ValidBlocks;
    assert PortTimeOk(s.ports[i], s.counter);
    RingSlots(s.ports[i].nBlock, s.ports[i].readIndex);
    ConsumeAdvances(s.ports[i], s.counter);
    assert Mix(s).ports[i] == Consume(s.ports[i]);
  }

  /** How often the port's published index returns to the first slot. */
  function Wraps(s: State, actions: seq<Action>, i: nat): nat {
    if actions == [] then 0
    else
      var n := |actions| - 1;
      var now := From(s, actions);
      Wraps(s, actions[..n], i) + (if actions[n].DoMix? && i < |now.ports| && now.ports[i].shown == 0 then 1 else 0)
  }

  lemma StepInRing(shown: nat, wraps: nat, x: nat, n: nat)
    requires shown < n && x == wraps * n + shown
    ensures x + 1 == (if shown + 1 == n then (wraps + 1) * n else wraps * n + (shown + 1))
  {
    assert (wraps + 1) * n == wraps * n + n;
  }

  /** A running port is at its start plus one slot per tick, around the ring. */
  lemma {:induction false} RunningPort(s: State, actions: seq<Action>, i: U32)
    requires TimelineOk(s) && i < PORT_MAX && IsRunning(s.ports[i]) && s.counter + Mixes(actions) < M64
    requires forall j :: 0 <= j < |actions| ==> KeepsRunning(actions[j], i)
    ensures var n, p, k := From(s, actions), s.ports[i], Mixes(actions);
            && TimelineOk(n) && n.counter == s.counter + k && IsRunning(n.ports[i]) && n.ports[i].nBlock == p.nBlock
            && n.ports[i].readIndex == p.readIndex + k
            && p.shown + k == Wraps(s, actions, i) * p.nBlock + n.ports[i].shown
    decreases |actions|
  {
    hide Act, TimelineOk, Mix;
    TimelinePorts(s);
    if actions != [] {
      var m := |actions| - 1;
      RunningPort(s, actions[..m], i);
      var mid, a := From(s, actions[..m]), actions[m];
      TimelinePorts(mid);
      ActKeepsTimeline(mid, a);
      CounterMoves(mid, a);
      if a.DoMix? {
        MixMovesIt(mid, i);
        MixIsAct(mid);
        TimelinePorts(From(s, actions));
        var was, w, nBlock := mid.ports[i].shown, Wraps(s, actions[..m], i), s.ports[i].nBlock;
        StepInRing(was, w, s.ports[i].shown + Mixes(actions[..m]), nBlock);
        assert Wraps(s, actions, i) == if was + 1 == nBlock then w + 1 else w;
      } else {
        OthersLeaveIt(mid, a, i);
      }
    }
  }

  lemma TimelinePorts(s: State)
    requires TimelineOk(s)
    ensures |s.ports| == PORT_MAX
  {
  }

  lemma MixIsAct(s: State)
    ensures Act(s, DoMix).1 == Mix(s)
  {
  }

  lemma TagAnswers(s: State, portNum: U32, blockNo: U64)
    requires portNum < |s.ports| && s.ports[portNum].inUse && blockNo < s.ports[portNum].nBlock
    ensures BlockTag(s, portNum, blockNo).0 == Ok
  {
  }

  /** While a port runs, whatever else happens, a slot's tag grows by exactly nBlock each time the read index wraps, and
      not at all in between: by nBlock for every nBlock ticks from its place in the ring. */
  lemma TagsAdvanceByRevolution(s: State, actions: seq<Action>, portNum: U32, blockNo: U64)
    requires TimelineOk(s) && s.counter + Mixes(actions) + 32 < M64
    requires portNum < |s.ports| && IsRunning(s.ports[portNum]) && BlockTag(s, portNum, blockNo).0 == Ok
    requires forall j :: 0 <= j < |actions| ==> KeepsRunning(actions[j], portNum)
    ensures var n, p := From(s, actions), s.ports[portNum];
            && BlockTag(n, portNum, blockNo).0 == Ok
            && BlockTag(n, portNum, blockNo).1 == BlockTag(s, portNum, blockNo).1
               + Wraps(s, actions, portNum) * p.nBlock
            && p.nBlock > 0 && Wraps(s, actions, portNum) == (p.shown + Mixes(actions)) / p.nBlock
  {
    hide ValidBlocks, TimelineOk, From, Wraps, BlockTag;
    TimelinePorts(s);
    TagOfSlot(s, portNum, blockNo);
    RunningPort(s, actions, portNum);
    var n, p := From(s, actions), s.ports[portNum];
    TimelinePorts(n);
    TagAnswers(n, portNum, blockNo);
    TagOfSlot(n, portNum, blockNo);
    QuotientIs(p.shown + Mixes(actions), p.nBlock, Wraps(s, actions, portNum), n.ports[portNum].shown);
  }

  lemma NextInRing(x: nat, n: nat)
    requires n > 0
    ensures (x + 1) % n == if x % n + 1 == n then 0 else x % n + 1
  {
    var q := x / n;
    assert x == q * n + x % n;
    if x % n + 1 == n {
      assert x + 1 == (q + 1) * n + 0;
      QuotientIs(x + 1, n, q + 1, 0);
    } else {
      QuotientIs(x + 1, n, q, x % n + 1);
    }
  }

  /** Every running port consumes exactly one block per tick. */
  lemma PortsAdvanceTogether(s: State, i: nat, j: nat)
    requires TimelineOk(s) && i < PORT_MAX && j < PORT_MAX && s.counter + 1 < M64
    requires s.ports[i].inUse && s.ports[i].running && s.ports[i].portAddr != 0
    requires s.ports[j].inUse && s.ports[j].running && s.ports[j].portAddr != 0
    ensures Mix(s).ports[i].readIndex - s.ports[i].readIndex == Mix(s).ports[j].readIndex - s.ports[j].readIndex == 1
  {
    hide PortTimeOk;
    ConsumeAdvances(s.ports[i], s.counter);
    ConsumeAdvances(s.ports[j], s.counter);
    assert Mix(s).ports[i] == Consume(s.ports[i]) && Mix(s).ports[j] == Consume(s.ports[j]);
  }

  // ----- pacing: absolute deadlines without drift -----

  /** Deadline offset of block n in 100 ns units (`audio_pace_wait_block`). */
  function PaceOffset(n: nat): nat { n * 160000 / 3 }

  /** Offset of the guest timestamp of block n in microseconds. */
  function StampOffset(n: nat): nat { n * 256000000 / 48000 }

  /** The guest's timestamps and the pacing deadlines describe the same instants: the microsecond offset is
      the 100 ns offset divided by ten, and every three blocks are exactly 16 ms. */
  lemma StampsMatchPacing(n: nat)
    ensures StampOffset(n) == PaceOffset(n) / 10
    ensures PaceOffset(n + 3) == PaceOffset(n) + 160000
    ensures StampOffset(n + 3) == StampOffset(n) + 16000
    ensures 3 * PaceOffset(n) <= 160000 * n < 3 * PaceOffset(n) + 3
  {
  }

  /** The last tag whose product with 256000000 fits 64 bits. */
  const LAST_STAMPED: nat := 72057594037

  /** A timestamp is given for exactly the tags up to the counter, on an open port. */
  lemma TimestampIsGivenIff(s: State, startUs: U64, portNum: U32, tag: U64)
    ensures var status := Timestamp(s, startUs, portNum, tag).0;
            var open := portNum < |s.ports| && s.ports[portNum].inUse;
            && (status == Ok <==> open && tag <= s.counter)
            && (status == TagNotFound <==> open && tag > s.counter)
            && (status == NotOpen <==> portNum < |s.ports| && !open) && (status == ParamError <==> portNum >= |s.ports|)
  {
  }

  lemma Divided(product: nat, wrapped: nat)
    requires wrapped == product % M64
    ensures wrapped / 48000 <= product / 48000
    ensures wrapped / 48000 == product / 48000 <==> product < M64
  {
    assert product < M64 || wrapped + M64 <= product;
  }

  /** cellAudioGetPortTimestamp answers with that offset iff neither its 64-bit product nor the sum overflows. */
  lemma TimestampIsExactIff(s: State, startUs: U64, portNum: U32, tag: U64)
    requires Timestamp(s, startUs, portNum, tag).0 == Ok
    ensures Timestamp(s, startUs, portNum, tag).1 == startUs + StampOffset(tag)
       <==> tag <= LAST_STAMPED && startUs + StampOffset(tag) < M64
  {
    Divided(tag * 256000000, tag * 256000000 % M64);
  }

  /** The first tag beyond is answered with 384 microseconds, for twelve years of playing. */
  lemma TimestampWraps(s: State, portNum: U32)
    requires Timestamp(s, 0, portNum, LAST_STAMPED + 1).0 == Ok
    ensures Timestamp(s, 0, portNum, LAST_STAMPED + 1).1 == 384
    ensures StampOffset(LAST_STAMPED + 1) == 384307168202666
  {
  }
}
