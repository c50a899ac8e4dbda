# A static recompiler, proved

The repository turns PowerPC (PPU) and Cell SPU machine code into C and supplies the runtime that C runs on. This
project models the parts of both where a mistake is quiet, and proves what they promise. `dafny verify dfyconfig.toml`
checks everything.

## What is modelled

**The SPU region lifter** is a compiler. `SpuIsa` is the guest: an image of decoded instructions, registers, local
store and channels as one opaque side state, and one step of control flow (chapter 7 of the SPU Instruction Set
Architecture). `SpuRegions` cuts the image into regions, `SpuReturns` classifies `bi $r0`, `SpuLift` translates each
region into a small syntax of emitted statements, and `SpuHost` executes that syntax: region functions entered through
their switch, gotos, the pending trampoline, nested host calls, the drain loop, the dispatcher. `SpuSimulation` and
`SpuRuns` relate the two machines. The relation keeps, beside registers and memory, one host frame per live guest
call. The main theorem is exact for each step: the lifted code makes the guest's step *if and only if* a condition on
that step holds, and over runs the two machines stay together if and only if every step meets it.

**The reservation protocol** (`Reservation`) is a state machine over single memory accesses and lock operations of any
number of threads and an SPU side, which writes lines and marks them as reserved under the lock-line. Values are guest
bytes (`BigEndian`). `ReservationReport` compares what CR0 tells the guest with what memory saw; `ReservationScript` puts runs together; `ReservationMark` (counters) and `ReservationLock` (lock
words) are about the one moment that goes wrong: a line marked between a thread's membership test and its commit.

**PPU arithmetic** is modelled at the width of the emitted C: `CarryChain` (carry and overflow, multiword addition and
subtraction), `AlgebraicShift` (arithmetic right shifts and the carry they leave), `RotateMask` (masks and rotates; a C
word is its 32 or 64 bits), `VectorAccess` (unaligned loads and stores and the notifying store underneath).

**Fragment discovery** (`FunctionBounds`, `Discovery`, `DiscoveryPasses`, `DiscoveryClosure`, `DiscoveryDepth`,
`DiscoveryReach`, `DiscoveryCap`, `DiscoveryLifter`) turns branch targets into functions pass after pass. The passes are
functions on a state; the lifter object with its lists, sets and binary searches is proved to compute them.
`DiscoveryCode` models the control flow of the emitted C and of the guest and compares the recorded references to both.
`DiscoveryDepth` computes the result from the image and the bounds alone, as sets of ranges known after n rounds, free
of the order of lists; `DiscoveryReach` reads the trusted part of it as ways of references.

**The RSX command FIFO**: `FifoPublication` (repair helpers on ring offsets), `FifoAdmission` (when exactly each is
granted, on distances and word fields), `PreparedRun` (the batch consumer against
a memory that changes between any two accesses), `LiveGuestPtr` (the address resolver).

**The audio server**: `AudioServer` (the object and the functions it computes), `AudioCapacity` (the allocator),
`AudioSession` (theorems over any sequence of calls), `AudioExhaustion` (a sequence for which the window runs out).

**SPU ELF files**: `StructPack` (packing and unpacking), `SpuElf` (writer), `SpuElfReader` (reader), `SpuElfRoundTrip`,
`SpuElfBytes` (every header field written, by place and value), `SpuElfFields` (every field read), `SpuElfScan`
(embedded-image scanner).

`Basics` holds what several models share.

Where the source updates an object, the model is a class with those fields; where it loops, a method with a loop
proved against a function or an outright property.

## Where the code and the expectation part

Each of these is a theorem below.

- A branch to itself halts the lifted code only when no call is live; below a live call the emitted `return` resumes
  the caller, although the status already says stopped. The same goes for `stop`. A failing `heq`/`hgt`/`hlgt` does
  end the run at any depth. The comment at tools/spu_lifter.py:723-726 speaks of stopping the SPU. A program of three
  instructions shows both: a guest that hangs or stops inside a call is reported as stopped with the caller's code.
- `bisl` and `bisled` through their own link register branch to the next instruction: the link is written first.
- An indirect target is looked up as it stands in the register, while the guest clears the low bits and wraps it into
  local store; and a link address past the end of local store does not wrap. Both are in the exact step condition.
- A first GETLLAR may mark a line after a thread has found it unmarked and before its store. A conditional store caught
  there can report success and be lost, and a lock be handed out twice. For a counter and for a lock word the mark is
  harmless exactly when it catches no conditional store that would change the word, or when there is only one thread.
  Catching the holder of a lock before its releasing plain store is harmless. The counter and lock theorems allow the
  line to be marked at every harmless moment.
- A plain store caught there is copied without the lock-line all the same. It is the only step, other than a mark that
  catches a conditional store, after which a thread between compare and write may be wrong about the cell.
- The discovery driver stops after 30 passes, and no fixed number is enough. It comes to rest exactly when no address
  becomes a function in a later round; one that does is left over and becomes a no-op stub, although it may be trusted
  code. Where all that is lifted is trusted code, the round of an address is its distance in references from a function
  start. Chains of plausible addresses outside the trusted code count as well.
- A name gets two definitions when an extern is also lifted or overridden, and when an override was referenced but
  never lifted: the stub is still emitted.
- The "64-bit if seen" branch of the ELF scanner (tools/extract_spu_images.py:46) always raises, because some of its
  fields lie past the 52 bytes that were read; so does a 32-bit header whose table fits the buffer while its last
  20-byte entry does not. The scan ends in an exception exactly when such a header lies outside every image it found.
- An ELF entry of zero with a nonzero base means the base, and a symbol name is cut at its first NUL.
- Three ring sizes are safe for the audio window in every session; four are not. A free table of 32 entries can then be
  full when a port closes, its blocks are dropped, and a later open fails for memory with a port slot free.
- The 64-bit product behind an audio timestamp overflows from tag 72057594038 on, and every answer from there on is
  wrong.

## Model

| member | source | states |
|---|---|---|
| SpuRegions.FormRegions | tools/spu_lifter.py:267-300 | the regions partition a dense image; none is larger than the cap, every split address starts one, and no cut is needless |
| SpuRegions.TilingIsUnique | tools/spu_lifter.py:267-300 | those four demands leave exactly one region list, so they say everything about the result |
| SpuRegions.OwnerIsUnique | tools/spu_lifter.py:1088-1090 | bisect over the starts picks the one region that contains a pc |
| SpuRegions.EndIsStart | tools/spu_lifter.py:428-434 | running off a region inside the image lands on the start of its successor |
| SpuRegions.PcToRegion | tools/spu_lifter.py:1089-1090 | the map has exactly the image's addresses and sends each to the start of its containing region |
| SpuReturns.FindNearestWriter | tools/spu_lifter.py:207-216 | the last earlier instruction in the function that writes the register, or none does |
| SpuReturns.Classify | tools/spu_lifter.py:244-263 | a branch on r0 is a jump iff its nearest writer, through at most one identity move, is an address load |
| SpuReturns.ComputeBiR0Jumps | tools/spu_lifter.py:219-264 | the result is exactly the addresses of such jumps in the given bounds |
| SpuReturns.ComputedJumpHoldsLoadedValue | tools/spu_lifter.py:219-240 | with no transfer in between, r0 at a classified branch is exactly the value its load produced |
| SpuReturns.GuestRunsStraightLine | tools/spu_lifter.py:219-240 | the guest machine executes a straight-line stretch as the fold over its instructions |
| SpuReturns.ComputedJumpGoesToLoadedAddress | tools/spu_lifter.py:219-240 | so the guest machine, run from the load, takes the branch to the loaded address |
| SpuReturns.ReachesBiTarget | tools/find_spu_functions.py:204-232 | the forward scan succeeds iff the backward nearest-writer scan from the first branch on the register in the window finds the starting instruction |
| SpuReturns.WritesNothingElse | tools/spu_lifter.py:164-175 | an instruction changes no register but the one it is said to write |
| SpuIsa.TestsMean | tools/spu_lifter.py:895-909 | brz and brnz test the word, brhz and brhnz its low half |
| SpuIsa.ImmediatesMean | tools/spu_lifter.py:244-261 | the look-through instructions add in 32 bits and set bits |
| SpuIsa.BranchAddressMeans | tools/spu_lifter.py:821-845 | the guest's indirect branch keeps the word address inside local store |
| SpuIsa.CallsSetTheLink | tools/spu_lifter.py:731-760 | a call leaves the address behind it in its link register and goes to its target |
| SpuLift.LiftRegion | tools/spu_lifter.py:392-437 | one function covering the region: a switch case and the translation for every instruction, and the hand-off at its end |
| SpuLift.LiftRegions | tools/spu_lifter.py:1072-1092 | the program covers every pc of the image once, by its owning region, with returns classified over the given bounds |
| SpuLift.LiftIsComplete | tools/spu_lifter.py:1088-1092 | tiling, owner map and per-region translation together make a complete lift |
| SpuLift.ReturnsAreUnclassified | tools/spu_lifter.py:821-881 | a return is emitted for exactly the branches through r0, alone or conditional, that are not classified as jumps |
| SpuHost.EmittedCodeIsSafe | tools/spu_lifter.py:720-892 | every emitted goto has its label and every emitted hand-off or call stores a pc of the region it enters |
| SpuHost.ReachableInvariant | runtime/spu/spu_context.h:517-544 | in every reachable state host_depth equals the height of the host call stack |
| SpuHost.SwitchDefaultUnreachable | tools/spu_lifter.py:404-414 | a region function is entered only with ctx->pc among its cases |
| SpuHost.OnlyCallsGrowTheStack | tools/spu_lifter.py:756-791 | a host step adds a frame iff it executes a call site, and then exactly one |
| SpuHost.ChannelShowsItsPc | tools/spu_lifter.py:703-718 | in every reachable state about to perform a channel operation the context's pc is that operation's address |
| SpuSimulation.LiftedStepMatchesIffAgrees | tools/spu_lifter.py:720-881 | from related states the lifted code reaches the guest's next state at its next label iff the step meets the stated condition |
| SpuRuns.RunsMatchIffAllAgree | tools/spu_lifter.py:392-437 | over any number of guest steps the machines agree at every step iff every step meets the condition |
| SpuRuns.LiftedProgramFollowsGuest | runtime/spu/spu_channels.c:127-148 | from the driver's start the lifted program's labels are exactly the guest's states in order, with one frame per live call |
| SpuRuns.ToLabelSteps | runtime/spu/spu_context.h:517-523 | moving to the next label is a number of single host steps that pass no other label |
| SpuRuns.StopEndsTheRunIffNoCallIsLive | runtime/spu/spu_channels.c:141-149 | a stop sets the status and ends the run iff no call is live; otherwise the innermost caller resumes, with the outer calls still live |
| SpuRuns.HaltEndsTheRun | runtime/spu/spu_channels.c:119-125 | a failing halt instruction ends the run at any call depth, with the guest's registers |
| SpuRuns.SelfBranchHalts | tools/spu_lifter.py:721-730 | the guest hangs on a self-branch for ever; the lifted code reports a halt there, finished iff no call is live, else back in the caller |
| SpuRuns.SelfCallHalts | tools/spu_lifter.py:737-750 | a call of itself likewise, with its link set and its own address as the pc |
| SpuRuns.HangInACallComesBack | tools/spu_lifter.py:721-730 | every lift of `brsl`, `stop`, self-branch reaches the hang one call deep, comes back from it and stops with the caller's code |
| SpuRuns.StopInACallIsReplaced | runtime/spu/spu_channels.c:141-149 | every lift of `brsl`, `stop 1`, `stop code` ends as stop 1 where the guest stops with its own code |
| SpuRuns.SelfLinkedBranchDiverges | tools/spu_lifter.py:845-870 | `bisl`, or `bisled` with an event pending, through its own link register leaves the guest's path |
| Reservation.Cr0Meaning | yakuza/shims.cpp:189-193 | CR0 is 0b00, the given bit and XER[SO]; the other CR fields stay |
| ReservationReport.EffectIsTheStore | yakuza/shims.cpp:195-216 | a step of a conditional store changes memory at its address to its value, exactly when it is the effective one, and nowhere else |
| ReservationReport.PlainIsTheStore | yakuza/shims.cpp:89-101 | a plain store writes its bytes to its address in its copy step, and no other step of it writes |
| ReservationReport.RefusedAtOnce | yakuza/shims.cpp:199 | without a reservation of the address nothing is stored |
| ReservationReport.ReservedGoesOn | yakuza/shims.cpp:170-202 | after lwarx of the address the store goes on with the bytes lwarx read as the expected ones |
| ReservationReport.EndReports | yakuza/shims.cpp:189-220 | when a conditional store is over, CR0[EQ] is set iff it took effect, SO is XER's, the rest of CR stays and the reservation is gone |
| ReservationReport.CrStays | yakuza/shims.cpp:189-220 | no other step changes CR |
| ReservationReport.GuestIsTold | yakuza/shims.cpp:195-220 | in every run a thread sees CR0[EQ] set once for each store of its that took effect, and not otherwise |
| Reservation.MarkIsOneLine | runtime/spu/spu_dma.h:727-730 | a mark adds one aligned 128-byte line and takes nothing away |
| Reservation.ProtocolKept | yakuza/shims.cpp:195-220 | every step of every thread and of the SPU keeps the lock-line discipline |
| Reservation.CompareAndWriteIsAtomic | yakuza/shims.cpp:203-210 | while one thread is between compare and write, nothing else changes the cell, no thread, no SPU write, whatever is marked, but a plain store of other bytes that a mark overtook between its test and its copy |
| Reservation.LateOnlyByMark | runtime/spu/spu_dma.h:727-730 | a plain store gets into that position only by the first mark of its line |
| Reservation.CellKeptIff | yakuza/shims.cpp:89-100 | a thread between compare and write always still sees the value it compared: a step keeps this, SPU writes of the cell included, iff it is no mark that catches a changing conditional store and no such late copy |
| Reservation.CounterKept | yakuza/shims.cpp:195-220 | every step but a mark that catches a conditional store keeps the counting invariant of a cell stored to only by retry loops |
| Reservation.CounterIsExact | yakuza/shims.cpp:170-220 | in every interleaving, with its line marked at any harmless moment, the cell is its first value plus the committed amounts, modulo its width |
| Reservation.LockKept | yakuza/shims.cpp:195-220 | every step but a mark that catches a taker keeps "the lock word is one iff it has its single holder", marks that catch the releasing holder included |
| Reservation.NeverTwoHolders | yakuza/shims.cpp:158-168 | in every such interleaving a lock word taken this way has at most one holder, despite ABA |
| ReservationMark.MarkingIsSafeIff | runtime/spu/spu_dma.h:727-730 | marking the counter's line keeps every later state exact iff it catches no thread between an unmarked test and its commit, or there is one thread |
| ReservationMark.CaughtUpdateIsLost | yakuza/shims.cpp:203-213 | if it catches one and there is another, a continuation in which the counter is used as one reports the caught update as done and loses exactly that update |
| ReservationMark.MarkingCanLoseAnUpdate | runtime/spu/spu_channels.c:495-519 | a whole run from two idle threads: the line is marked once and the counter ends one short |
| ReservationLock.LockMarkingIsSafeIff | runtime/spu/spu_dma.h:727-730 | marking a lock word's line leaves every continuation with at most one holder iff it catches no thread between an unmarked test and its store-conditional, or there is one thread |
| ReservationLock.ExposedIsTaking | yakuza/shims.cpp:203-213 | those threads are exactly the ones whose operation there is conditional |
| ReservationLock.CaughtLockIsHeldTwice | yakuza/shims.cpp:203-213 | from any sound state, held or free, that catches one with another thread there, a continuation in which the lock is used as one gives it to both |
| ReservationLock.MarkingCanShareALock | runtime/spu/spu_channels.c:495-519 | a whole run from two idle threads and a free lock: the line is marked once and both hold it |
| ReservationScript.RunToRest | yakuza/shims.cpp:195-220 | any thread can finish its operation by itself, keeping its discipline |
| CarryChain.CarryIsExact | tools/ppu_lifter.py:1448-1511 | result and CA of each add and subtract form are its exact unbounded sum, for all operands and aliasing; no other register and no other XER bit moves |
| CarryChain.OverflowIsExact | tools/ppu_lifter.py:1451-1484 | OV of addeo and subfeo is set iff the signed result does not fit, and SO is sticky |
| CarryChain.MullwoIsExact | tools/ppu_lifter.py:611-626 | the exact 64-bit product of the low words; OV iff it does not fit 32 bits; no other register, CA or XER bit moves |
| CarryChain.MulldoIsExact | tools/ppu_lifter.py:1415-1430 | the low half of the signed product; OV iff it does not fit 64 bits; no other register, CA or XER bit moves |
| CarryChain.SignedMeans | tools/ppu_lifter.py:611-626 | the signed readings of a register and of its low word are the numbers of their ranges that agree with it modulo 2^64 and 2^32 |
| CarryChain.MultiwordAddIsExact | tools/ppu_lifter.py:1448-1502 | addc followed by any number of adde is the exact multiword sum with CA as its carry-out |
| CarryChain.MultiwordSubtractIsExact | tools/ppu_lifter.py:1472-1511 | subfc followed by any number of subfe is the multiword difference, CA set iff there is no borrow |
| RotateMask.LiftMaskBelow | tools/ppu_lifter.py:317-326 | a folded mask fits its 64-bit literal |
| RotateMask.MasksAgree | tools/ppu_lifter.py:2791-2800 | folded mask, runtime mask and MASK(mb, me) agree in every bit, wrapping or not |
| RotateMask.WordRotationBits | tools/ppu_lifter.py:2744-2747 | the duplicated 32-bit rotation is the rotation of the word written twice |
| RotateMask.NumberOfLiteral | tools/ppu_lifter.py:317-326 | a 64-bit number is the number its register's bits spell |
| RotateMask.LiteralOfNumber | tools/ppu_lifter.py:317-326 | and a register is the literal of its number |
| RotateMask.CountsAreRemainders | tools/ppu_lifter.py:798-809 | counts taken from a register are its number modulo 32 and 64 |
| RotateMask.RotateIsExact | tools/ppu_lifter.py:743-814 | each bit of every rotate result is the operand's, rotated by the immediate or by the register's number modulo 32 or 64, inside the mask, and ra's own (inserts) or zero outside; no other register moves |
| RotateMask.WordMaskZeroExtends | tools/ppu_lifter.py:736-742 | an unwrapped word mask zero-extends; a wrapped one passes the rotated copy in the high word |
| AlgebraicShift.ShiftIsExact | tools/ppu_lifter.py:2820-2833 | sraw, srawi, srad and sradi for all operands and counts: the 64-bit register is the operand divided by the power of two and rounded down, CA set iff a negative one lost a one, OV, SO and the other registers as before |
| AlgebraicShift.ShiftThenAddzeDivides | tools/ppu_lifter.py:2817-2819 | the shift followed by addze of the carry it left is division rounded toward zero |
| AlgebraicShift.RemainderIsLostOnes | tools/ppu_lifter.py:2817-2830 | a nonzero remainder means exactly that some shifted-out bit is a one |
| VectorAccess.MergeLoadsTheWindow | tools/ppu_lifter.py:1797-1820 | lvlx(ea) or'ed with lvrx(ea + 16) is the sixteen bytes at ea, for every address |
| VectorAccess.PermuteLoadsTheWindow | tools/ppu_lifter.py:1869-1897 | so is vperm of two aligned loads under lvsl(ea), with the second at ea + 15 or ea + 16 |
| VectorAccess.LoadsFillWithZeros | tools/ppu_lifter.py:1797-1820 | each half load alone is its part of the sixteen bytes and zeros |
| VectorAccess.HalfStores | tools/ppu_lifter.py:1822-1843 | each half store alone writes its bytes of the quadword and no others |
| VectorAccess.PermuteTakesARow | tools/ppu_lifter.py:1869-1897 | vperm under lvsl or lvsr takes sixteen bytes in a row of any two operands |
| VectorAccess.RotationsCancel | tools/ppu_lifter.py:1869-1897 | vperm under lvsr and then under lvsl gives a vector back |
| VectorAccess.PairStoresTheWindow | tools/ppu_lifter.py:1822-1843 | stvlx then stvrx changes exactly those sixteen bytes, and every unaligned load reads the vector back |
| VectorAccess.Vm.WriteBytes | yakuza/shims.cpp:129-154 | writes exactly the given bytes and leaves the stated trace, or does nothing when empty or past 4 GB |
| VectorAccess.Vm.AnyReserved | yakuza/shims.cpp:136-142 | the first line loop sees a reserved line iff one of the range is reserved |
| VectorAccess.Vm.NotifyReserved | yakuza/shims.cpp:146-150 | the second adds one notice per reserved line of the range, in order |
| VectorAccess.Vm.Stvlx | tools/ppu_lifter.py:1827-1834 | the leading bytes up to the end of the quadword |
| VectorAccess.Vm.Stvrx | tools/ppu_lifter.py:1836-1843 | the trailing bytes from the start of the quadword, none when aligned |
| VectorAccess.StoreNotifiesExactly | yakuza/shims.cpp:136-151 | notified are exactly the reserved lines holding a stored byte, each once and ascending; the lock is taken iff there is one |
| VectorAccess.LineOfMeans | yakuza/shims.cpp:136-137 | lines are 128 bytes, aligned |
| VectorAccess.StoreIsBracketed | yakuza/shims.cpp:143-153 | a store that touches a reserved line locks, copies, notifies, unlocks and tells the watchers, in this order; any other takes no lock |
| VectorAccess.PairNotifiesExactly | yakuza/shims.cpp:129-154 | the two stores of a pair notify exactly the reserved lines holding one of the sixteen bytes |
| FunctionBounds.Detector.ClipOverlaps | tools/find_functions.py:447-464 | the new ends are the clipped ones, start by start, and the answer is how many ranges ran past the next start |
| FunctionBounds.ClippedIsDisjoint | tools/find_functions.py:447-464 | after clipping no range is empty and none reaches another's start |
| FunctionBounds.ClippedKeepsSound | tools/find_functions.py:447-464 | ranges that were already disjoint and non-empty are unchanged |
| FunctionBounds.BoundsOfMeaning | tools/find_functions.py:499 | the list handed on is the map's entries by ascending start |
| FunctionBounds.MergeSpans | tools/ppu_lifter.py:2527-2542 | merged spans are separated and cover exactly the given ranges |
| Discovery.ContainersShareTheEnd | tools/ppu_lifter.py:2602-2617 | all functions around an address end together, so which one a search finds does not matter |
| Discovery.CodeTargetHasContainer | tools/ppu_lifter.py:2633-2634 | an undefined target in trusted code has a container, so clamping to the code span never bites |
| Discovery.LiftedEnd | tools/ppu_lifter.py:2619-2676 | a lifted target runs to its container's end, or to the next function |
| DiscoveryPasses.PassKeeps | tools/ppu_lifter.py:2560-2679 | every pass keeps "two ranges are disjoint or share an end", distinct starts, coverage and the universe of addresses |
| DiscoveryPasses.NewVersusNew | tools/ppu_lifter.py:2598-2676 | two ranges lifted in one pass against the same snapshot are disjoint or share an end |
| DiscoveryClosure.InitialKept | tools/ppu_lifter.py:3511-3517 | discovery begins inside that invariant, from disjoint bounds and no instruction referenced past the last function |
| DiscoveryClosure.PassesComeToRest | tools/ppu_lifter.py:3524-3542 | any number of passes keeps it, and as many as there is room for functions reach a fixpoint |
| DiscoveryClosure.RestIsClosed | tools/ppu_lifter.py:2619-2670 | at the fixpoint an undefined target lies outside trusted code and is no instruction, too far from the next function or implausible |
| DiscoveryClosure.DiscoveryRecords | tools/ppu_lifter.py:1053-1071 | every function a lifted body refers to stays recorded as a target |
| DiscoveryCode.RecordedIsNamed | tools/ppu_lifter.py:1043-1140 | a range's recorded references are exactly the func_ symbols its emitted code names |
| DiscoveryCode.RefsAreExits | tools/ppu_lifter.py:496-510 | and exactly the addresses the guest may go to from it, outside of it or by a call |
| DiscoveryClosure.DefinitionCount | tools/ppu_lifter.py:2957-2969 | how often a referenced name and its renamed body are defined in the whole link |
| DiscoveryClosure.OneDefinitionIff | tools/ppu_lifter.py:2690-2710 | exactly once iff no extern is also lifted or overridden and every override was lifted |
| DiscoveryDepth.PassGrants | tools/ppu_lifter.py:2619-2676 | what a pass decides on a target follows from the set of ranges alone: trusted code to its bound's end, others to a surrounding range's end or a near next start |
| DiscoveryDepth.DiscoveryIsKnown | tools/ppu_lifter.py:3528-3537 | after n passes the functions and the recorded references are exactly the ranges known after n rounds and what they refer to |
| DiscoveryDepth.AtRestIff | tools/ppu_lifter.py:3528-3537 | n passes come to rest iff no address becomes a function in a later round |
| DiscoveryReach.ReachIsByPaths | tools/ppu_lifter.py:1053-1071 | an address is within n references iff some way of at most n references leads to it |
| DiscoveryReach.ReachIsKnown | tools/ppu_lifter.py:3528-3537 | in any program a trusted address within n references through trusted code is a function after n rounds |
| DiscoveryReach.KnownIsReachIff | tools/ppu_lifter.py:2619-2676 | the functions after n rounds start exactly at the addresses within n references iff all of them are trusted code |
| DiscoveryReach.SettledIsTrusted | tools/ppu_lifter.py:2636-2665 | they are when everything referred to on the way is trusted, no instruction, or implausible |
| DiscoveryReach.DepthIsDistance | tools/ppu_lifter.py:2619-2676 | while they are, the round of an address is the length of a shortest way of references |
| DiscoveryCap.DriverComesToRestIff | tools/ppu_lifter.py:3529-3532 | so for the driver's 30 |
| DiscoveryCap.DeeperIsLeftOver | tools/ppu_lifter.py:2690-2710 | an address one deeper than the passes is referenced and undefined, and one more pass would lift it |
| DiscoveryCap.NoCapSuffices | tools/ppu_lifter.py:3528-3537 | for every cap a program that meets every demand of the driver and whose trusted code holds an address one deeper |
| DiscoveryCap.ThirtyPassesAreNotEnough | tools/ppu_lifter.py:3529-3532 | in particular for the driver's 30 |
| DiscoveryLifter.FindContainer | tools/ppu_lifter.py:2602-2617 | the binary search finds a function strictly around the target iff there is one |
| DiscoveryLifter.FindSpan | tools/ppu_lifter.py:2544-2554 | the code test and the span end by bisect equal a search of all spans |
| DiscoveryLifter.Probe | tools/ppu_lifter.py:2643-2665 | the 16-instruction probe accepts iff nothing undecodable precedes the first unconditional transfer |
| Discovery.PlausibleMeans | tools/ppu_lifter.py:2643-2665 | an address passes iff an instruction is there and among the sixteen from it nothing undecodable comes before the first unconditional transfer |
| Discovery.PastTheLastFunction | tools/ppu_lifter.py:2619-2635 | past the last function a target would run 0x1000 bytes |
| DiscoveryLifter.Lifter.LiftFunction | tools/ppu_lifter.py:397-510 | adds the range and exactly its outside targets, calls and fall-through |
| DiscoveryLifter.Lifter.Decide | tools/ppu_lifter.py:2602-2669 | the search-based decision on one target equals the plain one |
| DiscoveryLifter.Lifter.GenerateMidFunctionEntries | tools/ppu_lifter.py:2560-2679 | one call is one pass, and returns how many functions it added |
| DiscoveryLifter.Lifter.Discover | tools/ppu_lifter.py:3528-3537 | the driver computes at most 30 passes and keeps the invariant |
| DiscoveryLifter.LiftAll | tools/ppu_lifter.py:3461-3537 | from detected bounds: lift, discover, invariant kept, references recorded |
| DiscoveryLifter.ClippedBoundsAreDisjoint | tools/find_functions.py:493-499 | any map of starts and ends, once clipped, meets the lifter's demand on its bounds |
| DiscoveryLifter.LiftDetected | tools/find_functions.py:447-499 | from a detector's raw, overlapping ranges: clip, merge, lift, discover, in one |
| FifoPublication.EveryRepairIsSafe | include/ps3emu/yz_fifo_publication.h:10-350 | every nonzero answer of a helper that takes PUT is an aligned ring offset strictly ahead of GET and strictly before PUT |
| FifoAdmission.FlowBits | include/ps3emu/yz_fifo_publication.h:192-196 | old JUMP, JUMP, CALL and RETURN words by their fields |
| FifoAdmission.MethodBits | include/ps3emu/yz_fifo_publication.h:197-199 | a method header by its fields |
| FifoAdmission.HeadIsReleasedIff | include/ps3emu/yz_fifo_publication.h:10-30 | the startup release is granted iff GET stands at 0x1000 on a jump to itself with less than half a ring published |
| FifoAdmission.RegisteredIslandIff | include/ps3emu/yz_fifo_publication.h:35-61 | a recorded island is passed iff it begins at GET, ends in the window within 64 KB and before PUT |
| FifoAdmission.InlineIslandIff | include/ps3emu/yz_fifo_publication.h:68-101 | a jump over a payload likewise, with the payload within four words of the jump |
| FifoAdmission.InteriorIff | include/ps3emu/yz_fifo_publication.h:142-166 | a consumer in the payload is taken to the end iff the island would be passed from its jump |
| FifoAdmission.ConstantTailIff | include/ps3emu/yz_fifo_publication.h:179-214 | a constant tail moves two words, never from a flow word or header, with the eleven words of the prologue check published |
| FifoAdmission.ProgramTailIff | include/ps3emu/yz_fifo_publication.h:223-245 | a program tail moves three words, with the draw-end pair published |
| FifoAdmission.InlineCandidateIff | include/ps3emu/yz_fifo_publication.h:257-291 | an inline gap is passed iff the boundary, the candidate's place and the prologue's publication are as demanded, mapped flow words never |
| FifoAdmission.PostDrawIff | include/ps3emu/yz_fifo_publication.h:304-336 | so for the gap behind a draw |
| FifoAdmission.InlineGapMoves | include/ps3emu/yz_fifo_publication.h:339-350 | the fixed gap is ten words and never passes a flow word |
| FifoPublication.BlockMoveIffNextBlock | include/ps3emu/yz_fifo_publication.h:364-390 | a block move is granted iff its goal lies in the block right after the tail, counted around the ring, with no flow word at the tail |
| FifoPublication.BlockTailMovesToItsStart | include/ps3emu/yz_fifo_publication.h:392-403 | the fixed form goes to that block's first word iff a move there is granted, which it never is at the wrap to offset 0 |
| FifoPublication.RepairConsumes | include/ps3emu/yz_fifo_publication.h:10-350 | a repair takes what it passes over, at least a word, off the distance to the producer |
| FifoPublication.RepairsNeverOvertake | include/ps3emu/yz_fifo_publication.h:10-350 | over any run of repairs and publications the producer stays ahead, bytes ahead and consumed balance bytes ahead before and published, and n repairs consume at least 4n |
| FifoPublication.InteriorIsComplete | include/ps3emu/yz_fifo_publication.h:142-166 | when the source query accepts an island, the interior query accepts at every payload offset with the same resume point |
| FifoPublication.MemberIsInteriorAtStart | include/ps3emu/yz_fifo_publication.h:108-133 | the exact-start query equals the interior query at the payload start, accepted or refused |
| FifoPublication.RecoveryIsConfluent | include/ps3emu/yz_fifo_publication.h:68-166 | recoveries of one island from different offsets meet at the same word |
| PreparedRun.RunPreparedBlocks | yakuza/rsx_prepared_run.h:11-35 | retires exactly the packets of the specification and leaves GET after the last |
| PreparedRun.DecodePacket | yakuza/rsx_prepared_run.h:18-30 | one pass of the loop admits and reads exactly the packet of the specification |
| PreparedRun.CountIsItsField | yakuza/rsx_prepared_run.h:22 | the argument count is bits 18 to 28 of the header |
| PreparedRun.FitsMeans | yakuza/rsx_prepared_run.h:28-29 | a packet fits iff it ends before a PUT ahead of it, in 32 bits and in the megabyte it begins in |
| PreparedRun.PacketIsRead | yakuza/rsx_prepared_run.h:18-30 | an admitted packet is the header at GET and the words behind it in order, checked and sampled as stated |
| PreparedRun.PacketIsRefused | yakuza/rsx_prepared_run.h:18-30 | and one that passes the checks is refused only by its words' read or their execution |
| PreparedRun.BatchIsBounded | yakuza/rsx_prepared_run.h:22-29 | packets are contiguous and each fits its page, the buffer, the 32-bit space and its own PUT; together the 64/4096 budgets |
| PreparedRun.EarlierPacketsIgnoreTheFuture | yakuza/rsx_prepared_run.h:5-10 | two memories that agree until packet k is published give the same first k + 1 packets |
| PreparedRun.BatchRefinesOneAtATime | yakuza/rsx_prepared_run.h:11-35 | the batch is the packet-at-a-time run, cut short |
| PreparedRun.BatchStopsForAReason | yakuza/rsx_prepared_run.h:17-33 | it ends only at a refused packet, a reported change or a full budget |
| LiveGuestPtr.Resolver.LiveGuestPtr | yakuza/import_overrides.cpp:429-484 | for each location, a pointer comes back iff the whole interval is there, and it is the first byte's |
| LiveGuestPtr.Resolver.MainMemory | yakuza/import_overrides.cpp:452-479 | checking the first byte, the last and each page start decides that every byte maps to the first address plus its offset |
| LiveGuestPtr.PageMapsInLine | yakuza/import_overrides.cpp:379-386 | a mapped megabyte of io space is guest memory in line from its entry on, an unmapped one nothing |
| LiveGuestPtr.LocalMemoryEnds | yakuza/import_overrides.cpp:434-440 | RSX local memory is 249 MB and ends at 0xCF900000 |
| LiveGuestPtr.PageCompleted | yakuza/import_overrides.cpp:466-478 | a matching next page start means the rest of this page is mapped in line |
| LiveGuestPtr.LastPageCompleted | yakuza/import_overrides.cpp:456-464 | a matching last byte means the rest of the interval is |
| AudioServer.Server.VmAlloc | libs/audio/cellAudio.c:126-148 | exact-size reuse first, else the bump cursor, else 0 |
| AudioServer.Server.VmFree | libs/audio/cellAudio.c:150-162 | into the first empty entry; dropped only when the table is full |
| AudioServer.Server.PortOpen | libs/audio/cellAudio.c:688-778 | status, port and both blocks, with every error path |
| AudioServer.Server.PortClose | libs/audio/cellAudio.c:780-809 | both blocks go back and the slot is free |
| AudioServer.Server.PortStart | libs/audio/cellAudio.c:811-827 | runs an open stopped port, else the stated error |
| AudioServer.Server.PortStop | libs/audio/cellAudio.c:829-845 | stops a running port, else the stated error |
| AudioServer.RunningIsSet | libs/audio/cellAudio.c:811-845 | each status of starting and stopping iff its cause; a success leaves the port as asked and nothing else changes |
| AudioServer.CommitsOnce | libs/audio/cellAudio.c:126-148 | the window is committed at the first allocation only, and a refusal there changes nothing |
| AudioServer.OpenGives | libs/audio/cellAudio.c:688-778 | each status of opening iff its cause; a success leaves a stopped port with what was asked for in the first free slot |
| AudioServer.CloseGives | libs/audio/cellAudio.c:780-809 | an open port is gone, stopped and without addresses, and no other port changes |
| AudioServer.MixGives | libs/audio/cellAudio.c:366-427 | mixing moves the counter by one and every running port with a ring by one slot, and nothing else |
| AudioServer.Server.MixOneBlock | libs/audio/cellAudio.c:366-427 | one counter tick and one block from every running port, published modulo its ring |
| AudioServer.Server.GetPortBlockTag | libs/audio/cellAudio.c:977-1008 | the tag of a ring slot, with every error path |
| AudioCapacity.TakeKeepsSound | libs/audio/cellAudio.c:126-148 | an allocation keeps all live and free blocks disjoint, aligned and in the window |
| AudioCapacity.PutKeepsSound | libs/audio/cellAudio.c:150-162 | so does a release |
| AudioCapacity.FitsTheWindow | libs/audio/cellAudio.c:110-124 | eight blocks of each of three ring sizes and of the index size fit 4 MB and leave the table room |
| AudioCapacity.TotalBySize | libs/audio/cellAudio.c:115-124 | the bytes and the empty entries of the table follow from its counts by size |
| AudioCapacity.TakeSucceeds | libs/audio/cellAudio.c:126-148 | with fewer than eight blocks of the size live, an allocation succeeds and keeps the bound |
| AudioCapacity.PutKeepsBound | libs/audio/cellAudio.c:150-162 | a release finds an empty entry and keeps the bound |
| AudioCapacity.OpenKeepsSound | libs/audio/cellAudio.c:731-778 | opening keeps every block apart, also when it fails |
| AudioCapacity.OpenSucceeds | libs/audio/cellAudio.c:731-778 | with a free slot and one of three ring sizes an open succeeds |
| AudioCapacity.CloseKeepsSound | libs/audio/cellAudio.c:780-809 | closing keeps every block apart |
| AudioCapacity.CloseKeepsBounded | libs/audio/cellAudio.c:795-805 | closing loses no block |
| AudioSession.BlocksStayApart | libs/audio/cellAudio.c:110-162 | in every session live and free blocks are pairwise disjoint, 128-byte aligned and inside the window |
| AudioSession.SessionIsBounded | libs/audio/cellAudio.c:115-124 | with three ring sizes at most eight blocks of each are ever bumped and none is lost |
| AudioSession.OpensNeverRunOut | libs/audio/cellAudio.c:753-764 | in such a session an open never fails for memory: it succeeds iff its parameters are valid and a slot is free |
| AudioSession.ClosesNeverDrop | libs/audio/cellAudio.c:150-162 | and a close never drops a block |
| AudioExhaustion.AllocDraws | libs/audio/cellAudio.c:126-148 | an allocation succeeds iff the table has a block of the size or the window room, and moves exactly one count |
| AudioExhaustion.FreeReturns | libs/audio/cellAudio.c:150-162 | a release moves exactly one count, or nothing when no entry is empty |
| AudioExhaustion.FourSizesRunOut | libs/audio/cellAudio.c:115-162 | a session with four ring sizes in which a close gives neither block back and a later open with a free slot answers out-of-memory |
| AudioSession.TimelineHolds | libs/audio/cellAudio.c:366-427 | in every session the counter is the number of mixed blocks and never behind a port's read index |
| AudioSession.TagsFollowTheCounter | libs/audio/cellAudio.c:998-1001 | tags never underflow, and the current slot's tag is the counter |
| AudioSession.RunningPort | libs/audio/cellAudio.c:366-427 | over any run that leaves a port running, its read index and ring place advance one per mixed block, whatever else is called |
| AudioSession.TagsAdvanceByRevolution | libs/audio/cellAudio.c:998-1001 | over any such run a slot's tag grows by nBlock for each wrap of the read index, and by nothing else |
| AudioSession.PortsAdvanceTogether | libs/audio/cellAudio.c:366-427 | all running ports consume one block per tick |
| AudioSession.StampsMatchPacing | libs/audio/cellAudio.c:506-511 | the timestamp offset is the 100 ns pacing offset divided by ten, and three blocks are exactly 16 ms |
| AudioSession.TimestampIsExactIff | libs/audio/cellAudio.c:1010-1037 | the answer is start plus that offset iff the tag is at most 72057594037 and the sum fits 64 bits |
| AudioSession.TimestampIsGivenIff | libs/audio/cellAudio.c:1010-1036 | a timestamp is given for exactly the tags up to the counter on an open port, else the stated error |
| AudioSession.TimestampWraps | libs/audio/cellAudio.c:1037 | the next tag is answered with 384 microseconds |
| StructPack.UnpackPack | tools/wrap_spu_elf.py:45-72 | unpacking a packed record gives back its values, for every list of field widths |
| StructPack.UnpackTable | tools/find_spu_functions.py:75-91 | the table loop reads row by row and fails iff some row runs past the file |
| StructPack.RowsAt | tools/find_spu_functions.py:84-91 | reading a table wherever it lies gives back the rows it was written from |
| SpuElf.BuildStrTab | tools/wrap_spu_elf.py:75-85 | the growing buffer and dictionary are the table of the names seen so far |
| SpuElf.NamesPlaced | tools/wrap_spu_elf.py:75-85 | every name is at its offset, terminated, shared when repeated |
| SpuElf.LayOut | tools/wrap_spu_elf.py:100-166 | the moving cursor gives the offsets and section rows of the layout |
| SpuElf.Wrap | tools/wrap_spu_elf.py:88-183 | the image when every value fits its field and every name is ASCII, else an error |
| SpuElf.ImageParts | tools/wrap_spu_elf.py:168-183 | where header, program header, code and tables lie, for an image anywhere in a buffer |
| SpuElf.ImageLength | tools/wrap_spu_elf.py:136-183 | the image ends with its section headers |
| SpuElfReader.ParseElf | tools/find_spu_functions.py:56-109 | header checks in order, both tables, section names; any short read is an error |
| SpuElfReader.PickText | tools/find_spu_functions.py:134-139 | the first loadable executable segment |
| SpuElfReader.ReadSymbols | tools/find_spu_functions.py:112-131 | the function symbols of every symbol section, in order, or an error |
| SpuElfRoundTrip.PackableIff | tools/wrap_spu_elf.py:45-72 | wrapping succeeds iff names are ASCII (codes up to 127) and base, entry, symbols and the section-header offset fit 32 bits |
| SpuElfRoundTrip.ImageIsParsed | tools/find_spu_functions.py:56-109 | the reader accepts every image and sees the writer's own tables |
| SpuElfRoundTrip.SymbolsRead | tools/find_spu_functions.py:112-131 | every symbol comes back in order |
| SpuElfRoundTrip.RoundTrip | tools/wrap_spu_elf.py:88-183 | for every packable input the reader gives back text bytes, base, entry and symbols |
| SpuElfRoundTrip.SectionNamesRead | tools/find_spu_functions.py:93-107 | and the section names |
| SpuElfRoundTrip.EntrySurvivesIff | tools/wrap_spu_elf.py:97-98 | the entry is the one given iff it is nonzero or the base is zero |
| SpuElfRoundTrip.SymbolSurvivesIff | tools/find_spu_functions.py:126-130 | a symbol is the one given iff its name holds no NUL |
| SpuElfBytes.WordIsBigEndian | tools/wrap_spu_elf.py:45-72 | packed words have their most significant byte first |
| SpuElfBytes.HeaderFields | tools/wrap_spu_elf.py:45-56 | the identification bytes and every header field at its offset, machine 23 among them |
| SpuElfBytes.SegmentFields | tools/wrap_spu_elf.py:59-62 | every field of the one program header, and the code at byte 96 |
| SpuElfBytes.SectionField | tools/wrap_spu_elf.py:65-69 | field i of section header k at its offset |
| SpuElfBytes.SectionsInFull | tools/wrap_spu_elf.py:136-166 | the section headers column by column |
| SpuElfBytes.SectionNamesSpell | tools/wrap_spu_elf.py:128-131 | the section names letter by letter |
| SpuElfBytes.SymbolInFull | tools/wrap_spu_elf.py:115-121 | symbols are global functions of section 1, behind an empty one |
| SpuElfBytes.PaddingIsZero | tools/wrap_spu_elf.py:168-183 | the gaps before the code and before the section headers are zeros |
| SpuElfFields.SegmentIsRead | tools/find_spu_functions.py:65-82 | the fields of program header k of any parsed file are those at its offset in the table |
| SpuElfFields.SectionIsRead | tools/find_spu_functions.py:84-93 | the fields of section header k of any parsed file, and how many there are |
| SpuElfFields.TextIsFirst | tools/find_spu_functions.py:134-139 | the first loadable executable segment is the text, and without one there is an error |
| SpuElfFields.NameEnds | tools/find_spu_functions.py:99-104 | a name runs to the first NUL, and without one its last byte is lost |
| SpuElfFields.FunctionsInOrder | tools/find_spu_functions.py:121-131 | the symbols are the entries of function type, in order |
| SpuElfScan.ParseSize | tools/extract_spu_images.py:29-82 | no image, the size from its tables, or an exception |
| SpuElfScan.FindSpuImages | tools/extract_spu_images.py:85-97 | the scan loop yields exactly the hits of its specification |
| SpuElfScan.SizeIsLargestEnd | tools/extract_spu_images.py:62-82 | the size of a 32-bit image is the largest end of its tables and loadable segments |
| SpuElfScan.SizeIsLength | tools/extract_spu_images.py:62-82 | anywhere in a buffer, the size read from a wrapped image is its length |
| SpuElfScan.ScanFindsExactly | tools/extract_spu_images.py:85-97 | from any position, images between magic-free padding are found exactly, whatever their code contains |
| SpuElfScan.ScanOfConcatenation | tools/extract_spu_images.py:85-97 | so for a whole buffer of images and padding |
| SpuElfScan.SizeRaisesIff | tools/extract_spu_images.py:46-78 | reading the size raises iff an accepted header is of another class, or its table fits the buffer and its last entry does not |
| SpuElfScan.ScanRaisesIff | tools/extract_spu_images.py:85-97 | the scan ends in an exception iff some header that raises lies outside every image found |
| SpuElfScan.WideHeaderStopsTheScan | tools/extract_spu_images.py:54-60 | a bare 64-bit header does |

## Left out

- Opcode decoding and operand text: every model starts from decoded instructions. SPU computation, memory and channel
  instructions are arbitrary functions on registers and side state.
- SPU runtime around the lifted code: image adoption and the cross-image dispatch, the native SPURS system call, the
  host-stack guard that unwinds and re-dispatches, `skip_calls`, per-function (non-region) mode, and unresolved or
  unsupported instructions, which the lifter reports as errors.
- Floating point on either processor, and the mixing of samples, levels, notify queues, timers and threads of the
  audio server. The mixer's zeroing of consumed blocks in guest memory is not part of the model.
- Audio Quit and a second Init: Quit does not return blocks, so the session theorems start at one Init.
- Reservation with a word reserved one way and stored the other (`lwarx` with `stdcx.`), and overlapping cells: cells
  are aligned, do not overlap and are read and written at once.
- The windows behind `spu_coh_is_reserved`: membership of a line is an arbitrary set or function.
- The window an SPU PUT leaves between its own span check and its unlocked copy (runtime/spu/spu_dma.h:381-383): an SPU
  write of a marked line happens under the lock-line.
- CarryChain.MultiwordAddIsExact: a result register may alias its own word's sources, but not a source or result of
  a later word, since such a program would compute something else.
- Discovery: jump tables, OPD scanning, prologue detection, code generation itself, the instruction-exact
  substitutions for one title, and the parallel first lift. A program with referenced instructions past its last
  function is outside the invariant, because a function lifted there ends 0x1000 bytes on.
- RSX: the io-map setters and callbacks (any behaviour). The two block helpers take no PUT, so nothing is said about
  the producer there.
- SPU ELF: decoding of non-ASCII name bytes by the reader, and which exception is raised.
- Linear selectors, table lookups, crash reporting, media libraries and the other stubs: nothing to prove beyond
  their bodies.
