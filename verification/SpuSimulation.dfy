/** Region lifting preserves meaning: the lifted machine visits the instruction labels in the guest's
    order, with the guest's registers and memory, exactly as long as a condition on each guest step
    holds (`lift_region`, `_translate`, `SPU_RET`, `SPU_DRAIN`, `spu_indirect_branch`). */
module SpuSimulation {
  import opened Basics
  import opened SpuIsa
  import opened SpuLift
  import H = SpuHost

  // ----- the guest, watched: the link addresses of its live calls -----

  /** The guest with the link addresses of the calls it has not returned from. */
  datatype Watched = Watched(g: Guest, calls: seq<int>)

  predicate IsReturn(i: Insn, a: int, jumps: set<int>, c: Core) {
    (i.Bi? || (i.BiIf? && Holds(i.test, c.Pref(i.cond)))) && i.ra == 0 && a !in jumps
  }

  /** brsl to itself is a trap and brsl to the next instruction only reads the pc. */
  predicate IsCall(i: Insn, a: int) {
    i.Bisl? || (i.Brsl? && i.target != a && i.target != a + 4)
  }

  function CallsAfter(im: Image, jumps: set<int>, w: Watched): seq<int>
    requires im.Valid() && im.Has(w.g.pc)
  {
    var i, a := im.At(w.g.pc), w.g.pc;
    if IsCall(i, a) then w.calls + [a + 4]
    else if IsReturn(i, a, jumps, w.g.core) && w.calls != [] then w.calls[..|w.calls| - 1]
    else w.calls
  }

  /** The guest goes on inside the image. */
  ghost predicate GoesOn(im: Image, w: Watched) {
    im.Valid() && im.Has(w.g.pc) && Step(im, w.g).Run? && im.Has(Step(im, w.g).next.pc)
  }

  function Next(im: Image, jumps: set<int>, w: Watched): Watched
    requires GoesOn(im, w)
  {
    Watched(Step(im, w.g).next, CallsAfter(im, jumps, w))
  }

  /** An indirect branch through word `w`, emitted after the link register was set: the dispatcher looks
      the raw word up, and a branch through the link register itself sees the new link. */
  ghost predicate LinkedBranchAgrees(im: Image, a: int, link: Reg, ra: Reg, w: Word) {
    if link == ra then BranchAddress(w) == a + 4 else im.Has(w)
  }

  ghost predicate TakenIndirectAgrees(im: Image, jumps: set<int>, w: Watched, ra: Reg) {
    if ra == 0 && w.g.pc !in jumps && w.calls != []
    then BranchAddress(w.g.core.Pref(0)) == w.calls[|w.calls| - 1]
    else im.Has(w.g.core.Pref(ra))
  }

  /** When the lifted code takes this step as the guest does. Each clause is checkable before the step:
      no self-branch; an indirect target that is an address of the image as it stands in the register;
      a return that goes to the innermost live call's link; a fall-through or link address in the
      image; no linked branch through its own link register. */
  ghost predicate Agrees(im: Image, jumps: set<int>, w: Watched)
    requires GoesOn(im, w)
  {
    var a, c := w.g.pc, w.g.core;
    match im.At(a)
    case Br(t) => t != a
    case Brsl(_, t) => t != a && im.Has(a + 4)
    case BrIf(test, r, t) => Holds(test, c.Pref(r)) || im.Has(a + 4)
    case Bi(ra) => TakenIndirectAgrees(im, jumps, w, ra)
    case BiIf(test, r, ra) => if Holds(test, c.Pref(r)) then TakenIndirectAgrees(im, jumps, w, ra) else im.Has(a + 4)
    case Bisl(link, ra) => im.Has(a + 4) && LinkedBranchAgrees(im, a, link, ra, c.Pref(ra))
    case Bisled(link, ra) =>
      if c.side.eventPending then a + 4 < LS_SIZE && LinkedBranchAgrees(im, a, link, ra, c.Pref(ra)) else im.Has(a + 4)
    case Iret => im.Has(c.side.srr0)
    case _ => im.Has(a + 4)
  }

  // ----- the simulation relation -----

  ghost predicate Resumes(p: Program, im: Image, f: H.Frame, link: int)
    requires im.Valid()
  {
    && im.Has(f.a) && im.Has(link) && link == f.a + 4 && !IsTerminator(im.At(f.a))
    && f.a in p.owner && f.start == p.owner[f.a] && f.rest == []
  }

  /** The host stands at the guest's instruction, with its registers and memory, no pending trampoline,
      and one host frame per live guest call that resumes at that call's link address. */
  ghost predicate Related(p: Program, im: Image, w: Watched, h: H.Host) {
    && im.Valid() && im.Has(w.g.pc) && w.g.pc in p.owner
    && h.ctl == H.Label(p.owner[w.g.pc], w.g.pc)
    && h.core == w.g.core && h.tramp.None? && h.status == Running
    && StackMatches(p, im, w.calls, h)
  }

  ghost predicate StackMatches(p: Program, im: Image, calls: seq<int>, h: H.Host)
    requires im.Valid()
  {
    && h.depth == |h.stack| == |calls|
    && forall i :: 0 <= i < |calls| ==> Resumes(p, im, h.stack[i], calls[i])
  }

  /** Run the host to the next instruction label it reaches (or to the end), within `fuel` steps. */
  function ToLabel(p: Program, h: H.Host, fuel: nat): H.Host
    decreases fuel
  {
    var n := H.Step(p, h);
    if fuel == 0 || n.ctl.Label? || n.ctl.Finished? then n else ToLabel(p, n, fuel - 1)
  }

  const FUEL: nat := 12

  /** r is h moved to the label of `a`, with nothing else changed but the scratch pc. */
  ghost predicate LandsAt(p: Program, h: H.Host, a: int, r: H.Host) {
    && a in p.owner && r.ctl == H.Label(p.owner[a], a)
    && r.core == h.core && r.stack == h.stack && r.depth == h.depth && r.status == h.status && r.tramp.None?
  }

  lemma HasOwner(p: Program, im: Image, jumps: set<int>, a: int)
    requires IsLift(p, im, jumps) && im.Has(a)
    ensures a in p.owner && Covers(p, im, a, jumps)
    ensures var f := p.fns[p.owner[a]];
            f.start <= a < f.end && a in f.body && f.end % 4 == 0 && f.end <= im.End()
            && f.body[a] == Translate(im.At(a), a, f.start, f.end, p.owner, jumps)
            && (f.end in p.owner <==> f.end < im.End()) && (f.end in p.owner ==> p.owner[f.end] == f.end)
            && im.Has(f.end - 4) && f.tail == Tail(im.At(f.end - 4), f.end, p.owner)
  {
    assert Covers(p, im, a, jumps);
    CoveredRegion(p, im, a, jumps);
  }

  lemma EnterRegion(p: Program, im: Image, jumps: set<int>, h: H.Host, fuel: nat)
    requires IsLift(p, im, jumps) && im.Has(h.pc) && h.pc in p.owner
    requires h.ctl == H.Enter(RegionFn(p.owner[h.pc])) && h.tramp.None?
    ensures LandsAt(p, h, h.pc, ToLabel(p, h, fuel))
  {
    HasOwner(p, im, jumps, h.pc);
  }

  lemma EnterDispatcher(p: Program, im: Image, jumps: set<int>, h: H.Host, fuel: nat)
    requires IsLift(p, im, jumps) && fuel >= 1
    requires h.ctl == H.Enter(Dispatcher) && h.tramp.None?
    ensures im.Has(h.pc) ==> LandsAt(p, h, h.pc, ToLabel(p, h, fuel))
    ensures !im.Has(h.pc) ==> ToLabel(p, h, fuel).ctl.Finished?
  {
    if im.Has(h.pc) {
      HasOwner(p, im, jumps, h.pc);
      EnterRegion(p, im, jumps, H.Step(p, h), fuel - 1);
    }
  }

  lemma EnterOwnerFn(p: Program, im: Image, jumps: set<int>, h: H.Host, fuel: nat)
    requires IsLift(p, im, jumps) && im.Has(h.pc)
    requires h.ctl == H.Enter(OwnerFn(p.owner, h.pc)) && h.tramp.None?
    ensures LandsAt(p, h, h.pc, ToLabel(p, h, fuel))
  {
    HasOwner(p, im, jumps, h.pc);
    EnterRegion(p, im, jumps, h, fuel);
  }

  lemma DrainTrampoline(p: Program, im: Image, jumps: set<int>, h: H.Host, fuel: nat)
    requires IsLift(p, im, jumps) && fuel >= 2
    requires h.ctl == H.Drain && h.tramp.Some?
    requires h.tramp.value == Dispatcher || (im.Has(h.pc) && h.tramp.value == OwnerFn(p.owner, h.pc))
    ensures im.Has(h.pc) ==> LandsAt(p, h, h.pc, ToLabel(p, h, fuel))
    ensures !im.Has(h.pc) ==> ToLabel(p, h, fuel).ctl.Finished?
  {
    var n := H.Step(p, h);
    if h.tramp.value == Dispatcher {
      EnterDispatcher(p, im, jumps, n, fuel - 1);
    } else {
      EnterOwnerFn(p, im, jumps, n, fuel - 1);
    }
  }

  lemma SameRegion(p: Program, im: Image, jumps: set<int>, a: int, x: int)
    requires IsLift(p, im, jumps) && im.Has(a) && a in p.owner && p.owner[a] in p.fns
    requires p.fns[p.owner[a]].start <= x < p.fns[p.owner[a]].end && x % 4 == 0
    ensures x in p.owner && p.owner[x] == p.owner[a] && x in p.fns[p.owner[a]].body
  {
    assert Covers(p, im, a, jumps);
    PcHasCode(p, im, a, x, jumps);
    assert OwnsItsBody(p, im, p.owner[a]);
  }

  /** What follows instruction `a` in its region: the next instruction, or the hand-off to its owner. */
  lemma Epilogue(p: Program, im: Image, jumps: set<int>, a: int)
    requires IsLift(p, im, jumps) && im.Has(a) && im.Has(a + 4) && !IsTerminator(im.At(a))
    ensures a in p.owner && a + 4 in p.owner && p.owner[a] in p.fns
    ensures var f := p.fns[p.owner[a]];
            if a + 4 < f.end then p.owner[a + 4] == p.owner[a]
            else a + 4 == f.end && p.owner[f.end] == f.end && f.tail == [HandOff(Literal(f.end), RegionFn(f.end))]
  {
    hide IsLift, Covers;
    HasOwner(p, im, jumps, a);
    HasOwner(p, im, jumps, a + 4);
    var f := p.fns[p.owner[a]];
    if a + 4 < f.end {
      SameRegion(p, im, jumps, a, a + 4);
    }
  }

  /** Running past an instruction lands on the next label, through the region's epilogue if need be. */
  lemma FallThrough(p: Program, im: Image, jumps: set<int>, h: H.Host, a: int, fuel: nat)
    requires IsLift(p, im, jumps) && im.Has(a) && im.Has(a + 4) && fuel >= 4
    requires a in p.owner && h.ctl == H.Body(p.owner[a], a, []) && h.tramp.None? && !IsTerminator(im.At(a))
    ensures LandsAt(p, h, a + 4, ToLabel(p, h, fuel))
  {
    Epilogue(p, im, jumps, a);
    var f := p.fns[p.owner[a]];
    var n := H.Step(p, h);
    if a + 4 < f.end {
      assert n == h.(ctl := H.Label(p.owner[a], a + 4));
    } else {
      var n2 := H.Step(p, n);
      assert n2 == n.(pc := f.end, tramp := Some(RegionFn(f.end)), ctl := H.Drain);
      DrainTrampoline(p, im, jumps, n2, fuel - 2);
    }
  }

  /** The innermost live call resumes at its link address, one frame shorter. */
  lemma ReturnToCall(p: Program, im: Image, jumps: set<int>, calls: seq<int>, h: H.Host, fuel: nat)
    requires IsLift(p, im, jumps) && StackMatches(p, im, calls, h) && calls != [] && fuel >= 5
    requires h.ctl == H.Drain && h.tramp.None?
    ensures var r := ToLabel(p, h, fuel);
            LandsAt(p, h.(stack := r.stack, depth := r.depth), calls[|calls| - 1], r)
            && StackMatches(p, im, calls[..|calls| - 1], r)
  {
    var top := h.stack[|calls| - 1];
    assert Resumes(p, im, top, calls[|calls| - 1]);
    var n := H.Step(p, h);
    FallThrough(p, im, jumps, n, top.a, fuel - 1);
  }

  /** A plain `return` ends the run when no call is live, and resumes the innermost call otherwise. */
  lemma PlainReturn(p: Program, im: Image, jumps: set<int>, calls: seq<int>, h: H.Host, fuel: nat)
    requires IsLift(p, im, jumps) && StackMatches(p, im, calls, h) && fuel >= 5
    requires h.ctl == H.Drain && h.tramp.None?
    ensures var r := ToLabel(p, h, fuel);
            if calls == [] then r.ctl.Finished? else |r.stack| < |calls|
  {
    if calls != [] {
      ReturnToCall(p, im, jumps, calls, h, fuel);
    }
  }

  /** Running past the last instruction of the image returns from the region function. */
  lemma FallOff(p: Program, im: Image, jumps: set<int>, calls: seq<int>, h: H.Host, a: int, fuel: nat)
    requires IsLift(p, im, jumps) && im.Has(a) && !im.Has(a + 4) && fuel >= 7
    requires a in p.owner && h.ctl == H.Body(p.owner[a], a, []) && h.tramp.None?
    requires StackMatches(p, im, calls, h)
    ensures var r := ToLabel(p, h, fuel);
            r.ctl.Finished? || |r.stack| < |calls|
  {
    hide Resumes, IsLift, Covers, Image.Valid;
    HasOwner(p, im, jumps, a);
    var f := p.fns[p.owner[a]];
    assert f.end == a + 4 == im.End();
    assert f.tail == [];
    var n := H.Step(p, h);
    var n2 := H.Step(p, n);
    assert n2.ctl == H.Drain;
    PlainReturn(p, im, jumps, calls, n2, fuel - 2);
  }

  // ----- one guest step, one instruction kind at a time: related afterwards iff the step agrees -----

  /** Ready to match: the host runs a guest of these live calls and this core, nothing pending. */
  ghost predicate Ready(p: Program, im: Image, jumps: set<int>, calls: seq<int>, h: H.Host) {
    IsLift(p, im, jumps) && h.status == Running && StackMatches(p, im, calls, h)
  }

  lemma FallsMatch(p: Program, im: Image, jumps: set<int>, calls: seq<int>, h: H.Host, a: int, fuel: nat)
    requires Ready(p, im, jumps, calls, h) && h.tramp.None? && fuel >= 7
    requires im.Has(a) && a in p.owner && h.ctl == H.Body(p.owner[a], a, []) && !IsTerminator(im.At(a))
    requires im.Has(NextPc(a))
    ensures Related(p, im, Watched(Guest(NextPc(a), h.core), calls), ToLabel(p, h, fuel)) <==> im.Has(a + 4)
  {
    hide Covers, OwnsItsBody, H.Step, H.Execute, ToLabel, Resumes;
    PcInLocalStore(im, a + 4);
    PcInLocalStore(im, NextPc(a));
    PcInLocalStore(im, a);
    if im.Has(a + 4) {
      FallThrough(p, im, jumps, h, a, fuel);
    } else {
      FallOff(p, im, jumps, calls, h, a, fuel);
    }
  }

  lemma DispatchMatches(p: Program, im: Image, jumps: set<int>, calls: seq<int>, h: H.Host, fuel: nat)
    requires Ready(p, im, jumps, calls, h) && fuel >= 2 && 0 <= h.pc < 0x1_0000_0000
    requires (h.ctl == H.Drain && h.tramp == Some(Dispatcher)) || (h.ctl == H.Enter(Dispatcher) && h.tramp.None?)
    requires im.Has(BranchAddress(h.pc))
    ensures Related(p, im, Watched(Guest(BranchAddress(h.pc), h.core), calls), ToLabel(p, h, fuel)) <==> im.Has(h.pc)
  {
    if h.ctl.Drain? {
      DrainTrampoline(p, im, jumps, h, fuel);
    } else {
      EnterDispatcher(p, im, jumps, h, fuel);
    }
  }

  lemma ReturnMatches(p: Program, im: Image, jumps: set<int>, calls: seq<int>, h: H.Host, a: int, fuel: nat)
    requires Ready(p, im, jumps, calls, h) && fuel >= 5 && calls != []
    requires h.ctl == H.Drain && h.tramp.None? && im.Has(a)
    ensures Related(p, im, Watched(Guest(a, h.core), calls[..|calls| - 1]), ToLabel(p, h, fuel))
       <==> a == calls[|calls| - 1]
  {
    ReturnToCall(p, im, jumps, calls, h, fuel);
  }

  /** The host at the label of a related guest state, one step later: inside that instruction's code. */
  lemma AtCode(p: Program, im: Image, jumps: set<int>, w: Watched, h: H.Host)
    requires IsLift(p, im, jumps) && Related(p, im, w, h)
    ensures w.g.pc in p.owner && p.owner[w.g.pc] in p.fns
    ensures var f := p.fns[p.owner[w.g.pc]];
            f.start <= w.g.pc < f.end &&
            H.Step(p, h) == h.(ctl := H.Body(p.owner[w.g.pc], w.g.pc,
                Translate(im.At(w.g.pc), w.g.pc, f.start, f.end, p.owner, jumps)))
    ensures ToLabel(p, h, FUEL) == ToLabel(p, H.Step(p, h), FUEL - 1)
  {
    HasOwner(p, im, jumps, w.g.pc);
  }

  ghost predicate StepMatched(p: Program, im: Image, jumps: set<int>, w: Watched, h: H.Host)
    requires GoesOn(im, w)
  {
    Related(p, im, Next(im, jumps, w), ToLabel(p, h, FUEL)) <==> Agrees(im, jumps, w)
  }

  lemma ComputeMatches(p: Program, im: Image, jumps: set<int>, w: Watched, h: H.Host)
    requires IsLift(p, im, jumps) && Related(p, im, w, h) && GoesOn(im, w)
    requires IsCompute(im.At(w.g.pc))
    ensures StepMatched(p, im, jumps, w, h)
  {
    hide Resumes, IsLift, Image.Valid;
    AtCode(p, im, jumps, w, h);
    var i, a := im.At(w.g.pc), w.g.pc;
    var h1 := H.Step(p, h);
    var h2 := H.Step(p, h1);
    if i.Op? && i.isChannel {
      var h3 := H.Step(p, h2);
      assert h3 == h2.(core := Compute(i, h2.core), ctl := H.Body(p.owner[a], a, []));
      FallsMatch(p, im, jumps, w.calls, h3, a, FUEL - 3);
    } else {
      assert h2 == h1.(core := Compute(i, h1.core), ctl := H.Body(p.owner[a], a, []));
      FallsMatch(p, im, jumps, w.calls, h2, a, FUEL - 2);
    }
  }

  /** A direct branch lands on its target: by goto inside the region, by hand-off out of it. */
  lemma BranchLands(p: Program, im: Image, jumps: set<int>, h: H.Host, a: int, t: int, rest: seq<Stmt>, fuel: nat)
    requires IsLift(p, im, jumps) && im.Has(a) && im.Has(t) && a in p.owner && p.owner[a] in p.fns && h.tramp.None?
             && fuel >= 3
    requires H.Step(p, h) == H.Execute(h, p.owner[a], a,
                                       Branch(t, p.fns[p.owner[a]].start, p.fns[p.owner[a]].end, p.owner), rest)
    ensures LandsAt(p, h, t, ToLabel(p, h, fuel))
  {
    hide Resumes, IsLift, Covers, Image.Valid;
    HasOwner(p, im, jumps, a);
    HasOwner(p, im, jumps, t);
    var f := p.fns[p.owner[a]];
    var n := H.Step(p, h);
    if f.start <= t < f.end {
      SameRegion(p, im, jumps, a, t);
    } else {
      DrainTrampoline(p, im, jumps, n, fuel - 1);
    }
  }

  lemma BranchMatches(p: Program, im: Image, jumps: set<int>, calls: seq<int>, h: H.Host, a: int, t: int,
                      rest: seq<Stmt>, fuel: nat)
    requires Ready(p, im, jumps, calls, h) && h.tramp.None? && fuel >= 3
    requires im.Has(a) && im.Has(t) && a in p.owner && p.owner[a] in p.fns
    requires H.Step(p, h) == H.Execute(h, p.owner[a], a,
                                       Branch(t, p.fns[p.owner[a]].start, p.fns[p.owner[a]].end, p.owner), rest)
    ensures Related(p, im, Watched(Guest(t, h.core), calls), ToLabel(p, h, fuel))
  {
    BranchLands(p, im, jumps, h, a, t, rest, fuel);
  }

  lemma SelfBranchMatches(p: Program, im: Image, jumps: set<int>, w: Watched, h: H.Host)
    requires IsLift(p, im, jumps) && Related(p, im, w, h) && GoesOn(im, w)
    requires im.At(w.g.pc).Br? && im.At(w.g.pc).target == w.g.pc
    ensures StepMatched(p, im, jumps, w, h)
  {
    hide IsLift, Image.Valid;
    AtCode(p, im, jumps, w, h);
    var h2 := H.Step(p, H.Step(p, h));
    assert h2.ctl == H.Drain;
    PlainReturn(p, im, jumps, w.calls, h2, FUEL - 2);
  }

  lemma BrMatches(p: Program, im: Image, jumps: set<int>, w: Watched, h: H.Host)
    requires IsLift(p, im, jumps) && Related(p, im, w, h) && GoesOn(im, w)
    requires im.At(w.g.pc).Br?
    ensures StepMatched(p, im, jumps, w, h)
  {
    hide IsLift, Image.Valid, H.Execute;
    if im.At(w.g.pc).target == w.g.pc {
      SelfBranchMatches(p, im, jumps, w, h);
    } else {
      AtCode(p, im, jumps, w, h);
      var h1 := H.Step(p, h);
      OneStatement(p, h1);
      BranchMatches(p, im, jumps, w.calls, h1, w.g.pc, im.At(w.g.pc).target, [], FUEL - 1);
    }
  }

  lemma OneStatement(p: Program, h: H.Host)
    requires h.ctl.Body? && |h.ctl.rest| == 1
    ensures H.Step(p, h) == H.Execute(h, h.ctl.start, h.ctl.a, h.ctl.rest[0], [])
  {
    assert h.ctl.rest[1..] == [];
  }

  lemma TakenWhen(p: Program, h: H.Host)
    requires h.ctl.Body? && h.ctl.rest != [] && h.ctl.rest[0].When? && H.EvalCond(h.ctl.rest[0].cond, h.core)
    ensures H.Step(p, h) == H.Execute(h, h.ctl.start, h.ctl.a, h.ctl.rest[0].body, h.ctl.rest[1..])
  {
  }

  lemma BrIfMatches(p: Program, im: Image, jumps: set<int>, w: Watched, h: H.Host)
    requires IsLift(p, im, jumps) && Related(p, im, w, h) && GoesOn(im, w)
    requires im.At(w.g.pc).BrIf?
    ensures StepMatched(p, im, jumps, w, h)
  {
    AtCode(p, im, jumps, w, h);
    var i, a := im.At(w.g.pc), w.g.pc;
    var h1 := H.Step(p, h);
    if Holds(i.test, w.g.core.Pref(i.cond)) {
      TakenWhen(p, h1);
      BranchMatches(p, im, jumps, w.calls, h1, a, i.target, [], FUEL - 1);
    } else {
      var h2 := H.Step(p, h1);
      FallsMatch(p, im, jumps, w.calls, h2, a, FUEL - 2);
    }
  }

  lemma HaltIfMatches(p: Program, im: Image, jumps: set<int>, w: Watched, h: H.Host)
    requires IsLift(p, im, jumps) && Related(p, im, w, h) && GoesOn(im, w)
    requires im.At(w.g.pc).HaltIf?
    ensures StepMatched(p, im, jumps, w, h)
  {
    AtCode(p, im, jumps, w, h);
    var h1 := H.Step(p, h);
    var h2 := H.Step(p, h1);
    FallsMatch(p, im, jumps, w.calls, h2, w.g.pc, FUEL - 2);
  }

  /** What a taken indirect branch leaves behind: the raw target in the pc, and the dispatcher pending
      unless it is a return to a live call. */
  lemma IndirectStep(p: Program, h: H.Host, a: int, ra: Reg, jumps: set<int>, rest: seq<Stmt>)
    requires h.tramp.None? && a in p.owner
    requires H.Step(p, h) == H.Execute(h, p.owner[a], a, Indirect(a, ra, jumps), rest)
    ensures H.Step(p, h) == h.(pc := h.core.Pref(ra), ctl := H.Drain,
              tramp := if ra == 0 && a !in jumps && h.depth != 0 then None else Some(Dispatcher))
  {
  }

  /** An indirect branch that is taken: dispatch on the raw register, or return. */
  lemma IndirectMatches(p: Program, im: Image, jumps: set<int>, w: Watched, h: H.Host, a: int, ra: Reg,
                        rest: seq<Stmt>, fuel: nat)
    requires Ready(p, im, jumps, w.calls, h) && h.tramp.None? && h.core == w.g.core && fuel >= 6 && a == w.g.pc
    requires a in p.owner && H.Step(p, h) == H.Execute(h, p.owner[a], a, Indirect(a, ra, jumps), rest)
    requires im.Has(BranchAddress(w.g.core.Pref(ra)))
    ensures var after := if ra == 0 && a !in jumps && w.calls != [] then w.calls[..|w.calls| - 1] else w.calls;
            Related(p, im, Watched(Guest(BranchAddress(w.g.core.Pref(ra)), w.g.core), after), ToLabel(p, h, fuel))
            <==> TakenIndirectAgrees(im, jumps, w, ra)
  {
    hide IsLift, H.Step, H.Execute;
    var n := H.Step(p, h);
    IndirectStep(p, h, a, ra, jumps, rest);
    if ra == 0 && a !in jumps && w.calls != [] {
      ReturnMatches(p, im, jumps, w.calls, n, BranchAddress(w.g.core.Pref(0)), fuel - 1);
    } else {
      DispatchMatches(p, im, jumps, w.calls, n, fuel - 1);
    }
  }

  lemma BiMatches(p: Program, im: Image, jumps: set<int>, w: Watched, h: H.Host)
    requires IsLift(p, im, jumps) && Related(p, im, w, h) && GoesOn(im, w)
    requires im.At(w.g.pc).Bi?
    ensures StepMatched(p, im, jumps, w, h)
  {
    AtCode(p, im, jumps, w, h);
    IndirectMatches(p, im, jumps, w, H.Step(p, h), w.g.pc, im.At(w.g.pc).ra, [], FUEL - 1);
  }

  lemma BiIfMatches(p: Program, im: Image, jumps: set<int>, w: Watched, h: H.Host)
    requires IsLift(p, im, jumps) && Related(p, im, w, h) && GoesOn(im, w)
    requires im.At(w.g.pc).BiIf?
    ensures StepMatched(p, im, jumps, w, h)
  {
    AtCode(p, im, jumps, w, h);
    var i, a := im.At(w.g.pc), w.g.pc;
    var h1 := H.Step(p, h);
    if Holds(i.test, w.g.core.Pref(i.cond)) {
      TakenWhen(p, h1);
      IndirectMatches(p, im, jumps, w, h1, a, i.ra, [], FUEL - 1);
    } else {
      FallsMatch(p, im, jumps, w.calls, H.Step(p, h1), a, FUEL - 2);
    }
  }

  lemma IretMatches(p: Program, im: Image, jumps: set<int>, w: Watched, h: H.Host)
    requires IsLift(p, im, jumps) && Related(p, im, w, h) && GoesOn(im, w)
    requires im.At(w.g.pc).Iret?
    ensures StepMatched(p, im, jumps, w, h)
  {
    AtCode(p, im, jumps, w, h);
    DispatchMatches(p, im, jumps, w.calls, H.Step(p, H.Step(p, h)), FUEL - 2);
  }

  /** After the link register is set and the callee's pc stored, a call enters the callee one frame
      deeper; the guest is there too exactly when the branch agrees and the frame can be resumed. */
  lemma CallMatches(p: Program, im: Image, jumps: set<int>, calls: seq<int>, h: H.Host, a: int, next: Guest, fuel: nat)
    requires calls != [] && calls[|calls| - 1] == a + 4 && |h.stack| > 0 && fuel >= 2
    requires Ready(p, im, jumps, calls[..|calls| - 1], h.(stack := h.stack[..|h.stack| - 1], depth := h.depth - 1))
    requires im.Has(a) && a in p.owner && !IsTerminator(im.At(a))
    requires h.stack[|h.stack| - 1] == H.Frame(p.owner[a], a, []) && h.tramp.None?
    requires h.ctl == H.Enter(Dispatcher) || (h.ctl == H.Enter(OwnerFn(p.owner, h.pc)) && im.Has(h.pc))
    requires im.Has(next.pc) && (im.Has(a + 4) ==> next.core == h.core)
    ensures Related(p, im, Watched(next, calls), ToLabel(p, h, fuel)) <==> im.Has(a + 4) && h.pc == next.pc
  {
    if h.ctl == H.Enter(Dispatcher) {
      EnterDispatcher(p, im, jumps, h, fuel);
    } else {
      EnterOwnerFn(p, im, jumps, h, fuel);
    }
    var r := ToLabel(p, h, fuel);
    if im.Has(h.pc) {
      if im.Has(a + 4) {
        StackGrows(p, im, calls, h);
      }
      assert StackMatches(p, im, calls, r) ==> Resumes(p, im, r.stack[|calls| - 1], calls[|calls| - 1]);
    }
  }

  lemma StackGrows(p: Program, im: Image, calls: seq<int>, h: H.Host)
    requires im.Valid() && calls != [] && |h.stack| > 0
    requires StackMatches(p, im, calls[..|calls| - 1], h.(stack := h.stack[..|h.stack| - 1], depth := h.depth - 1))
    requires Resumes(p, im, h.stack[|h.stack| - 1], calls[|calls| - 1])
    ensures StackMatches(p, im, calls, h)
  {
    var shorter := h.(stack := h.stack[..|h.stack| - 1], depth := h.depth - 1);
    forall i | 0 <= i < |calls| ensures Resumes(p, im, h.stack[i], calls[i]) {
      if i < |calls| - 1 {
        assert Resumes(p, im, shorter.stack[i], calls[..|calls| - 1][i]);
      }
    }
  }

  lemma LinkWord(a: int)
    requires 0 <= a < LS_SIZE
    ensures LinkQuad((a + 4) % 0x1_0000_0000) == LinkQuad(NextPc(a)) <==> a + 4 < LS_SIZE
  {
  }

  /** Setting the link register leaves the host with the guest's registers, unless the link address
      wraps at the end of local store. */
  lemma LinkSet(p: Program, im: Image, jumps: set<int>, w: Watched, h: H.Host, link: Reg, rest: seq<Stmt>)
    requires IsLift(p, im, jumps) && Related(p, im, w, h)
    requires 0 <= w.g.pc < LS_SIZE && H.Step(p, h).ctl
             == H.Body(p.owner[w.g.pc], w.g.pc, [SetLink(link, w.g.pc + 4)] + rest)
    requires H.Step(p, h) == h.(ctl := H.Step(p, h).ctl)
    ensures var h2 := H.Step(p, H.Step(p, h));
            h2 == h.(core := w.g.core.With(link, LinkQuad((w.g.pc + 4) % 0x1_0000_0000)),
                     ctl := H.Body(p.owner[w.g.pc], w.g.pc, rest))
    ensures ToLabel(p, H.Step(p, h), FUEL - 1) == ToLabel(p, H.Step(p, H.Step(p, h)), FUEL - 2)
  {
    assert ([SetLink(link, w.g.pc + 4)] + rest)[1..] == rest;
  }

  /** brsl up to its transfer: link set, host at the transfer statement. */
  lemma BrslLinked(p: Program, im: Image, jumps: set<int>, w: Watched, h: H.Host, rest: seq<Stmt>)
    requires IsLift(p, im, jumps) && Related(p, im, w, h) && im.At(w.g.pc).Brsl?
    requires w.g.pc in p.owner && p.owner[w.g.pc] in p.fns
    requires var i, a, f := im.At(w.g.pc), w.g.pc, p.fns[p.owner[w.g.pc]];
             Translate(i, a, f.start, f.end, p.owner, jumps) == [SetLink(i.link, a + 4)] + rest
    ensures var i, a := im.At(w.g.pc), w.g.pc;
            var h2 := H.Step(p, H.Step(p, h));
            h2 == h.(core := w.g.core.With(i.link, LinkQuad((a + 4) % 0x1_0000_0000)),
                     ctl := H.Body(p.owner[a], a, rest))
            && ToLabel(p, h, FUEL) == ToLabel(p, h2, FUEL - 2)
  {
    AtCode(p, im, jumps, w, h);
    PcInLocalStore(im, w.g.pc);
    LinkSet(p, im, jumps, w, h, im.At(w.g.pc).link, rest);
  }

  lemma SelfCallMatches(p: Program, im: Image, jumps: set<int>, w: Watched, h: H.Host)
    requires IsLift(p, im, jumps) && Related(p, im, w, h) && GoesOn(im, w)
    requires im.At(w.g.pc).Brsl? && im.At(w.g.pc).target == w.g.pc
    ensures StepMatched(p, im, jumps, w, h)
  {
    hide Resumes, IsLift, Covers, Image.Valid;
    HasOwner(p, im, jumps, w.g.pc);
    BrslLinked(p, im, jumps, w, h, [StopReturn(w.g.pc, StoppedByHalt)]);
    var h3 := H.Step(p, H.Step(p, H.Step(p, h)));
    assert h3.ctl == H.Drain;
    PlainReturn(p, im, jumps, w.calls, h3, FUEL - 3);
  }

  lemma PcGetterMatches(p: Program, im: Image, jumps: set<int>, w: Watched, h: H.Host)
    requires IsLift(p, im, jumps) && Related(p, im, w, h) && GoesOn(im, w)
    requires im.At(w.g.pc).Brsl? && im.At(w.g.pc).target == w.g.pc + 4
    ensures StepMatched(p, im, jumps, w, h)
  {
    hide IsLift, Covers, Image.Valid, H.Step, H.Execute;
    var a := w.g.pc;
    HasOwner(p, im, jumps, a);
    PcInLocalStore(im, a);
    PcInLocalStore(im, a + 4);
    var f := p.fns[p.owner[a]];
    var rest := [Branch(a + 4, f.start, f.end, p.owner)];
    BrslLinked(p, im, jumps, w, h, rest);
    LinkWord(a);
    var h2 := H.Step(p, H.Step(p, h));
    OneStatement(p, h2);
    BranchMatches(p, im, jumps, w.calls, h2, a, a + 4, [], FUEL - 2);
  }

  lemma CallStep(p: Program, h: H.Host, e: PcExpr, fn: Fn)
    requires h.ctl.Body? && h.ctl.rest == [CallAndDrain(e, fn)]
    ensures H.Step(p, h) == h.(pc := H.EvalPc(e, h.core), depth := h.depth + 1,
              stack := h.stack + [H.Frame(h.ctl.start, h.ctl.a, [])], ctl := H.Enter(fn))
  {
    assert h.ctl.rest[1..] == [];
  }

  lemma RealCallMatches(p: Program, im: Image, jumps: set<int>, w: Watched, h: H.Host)
    requires IsLift(p, im, jumps) && Related(p, im, w, h) && GoesOn(im, w)
    requires im.At(w.g.pc).Brsl? && im.At(w.g.pc).target != w.g.pc && im.At(w.g.pc).target != w.g.pc + 4
    ensures StepMatched(p, im, jumps, w, h)
  {
    hide IsLift, Covers, Image.Valid, H.Step, H.Execute;
    var i, a := im.At(w.g.pc), w.g.pc;
    HasOwner(p, im, jumps, a);
    PcInLocalStore(im, a);
    PcInLocalStore(im, a + 4);
    BrslLinked(p, im, jumps, w, h, [CallAndDrain(Literal(i.target), OwnerFn(p.owner, i.target))]);
    LinkWord(a);
    var h2 := H.Step(p, H.Step(p, h));
    CallStep(p, h2, Literal(i.target), OwnerFn(p.owner, i.target));
    CalleeMatches(p, im, jumps, w.calls, h2, H.Step(p, h2), a, Step(im, w.g).next, FUEL - 3);
  }

  lemma BrslMatches(p: Program, im: Image, jumps: set<int>, w: Watched, h: H.Host)
    requires IsLift(p, im, jumps) && Related(p, im, w, h) && GoesOn(im, w)
    requires im.At(w.g.pc).Brsl?
    ensures StepMatched(p, im, jumps, w, h)
  {
    if im.At(w.g.pc).target == w.g.pc {
      SelfCallMatches(p, im, jumps, w, h);
    } else if im.At(w.g.pc).target == w.g.pc + 4 {
      PcGetterMatches(p, im, jumps, w, h);
    } else {
      RealCallMatches(p, im, jumps, w, h);
    }
  }

  lemma CalleeMatches(p: Program, im: Image, jumps: set<int>, calls: seq<int>, h2: H.Host, h3: H.Host, a: int,
                      next: Guest, fuel: nat)
    requires Ready(p, im, jumps, calls, h2) && h2.tramp.None? && fuel >= 2
    requires im.Has(a) && a in p.owner && !IsTerminator(im.At(a)) && im.Has(next.pc)
    requires im.Has(a + 4) ==> next.core == h2.core
    requires h3.ctl == H.Enter(Dispatcher) || (h3.ctl == H.Enter(OwnerFn(p.owner, h3.pc)) && im.Has(h3.pc))
    requires h3 == h2.(pc := h3.pc, depth := h2.depth + 1, stack := h2.stack + [H.Frame(p.owner[a], a, [])],
                       ctl := h3.ctl)
    ensures Related(p, im, Watched(next, calls + [a + 4]), ToLabel(p, h3, fuel)) <==> im.Has(a + 4) && h3.pc == next.pc
  {
    var after := calls + [a + 4];
    assert after[..|after| - 1] == calls;
    assert h3.stack[..|h3.stack| - 1] == h2.stack;
    CallMatches(p, im, jumps, after, h3, a, next, fuel);
  }

  /** The word the emitted bisl branches through: the register after the link was written. */
  lemma LinkedWord(im: Image, a: int, c: Core, link: Reg, ra: Reg)
    requires im.Valid() && im.Has(a) && im.Has(a + 4) && im.Has(BranchAddress(c.Pref(ra)))
    ensures c.With(link, LinkQuad((a + 4) % 0x1_0000_0000)).Pref(ra) == BranchAddress(c.Pref(ra))
       <==> LinkedBranchAgrees(im, a, link, ra, c.Pref(ra))
  {
  }

  lemma BislMatches(p: Program, im: Image, jumps: set<int>, w: Watched, h: H.Host)
    requires IsLift(p, im, jumps) && Related(p, im, w, h) && GoesOn(im, w)
    requires im.At(w.g.pc).Bisl?
    ensures StepMatched(p, im, jumps, w, h)
  {
    hide IsLift, Covers, Image.Valid;
    PcInLocalStore(im, w.g.pc);
    PcInLocalStore(im, w.g.pc + 4);
    AtCode(p, im, jumps, w, h);
    var i, a := im.At(w.g.pc), w.g.pc;
    var h1 := H.Step(p, h);
    var rest := [CallAndDrain(WordOf(i.ra), Dispatcher)];
    assert h1.ctl.rest == [SetLink(i.link, a + 4)] + rest;
    LinkSet(p, im, jumps, w, h, i.link, rest);
    LinkWord(a);
    var h2 := H.Step(p, h1);
    assert rest[1..] == [];
    var h3 := H.Step(p, h2);
    assert h3 == h2.(pc := h2.core.Pref(i.ra), depth := h2.depth + 1, stack := h2.stack + [H.Frame(p.owner[a], a, [])],
                     ctl := H.Enter(Dispatcher));
    CalleeMatches(p, im, jumps, w.calls, h2, h3, a, Step(im, w.g).next, FUEL - 3);
    if im.Has(a + 4) {
      LinkedWord(im, a, w.g.core, i.link, i.ra);
    }
  }

  /** bisled up to its test: link set, host inside the conditional hand-off. */
  lemma BisledLinked(p: Program, im: Image, jumps: set<int>, w: Watched, h: H.Host)
    requires IsLift(p, im, jumps) && Related(p, im, w, h) && im.At(w.g.pc).Bisled?
    ensures w.g.pc in p.owner && !IsTerminator(im.At(w.g.pc))
    ensures var i, a := im.At(w.g.pc), w.g.pc;
            var h2 := H.Step(p, H.Step(p, h));
            h2 == h.(core := w.g.core.With(i.link, LinkQuad((a + 4) % 0x1_0000_0000)),
                     ctl := H.Body(p.owner[a], a, [When(EventPending, HandOff(WordOf(i.ra), Dispatcher))]))
            && ToLabel(p, h, FUEL) == ToLabel(p, h2, FUEL - 2)
  {
    AtCode(p, im, jumps, w, h);
    var i, a := im.At(w.g.pc), w.g.pc;
    var rest := [When(EventPending, HandOff(WordOf(i.ra), Dispatcher))];
    assert H.Step(p, h).ctl.rest == [SetLink(i.link, a + 4)] + rest;
    LinkSet(p, im, jumps, w, h, i.link, rest);
  }

  lemma BisledTaken(p: Program, im: Image, jumps: set<int>, w: Watched, h: H.Host)
    requires IsLift(p, im, jumps) && Related(p, im, w, h) && GoesOn(im, w)
    requires im.At(w.g.pc).Bisled? && w.g.core.side.eventPending
    ensures StepMatched(p, im, jumps, w, h)
  {
    hide IsLift, Covers, Image.Valid;
    PcInLocalStore(im, w.g.pc);
    BisledLinked(p, im, jumps, w, h);
    var i, a := im.At(w.g.pc), w.g.pc;
    LinkWord(a);
    var h2 := H.Step(p, H.Step(p, h));
    var h3 := H.Step(p, h2);
    TakenWhen(p, h2);
    assert h3 == h2.(pc := h2.core.Pref(i.ra), tramp := Some(Dispatcher), ctl := H.Drain);
    EnteredByDispatch(p, im, jumps, w.calls, h3, Step(im, w.g).next, FUEL - 3);
    BisledWord(im, a, w.g.core, i.link, i.ra);
    assert h2.core.gpr[i.link] == LinkQuad((a + 4) % 0x1_0000_0000);
    assert Step(im, w.g).next.core.gpr[i.link] == LinkQuad(NextPc(a));
  }

  lemma BisledNotTaken(p: Program, im: Image, jumps: set<int>, w: Watched, h: H.Host)
    requires IsLift(p, im, jumps) && Related(p, im, w, h) && GoesOn(im, w)
    requires im.At(w.g.pc).Bisled? && !w.g.core.side.eventPending
    ensures StepMatched(p, im, jumps, w, h)
  {
    hide IsLift, Covers, Image.Valid, Resumes;
    var a := w.g.pc;
    PcInLocalStore(im, a);
    PcInLocalStore(im, a + 4);
    BisledLinked(p, im, jumps, w, h);
    LinkWord(a);
    var h2 := H.Step(p, H.Step(p, h));
    var h3 := H.Step(p, h2);
    OneStatement(p, h2);
    assert h3 == h2.(ctl := H.Body(p.owner[a], a, []));
    if im.Has(a + 4) {
      FallsMatch(p, im, jumps, w.calls, h3, a, FUEL - 3);
    } else {
      FallOff(p, im, jumps, w.calls, h3, a, FUEL - 3);
    }
  }

  lemma BisledMatches(p: Program, im: Image, jumps: set<int>, w: Watched, h: H.Host)
    requires IsLift(p, im, jumps) && Related(p, im, w, h) && GoesOn(im, w)
    requires im.At(w.g.pc).Bisled?
    ensures StepMatched(p, im, jumps, w, h)
  {
    if w.g.core.side.eventPending {
      BisledTaken(p, im, jumps, w, h);
    } else {
      BisledNotTaken(p, im, jumps, w, h);
    }
  }

  lemma BisledWord(im: Image, a: int, c: Core, link: Reg, ra: Reg)
    requires im.Valid() && im.Has(a) && im.Has(BranchAddress(c.Pref(ra)))
    ensures a + 4 < LS_SIZE ==>
            (c.With(link, LinkQuad((a + 4) % 0x1_0000_0000)).Pref(ra) == BranchAddress(c.Pref(ra))
             <==> LinkedBranchAgrees(im, a, link, ra, c.Pref(ra)))
  {
  }

  lemma EnteredByDispatch(p: Program, im: Image, jumps: set<int>, calls: seq<int>, h: H.Host, next: Guest, fuel: nat)
    requires Ready(p, im, jumps, calls, h) && fuel >= 2 && im.Has(next.pc)
    requires h.ctl == H.Drain && h.tramp == Some(Dispatcher)
    ensures Related(p, im, Watched(next, calls), ToLabel(p, h, fuel)) <==> h.pc == next.pc && h.core == next.core
  {
    DrainTrampoline(p, im, jumps, h, fuel);
  }

  /** The step theorem: from related states, if the guest goes on inside the image, the lifted code
      reaches the guest's next state at its next label exactly when the step agrees. */
  lemma LiftedStepMatchesIffAgrees(p: Program, im: Image, jumps: set<int>, w: Watched, h: H.Host)
    requires IsLift(p, im, jumps) && Related(p, im, w, h) && GoesOn(im, w)
    ensures Related(p, im, Next(im, jumps, w), ToLabel(p, h, FUEL)) <==> Agrees(im, jumps, w)
  {
    match im.At(w.g.pc)
    case Op(_, _, _, _) => ComputeMatches(p, im, jumps, w, h);
    case Load(_, _) => ComputeMatches(p, im, jumps, w, h);
    case Immediate(_, _, _, _) => ComputeMatches(p, im, jumps, w, h);
    case HaltIf(_) => HaltIfMatches(p, im, jumps, w, h);
    case Br(_) => BrMatches(p, im, jumps, w, h);
    case Brsl(_, _) => BrslMatches(p, im, jumps, w, h);
    case BrIf(_, _, _) => BrIfMatches(p, im, jumps, w, h);
    case Bi(_) => BiMatches(p, im, jumps, w, h);
    case BiIf(_, _, _) => BiIfMatches(p, im, jumps, w, h);
    case Bisl(_, _) => BislMatches(p, im, jumps, w, h);
    case Bisled(_, _) => BisledMatches(p, im, jumps, w, h);
    case Iret => IretMatches(p, im, jumps, w, h);
  }
}
