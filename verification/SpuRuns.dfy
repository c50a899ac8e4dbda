/** Whole runs of the lifted machine against whole runs of the guest, and how runs end. */
module SpuRuns {
  import opened Basics
  import opened SpuIsa
  import opened SpuLift
  import opened SpuSimulation
  import H = SpuHost

  /** The guest after k steps, if it stayed inside the image and neither stopped nor halted. */
  ghost function Run(im: Image, jumps: set<int>, w: Watched, k: nat): Option<Watched>
    decreases k
  {
    if k == 0 then Some(w)
    else
      match Run(im, jumps, w, k - 1)
      case None => None
      case Some(v) => if GoesOn(im, v) then Some(Next(im, jumps, v)) else None
  }

  lemma {:induction false} RunPrefix(im: Image, jumps: set<int>, w: Watched, j: nat, k: nat)
    requires j <= k && Run(im, jumps, w, k).Some?
    ensures Run(im, jumps, w, j).Some? && (j < k ==> GoesOn(im, Run(im, jumps, w, j).value))
    decreases k
  {
    hide GoesOn, Next;
    if j < k {
      RunPrefix(im, jumps, w, j, k - 1);
    }
  }

  /** Every one of the first k guest steps agrees. */
  ghost predicate AllAgree(im: Image, jumps: set<int>, w: Watched, k: nat) {
    forall j: nat :: j < k ==>
      Run(im, jumps, w, j).Some? && GoesOn(im, Run(im, jumps, w, j).value)
      && Agrees(im, jumps, Run(im, jumps, w, j).value)
  }

  /** The host at the k-th instruction label after h. */
  ghost function LabelAt(p: Program, h: H.Host, k: nat): H.Host
    decreases k
  {
    if k == 0 then h else ToLabel(p, LabelAt(p, h, k - 1), FUEL)
  }

  ghost predicate RelatedAt(p: Program, im: Image, jumps: set<int>, w: Watched, h: H.Host, j: nat) {
    Run(im, jumps, w, j).Some? && Related(p, im, Run(im, jumps, w, j).value, LabelAt(p, h, j))
  }

  /** The simulation theorem, both ways: for a guest run of k steps in the image, the lifted code is at
      the guest's instruction with the guest's state at each of its first k labels, exactly when every
      step of the run agrees. */
  lemma {:induction false} RunsMatchIffAllAgree(p: Program, im: Image, jumps: set<int>, w: Watched, h: H.Host, k: nat)
    requires IsLift(p, im, jumps) && Related(p, im, w, h) && Run(im, jumps, w, k).Some?
    ensures (forall j: nat :: j <= k ==> RelatedAt(p, im, jumps, w, h, j)) <==> AllAgree(im, jumps, w, k)
    decreases k
  {
    hide GoesOn, Next, Agrees, Related, IsLift, ToLabel;
    if k > 0 {
      RunPrefix(im, jumps, w, k - 1, k);
      RunsMatchIffAllAgree(p, im, jumps, w, h, k - 1);
      var v := Run(im, jumps, w, k - 1).value;
      if RelatedAt(p, im, jumps, w, h, k - 1) {
        LiftedStepMatchesIffAgrees(p, im, jumps, v, LabelAt(p, h, k - 1));
        assert RelatedAt(p, im, jumps, w, h, k) <==> Agrees(im, jumps, v);
      }
      if AllAgree(im, jumps, w, k) {
        assert AllAgree(im, jumps, w, k - 1);
        assert RelatedAt(p, im, jumps, w, h, k - 1) && Agrees(im, jumps, v);
      }
      if forall j: nat :: j <= k ==> RelatedAt(p, im, jumps, w, h, j) {
        assert RelatedAt(p, im, jumps, w, h, k - 1) && RelatedAt(p, im, jumps, w, h, k);
      }
    } else {
      assert RelatedAt(p, im, jumps, w, h, 0);
    }
  }

  // ----- the same theorem on single host steps: the sequence of labels visited -----

  ghost function Visited(p: Program, h: H.Host, n: nat): seq<Guest>
    decreases n
  {
    var here := H.Runs(p, h, n);
    (if n == 0 then [] else Visited(p, h, n - 1)) + (if here.ctl.Label? then [Guest(here.ctl.a, here.core)] else [])
  }

  ghost function GuestStates(im: Image, jumps: set<int>, w: Watched, k: nat): seq<Guest>
    decreases k
  {
    var here := Run(im, jumps, w, k);
    (if k == 0 then [] else GuestStates(im, jumps, w, k - 1)) + (if here.Some? then [here.value.g] else [])
  }

  lemma {:induction false} RunsFrom(p: Program, h: H.Host, n: nat, i: nat)
    ensures H.Runs(p, H.Runs(p, h, n), i) == H.Runs(p, h, n + i)
    decreases i
  {
    hide H.Step;
    if i > 0 {
      RunsFrom(p, h, n, i - 1);
    }
  }

  /** ToLabel is a number of single steps that pass no label on the way. */
  lemma {:induction false} ToLabelSteps(p: Program, h0: H.Host, n: nat, fuel: nat) returns (m: nat)
    ensures m >= 1 && H.Runs(p, h0, n + m) == ToLabel(p, H.Runs(p, h0, n), fuel)
    ensures H.Runs(p, h0, n + m).ctl.Label? ==>
            Visited(p, h0, n + m) == Visited(p, h0, n) + [Guest(H.Runs(p, h0, n + m).ctl.a, H.Runs(p, h0, n + m).core)]
    decreases fuel
  {
    hide H.Step;
    var next := H.Runs(p, h0, n + 1);
    if fuel == 0 || next.ctl.Label? || next.ctl.Finished? {
      m := 1;
    } else {
      var rest := ToLabelSteps(p, h0, n + 1, fuel - 1);
      m := rest + 1;
      assert n + m == n + 1 + rest;
      assert Visited(p, h0, n + 1) == Visited(p, h0, n);
    }
  }

  /** From the driver's start, the lifted program visits exactly the guest's states, in order: its labels
      up to some step are the guest's first k + 1 states (pc, registers and memory). */
  lemma {:induction false} LiftedProgramFollowsGuest(p: Program, im: Image, jumps: set<int>, entry: int, c: Core,
                                                     k: nat)
    returns (n: nat)
    requires IsLift(p, im, jumps) && im.Has(entry)
    requires var w := Watched(Guest(entry, c), []); Run(im, jumps, w, k).Some? && AllAgree(im, jumps, w, k)
    ensures var w := Watched(Guest(entry, c), []);
            var h := H.Runs(p, H.Start(entry, c), n);
            Related(p, im, Run(im, jumps, w, k).value, h)
            && Visited(p, H.Start(entry, c), n) == GuestStates(im, jumps, w, k)
            && h.depth == |h.stack| == |Run(im, jumps, w, k).value.calls|
    decreases k
  {
    hide GoesOn, Next, Agrees, IsLift, ToLabel, H.Step;
    var w, start := Watched(Guest(entry, c), []), H.Start(entry, c);
    if k == 0 {
      n := 2;
      FirstLabel(p, im, jumps, entry, c);
    } else {
      RunPrefix(im, jumps, w, k - 1, k);
      assert AllAgree(im, jumps, w, k - 1);
      var n0 := LiftedProgramFollowsGuest(p, im, jumps, entry, c, k - 1);
      var v := Run(im, jumps, w, k - 1).value;
      LiftedStepMatchesIffAgrees(p, im, jumps, v, H.Runs(p, start, n0));
      var m := ToLabelSteps(p, start, n0, FUEL);
      n := n0 + m;
      assert Run(im, jumps, w, k).value == Next(im, jumps, v);
    }
  }

  lemma FirstLabel(p: Program, im: Image, jumps: set<int>, entry: int, c: Core)
    requires IsLift(p, im, jumps) && im.Has(entry)
    ensures Related(p, im, Watched(Guest(entry, c), []), H.Runs(p, H.Start(entry, c), 2))
    ensures Visited(p, H.Start(entry, c), 2) == [Guest(entry, c)]
  {
    HasOwner(p, im, jumps, entry);
    var h0 := H.Start(entry, c);
    var h1 := H.Step(p, h0);
    assert H.Runs(p, h0, 0) == h0;
    assert H.Runs(p, h0, 1) == h1 && h1.ctl == H.Enter(RegionFn(p.owner[entry]));
    assert H.Runs(p, h0, 2) == H.Step(p, h1) && H.Step(p, h1).ctl == H.Label(p.owner[entry], entry);
    assert Visited(p, h0, 0) == [] && Visited(p, h0, 1) == [];
  }

  // ----- how a run ends -----

  /** The host at the link address of the innermost call, with the outer calls still live. */
  ghost predicate ResumesCaller(p: Program, im: Image, w: Watched, r: H.Host)
    requires im.Valid() && w.calls != []
  {
    var n := |w.calls| - 1;
    var link := w.calls[n];
    link in p.owner && r.ctl == H.Label(p.owner[link], link) && r.tramp.None? && StackMatches(p, im, w.calls[..n], r)
  }

  /** A stop instruction only returns from its region function. At depth 0 that ends the run with the
      stop code; below a live call the lifted code goes on in the caller, at the call's link address,
      although the status already says stopped. */
  lemma StopEndsTheRunIffNoCallIsLive(p: Program, im: Image, jumps: set<int>, w: Watched, h: H.Host)
    requires IsLift(p, im, jumps) && Related(p, im, w, h) && im.At(w.g.pc).Stop?
    ensures var r := ToLabel(p, h, FUEL);
            r.status == StoppedByStop(im.At(w.g.pc).code) && r.core == w.g.core
            && (r.ctl.Finished? <==> w.calls == [])
            && (w.calls == [] ==> r.pc == w.g.pc)
            && (w.calls != [] ==> ResumesCaller(p, im, w, r))
  {
    hide IsLift, Covers, Image.Valid, Resumes;
    AtCode(p, im, jumps, w, h);
    var h2 := H.Step(p, H.Step(p, h));
    assert h2 == h.(pc := w.g.pc, status := StoppedByStop(im.At(w.g.pc).code), ctl := H.Drain);
    if w.calls != [] {
      ReturnToCall(p, im, jumps, w.calls, h2, FUEL - 2);
    }
  }

  /** A failing heq/hgt/hlgt unwinds the whole host stack: the run ends at any call depth. */
  lemma HaltEndsTheRun(p: Program, im: Image, jumps: set<int>, w: Watched, h: H.Host)
    requires IsLift(p, im, jumps) && Related(p, im, w, h)
    requires im.At(w.g.pc).HaltIf? && im.At(w.g.pc).fails(w.g.core)
    ensures Step(im, w.g) == Halts(w.g.core)
    ensures var r := ToLabel(p, h, FUEL);
            r.ctl.Finished? && r.status == StoppedByHalt && r.pc == w.g.pc && r.core == w.g.core
  {
    AtCode(p, im, jumps, w, h);
    var h1 := H.Step(p, h);
    TakenWhen(p, h1);
  }

  /** The guest hangs on a branch to itself; the lifted code halts there instead, with the guest's
      registers (and, like a stop, goes on in the caller when a call is live). */
  lemma SelfBranchHalts(p: Program, im: Image, jumps: set<int>, w: Watched, h: H.Host)
    requires IsLift(p, im, jumps) && Related(p, im, w, h)
    requires im.At(w.g.pc).Br? && im.At(w.g.pc).target == w.g.pc
    ensures forall n: nat :: Run(im, jumps, w, n) == Some(w)
    ensures var r := ToLabel(p, h, FUEL);
            r.status == StoppedByHalt && r.core == w.g.core && (r.ctl.Finished? <==> w.calls == [])
            && (w.calls == [] ==> r.pc == w.g.pc)
            && (w.calls != [] ==> ResumesCaller(p, im, w, r))
  {
    assert GoesOn(im, w) && Next(im, jumps, w) == w;
    forall n: nat ensures Run(im, jumps, w, n) == Some(w) {
      StaysPut(im, jumps, w, n);
    }
    AtCode(p, im, jumps, w, h);
    var h2 := H.Step(p, H.Step(p, h));
    assert h2 == h.(pc := w.g.pc, status := StoppedByHalt, ctl := H.Drain);
    if w.calls != [] {
      ReturnToCall(p, im, jumps, w.calls, h2, FUEL - 2);
    }
  }

  function Drained(im: Image, jumps: set<int>, w: Watched, h: H.Host): H.Host
    requires GoesOn(im, w)
  {
    h.(core := Next(im, jumps, w).g.core, pc := w.g.pc, status := StoppedByHalt, ctl := H.Drain)
  }

  /** Enter the body, set the link, halt. */
  lemma SelfCallDrains(p: Program, im: Image, jumps: set<int>, w: Watched, h: H.Host)
    requires IsLift(p, im, jumps) && Related(p, im, w, h)
    requires im.At(w.g.pc).Brsl? && im.At(w.g.pc).target == w.g.pc && im.Has(w.g.pc + 4)
    ensures GoesOn(im, w)
    ensures ToLabel(p, h, FUEL) == ToLabel(p, Drained(im, jumps, w, h), FUEL - 3)
  {
    hide IsLift, Covers, Resumes;
    AtCode(p, im, jumps, w, h);
    assert H.Step(p, H.Step(p, H.Step(p, h))) == Drained(im, jumps, w, h);
  }

  /** A call of itself likewise, after it has set its link. */
  lemma SelfCallHalts(p: Program, im: Image, jumps: set<int>, w: Watched, h: H.Host)
    requires IsLift(p, im, jumps) && Related(p, im, w, h)
    requires im.At(w.g.pc).Brsl? && im.At(w.g.pc).target == w.g.pc && im.Has(w.g.pc + 4)
    ensures GoesOn(im, w) && Next(im, jumps, w).g.pc == w.g.pc && Next(im, jumps, w).calls == w.calls
    ensures var r := ToLabel(p, h, FUEL);
            r.status == StoppedByHalt && r.core == Next(im, jumps, w).g.core && (r.ctl.Finished? <==> w.calls == [])
            && (w.calls == [] ==> r.pc == w.g.pc)
            && (w.calls != [] ==> ResumesCaller(p, im, w, r))
  {
    hide IsLift, Covers, Resumes;
    SelfCallDrains(p, im, jumps, w, h);
    if w.calls != [] {
      ReturnToCall(p, im, jumps, w.calls, Drained(im, jumps, w, h), FUEL - 3);
    }
  }

  lemma {:induction false} StaysPut(im: Image, jumps: set<int>, w: Watched, n: nat)
    requires GoesOn(im, w) && Next(im, jumps, w) == w
    ensures Run(im, jumps, w, n) == Some(w)
  {
    if n > 0 {
      StaysPut(im, jumps, w, n - 1);
    }
  }

  /** A linked branch through its own link register goes to the next instruction: the emitted code sets
      the link before it reads the target. */
  lemma SelfLinkedBranchDiverges(p: Program, im: Image, jumps: set<int>, w: Watched, h: H.Host)
    requires IsLift(p, im, jumps) && Related(p, im, w, h) && GoesOn(im, w)
    requires var i := im.At(w.g.pc);
             (i.Bisl? || (i.Bisled? && w.g.core.side.eventPending)) && i.link == i.ra
             && BranchAddress(w.g.core.Pref(i.ra)) != w.g.pc + 4
    ensures !Related(p, im, Next(im, jumps, w), ToLabel(p, h, FUEL))
  {
    LiftedStepMatchesIffAgrees(p, im, jumps, w, h);
  }

  // ----- a program that ends in a call -----

  /** A call of the last instruction, and a stop for its return. */
  function CallOf(last: Insn): Image { Image(0, [Brsl(0, 8), Stop(1), last]) }

  function Called(c: Core): Watched { Watched(Guest(8, c.With(0, LinkQuad(4))), [4]) }

  lemma CallOfIs(last: Insn)
    requires last.Stop? || (last.Br? && last.target == 8)
    ensures var im := CallOf(last);
            im.Valid() && im.Has(0) && im.Has(4) && im.Has(8) && im.At(0) == Brsl(0, 8) && im.At(4) == Stop(1)
              && im.At(8) == last
  {
    var im := CallOf(last);
    assert im.code[0] == Brsl(0, 8) && im.code[1] == Stop(1) && im.code[2] == last;
  }

  /** In every lift of it the host reaches the called instruction, one call deep. */
  lemma CallIsReached(p: Program, jumps: set<int>, last: Insn, c: Core) returns (n: nat)
    requires last.Stop? || (last.Br? && last.target == 8)
    requires IsLift(p, CallOf(last), jumps)
    ensures Run(CallOf(last), jumps, Watched(Guest(0, c), []), 1) == Some(Called(c))
    ensures Related(p, CallOf(last), Called(c), H.Runs(p, H.Start(0, c), n))
  {
    hide IsLift, Related, H.Runs, CallOf, Image.Valid, Image.Has, Image.At;
    var im, w := CallOf(last), Watched(Guest(0, c), []);
    CallOfIs(last);
    assert Run(im, jumps, w, 0) == Some(w) && GoesOn(im, w) && Agrees(im, jumps, w);
    assert Step(im, w.g) == Outcome.Run(Called(c).g) && CallsAfter(im, jumps, w) == [4];
    assert Next(im, jumps, w) == Called(c);
    n := LiftedProgramFollowsGuest(p, im, jumps, 0, c, 1);
  }

  /** The host resumes behind the call and takes the stop there. */
  lemma ResumesAtTheStop(p: Program, jumps: set<int>, last: Insn, h: H.Host)
    requires last.Stop? || (last.Br? && last.target == 8)
    requires IsLift(p, CallOf(last), jumps) && h.tramp.None? && h.stack == []
    requires 4 in p.owner && h.ctl == H.Label(p.owner[4], 4)
    ensures var r := ToLabel(p, h, FUEL);
            r.ctl.Finished? && r.status == StoppedByStop(1) && r.pc == 4 && r.core == h.core
  {
    hide IsLift, CallOf, Image.Valid, Image.Has, Image.At;
    CallOfIs(last);
    HasOwner(p, CallOf(last), jumps, 4);
    var h2 := H.Step(p, H.Step(p, h));
    assert h2.ctl == H.Drain && h2.tramp.None? && h2.stack == [];
  }

  /** A guest that hangs inside a call: the lifted code comes back from it, runs on, and stops with the code of the
      caller's stop. */
  lemma HangInACallComesBack(p: Program, jumps: set<int>, c: Core) returns (n: nat)
    requires IsLift(p, CallOf(Br(8)), jumps)
    ensures forall k: nat :: Run(CallOf(Br(8)), jumps, Called(c), k) == Some(Called(c))
    ensures var h := H.Runs(p, H.Start(0, c), n);
            var r := ToLabel(p, ToLabel(p, h, FUEL), FUEL);
            Related(p, CallOf(Br(8)), Called(c), h)
            && r.ctl.Finished? && r.status == StoppedByStop(1) && r.pc == 4 && r.core == Called(c).g.core
  {
    hide IsLift, H.Runs, H.Step, ToLabel, CallOf, Image.Valid, Image.Has, Image.At, Run;
    n := CallIsReached(p, jumps, Br(8), c);
    CallOfIs(Br(8));
    var h := H.Runs(p, H.Start(0, c), n);
    SelfBranchHalts(p, CallOf(Br(8)), jumps, Called(c), h);
    ResumesAtTheStop(p, jumps, Br(8), ToLabel(p, h, FUEL));
  }

  /** A guest that stops inside a call: the lifted code stops with the caller's code instead. */
  lemma StopInACallIsReplaced(p: Program, jumps: set<int>, code: nat, c: Core) returns (n: nat)
    requires IsLift(p, CallOf(Stop(code)), jumps)
    ensures CallOf(Stop(code)).Valid() && CallOf(Stop(code)).Has(8)
            && Step(CallOf(Stop(code)), Called(c).g) == Stops(code, Called(c).g.core)
    ensures var h := H.Runs(p, H.Start(0, c), n);
            var r := ToLabel(p, ToLabel(p, h, FUEL), FUEL);
            Related(p, CallOf(Stop(code)), Called(c), h) && r.ctl.Finished? && r.status == StoppedByStop(1)
  {
    hide IsLift, H.Runs, H.Step, ToLabel, CallOf, Image.Valid, Image.Has, Image.At, Run;
    n := CallIsReached(p, jumps, Stop(code), c);
    CallOfIs(Stop(code));
    var h := H.Runs(p, H.Start(0, c), n);
    StopEndsTheRunIffNoCallIsLive(p, CallOf(Stop(code)), jumps, Called(c), h);
    ResumesAtTheStop(p, jumps, Stop(code), ToLabel(p, h, FUEL));
  }
}
