/** Fragment discovery of the PPU lifter (tools/ppu_lifter.py): every branch or call target is turned into a
    function of its own, pass after pass, until nothing new is referenced. */
module Discovery {
  import opened Basics
  import opened FunctionBounds

  /** The control flow of an instruction: `b`, `bl`, a conditional branch with a target, `blr`/`blrl`, `bctr`,
      `bctrl`, data that does not decode, anything else. */
  datatype Kind =
    | Branch(target: nat) | Call(target: nat) | CondBranch(target: nat)
    | Return | Indirect | IndirectCall | Data | Plain

  datatype Insn = Insn(addr: nat, kind: Kind)

  /** The instructions, sorted by address. */
  type Image = img: seq<Insn> | forall i, j :: 0 <= i < j < |img| ==> img[i].addr < img[j].addr witness []

  /** The lifted functions and the addresses referenced as functions. */
  datatype State = State(fns: seq<Fn>, targets: set<nat>)

  predicate HasInsn(img: Image, a: nat) { exists i :: 0 <= i < |img| && img[i].addr == a }

  // ----- lifting one range -----

  /** Does translating this instruction inside [start, end) mention another function? A branch inside the
      range becomes a goto; a call never does. */
  predicate Mentions(k: Kind, start: nat, end: nat) {
    k.Call? || ((k.Branch? || k.CondBranch?) && !(start <= k.target < end))
  }

  /** Control that cannot run past its instruction. */
  predicate Ends(k: Kind) { k.Branch? || k.Return? || k.Indirect? }

  predicate InWindow(img: Image, start: nat, end: nat, i: nat) { i < |img| && start <= img[i].addr < end }

  predicate IsLast(img: Image, start: nat, end: nat, i: nat) {
    InWindow(img, start, end, i) && (i + 1 == |img| || img[i + 1].addr >= end)
  }

  /** The last instruction of the range falls through its end. */
  predicate FallsThrough(img: Image, start: nat, end: nat) {
    exists i :: 0 <= i < |img| && IsLast(img, start, end, i) && !Ends(img[i].kind)
  }

  function MentionedBy(img: Image, start: nat, end: nat): set<nat> {
    set i | 0 <= i < |img| && InWindow(img, start, end, i) && Mentions(img[i].kind, start, end) :: img[i].kind.target
  }

  /** The functions a lifted range refers to. */
  function Refs(img: Image, f: Fn): set<nat> {
    MentionedBy(img, f.start, f.end) + (if FallsThrough(img, f.start, f.end) then {f.end} else {})
  }

  function Lift(img: Image, st: State, f: Fn): State { State(st.fns + [f], st.targets + Refs(img, f)) }

  // ----- one pass -----

  function Starts(fns: seq<Fn>): set<nat> { set f | f in fns :: f.start }

  /** The end of the function an address lies strictly inside. */
  function ContainerEnd(fns: seq<Fn>, t: nat): Option<nat> {
    if fns == [] then None
    else if fns[0].start < t < fns[0].end then Some(fns[0].end)
    else ContainerEnd(fns[1..], t)
  }

  /** The probe of an address outside the trusted code: at most 16 instructions, decoding up to an
      unconditional transfer. */
  predicate Transfers(k: Kind) { k.Branch? || k.Return? || k.Indirect? || k.IndirectCall? }

  function IndexOf(img: Image, a: nat): nat
    decreases |img|
  {
    if img == [] || img[0].addr >= a then 0 else 1 + IndexOf(img[1..], a)
  }

  predicate Decodes(probe: seq<Insn>) {
    probe == [] || (!probe[0].kind.Data? && (Transfers(probe[0].kind) || Decodes(probe[1..])))
  }

  predicate Plausible(img: Image, t: nat) {
    var lo := IndexOf(img, t);
    IndexBelow(img, t);
    var probe := img[lo..if lo + 16 <= |img| then lo + 16 else |img|];
    probe != [] && probe[0].addr == t && Decodes(probe)
  }

  lemma {:induction false} IndexBelow(img: Image, a: nat)
    ensures IndexOf(img, a) <= |img|
    decreases |img|
  {
    if img != [] && img[0].addr < a {
      IndexBelow(img[1..], a);
    }
  }

  /** An address is plausible iff an instruction is there and, among the sixteen from there on, nothing undecodable
      comes before the first unconditional transfer. */
  lemma PlausibleMeans(img: Image, t: nat)
    ensures Plausible(img, t) <==>
            exists lo :: 0 <= lo < |img| && img[lo].addr == t
                         && forall j :: lo <= j < |img| && j < lo + 16 ==> Reads(img, lo, j)
  {
    hide Decodes, Reads;
    var lo := IndexOf(img, t);
    IndexBelow(img, t);
    IndexIsFirst(img, t);
    var probe := img[lo..if lo + 16 <= |img| then lo + 16 else |img|];
    DecodesMeans(img, lo, lo, lo + |probe|);
    assert probe == img[lo..lo + |probe|];
    if Plausible(img, t) {
      assert img[lo].addr == t;
    }
    if l :| 0 <= l < |img| && img[l].addr == t && forall j :: l <= j < |img| && j < l + 16 ==> Reads(img, l, j) {
      assert l == lo;
    }
  }

  /** Instruction j is decodable, or behind a transfer of those from lo on. */
  predicate Reads(img: Image, lo: nat, j: nat) {
    j < |img| && (img[j].kind.Data? ==> exists m :: lo <= m < j && Transfers(img[m].kind))
  }

  lemma {:induction false} IndexIsFirst(img: Image, a: nat)
    ensures var n := IndexOf(img, a);
            n <= |img| && (forall k :: 0 <= k < n ==> img[k].addr < a) && (n < |img| ==> a <= img[n].addr)
    decreases |img|
  {
    if img != [] && img[0].addr < a {
      IndexIsFirst(img[1..], a);
    }
  }

  lemma {:induction false} DecodesMeans(img: Image, lo: nat, i: nat, hi: nat)
    requires lo <= i <= hi <= |img| && forall m :: lo <= m < i ==> !Transfers(img[m].kind)
    ensures Decodes(img[i..hi]) <==> forall j :: i <= j < hi ==> Reads(img, lo, j)
    decreases hi - i
  {
    if i < hi {
      assert img[i..hi][0] == img[i] && img[i..hi][1..] == img[i + 1..hi];
      if !img[i].kind.Data? && !Transfers(img[i].kind) {
        DecodesMeans(img, lo, i + 1, hi);
      }
      assert Reads(img, lo, i) <==> !img[i].kind.Data?;
    }
  }

  function Min(a: nat, b: nat): nat { if a <= b then a else b }

  /** The end of the trusted span an address lies in, or the address itself. */
  function SpanEnd(spans: seq<Fn>, a: nat): nat {
    if spans == [] then a else if Inside(spans[0], a) then spans[0].end else SpanEnd(spans[1..], a)
  }

  /** Where a function lifted at an undefined target would end; None leaves the target to a stub. */
  function EndFor(img: Image, spans: seq<Fn>, fns: seq<Fn>, t: nat): Option<nat> {
    var container := ContainerEnd(fns, t);
    if container.Some? then container
    else if !HasInsn(img, t) then None
    else
      var next := NextKey(Starts(fns), t);
      var end := if next.Some? then next.value else t + 0x1000;
      if Covered(spans, t) then Some(Min(end, SpanEnd(spans, t)))
      else if end - t > 0x4000 || !Plausible(img, t) then None
      else Some(end)
  }

  /** Past the last function a plausible target would run 0x1000 bytes. */
  lemma PastTheLastFunction(img: Image, spans: seq<Fn>, fns: seq<Fn>, t: nat)
    requires ContainerEnd(fns, t).None? && HasInsn(img, t) && !Covered(spans, t) && Plausible(img, t)
    requires forall f :: f in fns ==> f.start <= t
    ensures EndFor(img, spans, fns, t) == Some(t + 0x1000)
  {
    hide HasInsn, ContainerEnd, Plausible, Covered;
    NextKeyMeaning(Starts(fns), t, 0);
  }

  function Visit(img: Image, spans: seq<Fn>, snapshot: seq<Fn>, st: State, t: nat): State {
    var e := EndFor(img, spans, snapshot, t);
    if e.Some? && e.value > t then Lift(img, st, Fn(t, e.value)) else st
  }

  /** The targets in ascending order, all judged against the functions of the start of the pass. */
  function Visits(img: Image, spans: seq<Fn>, snapshot: seq<Fn>, st: State, todo: seq<nat>): State
    decreases |todo|
  {
    if todo == [] then st
    else Visit(img, spans, snapshot, Visits(img, spans, snapshot, st, todo[..|todo| - 1]), todo[|todo| - 1])
  }

  function Undefined(st: State): set<nat> { st.targets - Starts(st.fns) }

  function Pass(img: Image, spans: seq<Fn>, st: State): State {
    Visits(img, spans, st.fns, st, Sorted(Undefined(st)))
  }

  /** At most n passes, stopping after one that adds nothing. */
  function Discovered(img: Image, spans: seq<Fn>, st: State, n: nat): State
    decreases n
  {
    if n == 0 then st
    else
      var next := Pass(img, spans, st);
      if |next.fns| == |st.fns| then next else Discovered(img, spans, next, n - 1)
  }

  predicate Converged(img: Image, spans: seq<Fn>, st: State) { |Pass(img, spans, st).fns| == |st.fns| }

  /** Lifting the given bounds, before discovery. */
  function Initial(img: Image, bounds: seq<Fn>): State
    decreases |bounds|
  {
    if bounds == [] then State([], {}) else Lift(img, Initial(img, bounds[..|bounds| - 1]), bounds[|bounds| - 1])
  }

  // ----- the invariant of the passes -----

  /** Two ranges are disjoint or share an end. */
  predicate Compatible(f: Fn, g: Fn) { f.end <= g.start || g.end <= f.start || f.end == g.end }

  predicate Laminar(fns: seq<Fn>) {
    (forall f :: f in fns ==> f.start < f.end) && (forall f, g :: f in fns && g in fns ==> Compatible(f, g))
  }

  predicate DistinctStarts(fns: seq<Fn>) { forall i, j :: 0 <= i < j < |fns| ==> fns[i].start != fns[j].start }

  /** Every trusted code address belongs to a function. */
  ghost predicate CodeCovered(spans: seq<Fn>, fns: seq<Fn>) { forall a: nat :: Covered(spans, a) ==> Covered(fns, a) }

  /** The addresses that can ever be referenced, started or ended at. */
  function BranchTargets(img: Image): set<nat> {
    set i | 0 <= i < |img| && (img[i].kind.Branch? || img[i].kind.Call? || img[i].kind.CondBranch?)
      :: img[i].kind.target
  }

  function Bounds(fns: seq<Fn>): set<nat> { Starts(fns) + (set f | f in fns :: f.end) }

  predicate Within(st: State, u: set<nat>) { st.targets <= u && Bounds(st.fns) <= u }

  /** No referenced instruction lies past the last function: some function ends beyond it. */
  predicate NoneBeyond(img: Image, u: set<nat>, fns: seq<Fn>) {
    forall t :: t in u && HasInsn(img, t) ==> EndsBeyond(fns, t)
  }

  predicate EndsBeyond(fns: seq<Fn>, t: nat) { exists f :: f in fns && t < f.end }

  /** What every pass keeps. */
  ghost predicate Kept(img: Image, spans: seq<Fn>, u: set<nat>, st: State) {
    Laminar(st.fns) && DistinctStarts(st.fns) && CodeCovered(spans, st.fns) && Within(st, u)
    && BranchTargets(img) <= u && NoneBeyond(img, u, st.fns)
  }

  // ----- containers -----

  predicate Contains(f: Fn, t: nat) { f.start < t < f.end }

  lemma {:induction false} ContainerEndMeaning(fns: seq<Fn>, t: nat)
    ensures var r := ContainerEnd(fns, t);
            r.Some? ==> exists f :: f in fns && Contains(f, t) && r.value == f.end
    ensures ContainerEnd(fns, t).None? ==> forall f :: f in fns ==> !Contains(f, t)
    decreases |fns|
  {
    if fns != [] {
      if !Contains(fns[0], t) {
        ContainerEndMeaning(fns[1..], t);
        assert forall f :: f in fns ==> f == fns[0] || f in fns[1..];
        var r := ContainerEnd(fns[1..], t);
        if r.Some? {
          var f :| f in fns[1..] && Contains(f, t) && r.value == f.end;
          assert f in fns;
        }
      } else {
        assert fns[0] in fns;
      }
    }
  }

  /** All containers of an address end at the same place. */
  lemma ContainersShareTheEnd(fns: seq<Fn>, f: Fn, t: nat)
    requires Laminar(fns) && f in fns && Contains(f, t)
    ensures ContainerEnd(fns, t) == Some(f.end)
  {
    ContainerEndMeaning(fns, t);
    var r := ContainerEnd(fns, t);
    var g :| g in fns && Contains(g, t) && r.value == g.end;
    assert Compatible(f, g);
  }

  lemma StartIn(fns: seq<Fn>, f: Fn)
    requires f in fns
    ensures f.start in Starts(fns)
  {
  }

  /** Inside the trusted code an undefined target always has a container, so the span clamp never bites. */
  lemma CodeTargetHasContainer(spans: seq<Fn>, fns: seq<Fn>, t: nat)
    requires CodeCovered(spans, fns) && Covered(spans, t) && t !in Starts(fns)
    ensures ContainerEnd(fns, t).Some?
  {
    ContainerEndMeaning(fns, t);
    assert Covered(fns, t);
    var f :| f in fns && Inside(f, t);
    StartIn(fns, f);
  }

  /** A target outside every function has a next function. */
  lemma GapTargetHasNext(img: Image, u: set<nat>, fns: seq<Fn>, t: nat)
    requires NoneBeyond(img, u, fns) && t in u && HasInsn(img, t) && t !in Starts(fns) && ContainerEnd(fns, t).None?
    ensures NextKey(Starts(fns), t).Some?
  {
    hide HasInsn;
    ContainerEndMeaning(fns, t);
    assert EndsBeyond(fns, t);
    var f :| f in fns && t < f.end;
    StartIn(fns, f);
    NextKeyMeaning(Starts(fns), t, f.start);
  }

  /** Where an undefined target is lifted to: its container's end, or the next function. */
  lemma LiftedEnd(img: Image, spans: seq<Fn>, u: set<nat>, fns: seq<Fn>, t: nat)
    requires CodeCovered(spans, fns) && NoneBeyond(img, u, fns) && t in u && t !in Starts(fns)
    requires EndFor(img, spans, fns, t).Some?
    ensures ContainerEnd(fns, t).None? ==> NextKey(Starts(fns), t).Some?
    ensures EndFor(img, spans, fns, t) ==
              if ContainerEnd(fns, t).Some? then ContainerEnd(fns, t) else NextKey(Starts(fns), t)
    ensures t < EndFor(img, spans, fns, t).value
  {
    hide HasInsn, ContainerEnd, NextKey, Covered, Plausible, NoneBeyond, CodeCovered, SpanEnd;
    if ContainerEnd(fns, t).None? {
      if Covered(spans, t) {
        CodeTargetHasContainer(spans, fns, t);
      }
      GapTargetHasNext(img, u, fns, t);
      NextKeyMeaning(Starts(fns), t, 0);
    } else {
      ContainerEndMeaning(fns, t);
    }
  }
}
