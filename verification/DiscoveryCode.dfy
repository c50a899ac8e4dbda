/** The control flow of the C a range is lifted to (tools/ppu_lifter.py), the functions that code names, and the guest's
    own control flow: what discovery records for a range is exactly what its code names, and exactly where the guest
    goes from it. */
module DiscoveryCode {
  import opened Basics
  import opened FunctionBounds
  import opened Discovery

  // ----- the emitted code -----

  /** The line an instruction becomes, as far as control goes. */
  datatype Line =
    | Goto(to: nat)                     // goto loc_..
    | Tail(fn: nat)                     // g_trampoline_fn = func_..; return
    | CallFn(fn: nat)                   // func_..(ctx); DRAIN_TRAMPOLINE(ctx)
    | Cond(line: Line)                  // if (..) ..
    | Leave                             // return
    | Dispatch(tail: bool)              // ps3_indirect_call(ctx); and return, or go on
    | Straight                          // anything that does not transfer control

  /** A branch to an address, from inside a range. */
  function BranchLine(start: nat, end: nat, t: nat): Line { if t < start || t >= end then Tail(t) else Goto(t) }

  function LineOf(k: Kind, start: nat, end: nat): Line {
    match k
    case Branch(t) => BranchLine(start, end, t)
    case Call(t) => CallFn(t)
    case CondBranch(t) => Cond(BranchLine(start, end, t))
    case Return => Leave
    case Indirect => Dispatch(true)
    case IndirectCall => Dispatch(false)
    case Data => Straight
    case Plain => Straight
  }

  /** The lines of a range in address order, each under its address. */
  function Lines(img: Image, f: Fn): seq<(nat, Line)> {
    LinesFrom(img, f, 0)
  }

  function LinesFrom(img: Image, f: Fn, i: nat): seq<(nat, Line)>
    decreases |img| - i
  {
    if i >= |img| then []
    else (if f.start <= img[i].addr < f.end then [(img[i].addr, LineOf(img[i].kind, f.start, f.end))] else [])
         + LinesFrom(img, f, i + 1)
  }

  /** Control may reach the line after this one. */
  predicate MayPass(l: Line) { !(l.Goto? || l.Tail? || l.Leave? || (l.Dispatch? && l.tail)) }

  /** The body of the C function: its lines, and a hand-off to the function at its end when the last may pass. */
  function Body(img: Image, f: Fn): seq<Line> {
    var ls := Lines(img, f);
    seq(|ls|, (i: nat) requires i < |ls| => ls[i].1)
    + (if ls != [] && MayPass(ls[|ls| - 1].1) then [Tail(f.end)] else [])
  }

  function FnsOf(l: Line): set<nat> {
    match l
    case Tail(fn) => {fn}
    case CallFn(fn) => {fn}
    case Cond(l) => FnsOf(l)
    case _ => {}
  }

  /** A func_ symbol the body refers to. */
  ghost predicate Names(body: seq<Line>, t: nat) { exists i :: 0 <= i < |body| && t in FnsOf(body[i]) }

  // ----- recorded is what is named -----

  lemma {:induction false} LinesFromMeans(img: Image, f: Fn, i: nat, a: nat, l: Line)
    ensures (a, l) in LinesFrom(img, f, i) <==>
            exists j :: i <= j < |img| && Inside(f, img[j].addr) && img[j].addr == a
                        && LineOf(img[j].kind, f.start, f.end) == l
    decreases |img| - i
  {
    hide LineOf;
    if i < |img| {
      LinesFromMeans(img, f, i + 1, a, l);
    }
  }

  lemma {:induction false} LastLine(img: Image, f: Fn, i: nat)
    requires LinesFrom(img, f, i) != []
    ensures var ls := LinesFrom(img, f, i);
            exists j :: i <= j < |img| && IsLast(img, f.start, f.end, j)
                        && ls[|ls| - 1] == (img[j].addr, LineOf(img[j].kind, f.start, f.end))
    decreases |img| - i
  {
    hide LineOf;
    if LinesFrom(img, f, i + 1) != [] {
      LastLine(img, f, i + 1);
    } else {
      NoLines(img, f, i + 1);
      assert IsLast(img, f.start, f.end, i);
    }
  }

  lemma {:induction false} NoLines(img: Image, f: Fn, i: nat)
    requires LinesFrom(img, f, i) == []
    ensures forall j :: i <= j < |img| ==> !Inside(f, img[j].addr)
    decreases |img| - i
  {
    if i < |img| {
      NoLines(img, f, i + 1);
    }
  }

  lemma LastIsUnique(img: Image, start: nat, end: nat, i: nat, j: nat)
    requires IsLast(img, start, end, i) && IsLast(img, start, end, j)
    ensures i == j
  {
  }

  lemma NamedByLine(k: Kind, start: nat, end: nat, t: nat)
    ensures t in FnsOf(LineOf(k, start, end)) <==>
            Mentions(k, start, end) && (k.Branch? || k.Call? || k.CondBranch?) && k.target == t
    ensures MayPass(LineOf(k, start, end)) <==> !Ends(k)
  {
  }

  /** A range's references are exactly the functions its code names: every tail branch out of it, every call, and the
      fall-through past its last instruction. */
  lemma RecordedIsNamed(img: Image, f: Fn, t: nat)
    ensures t in Refs(img, f) <==> Names(Body(img, f), t)
  {
    hide LineOf, MayPass, Ends, FnsOf, LinesFrom;
    var ls, body := Lines(img, f), Body(img, f);
    if t in MentionedBy(img, f.start, f.end) {
      var j :| 0 <= j < |img| && InWindow(img, f.start, f.end, j) && Mentions(img[j].kind, f.start, f.end)
               && img[j].kind.target == t;
      NamedByLine(img[j].kind, f.start, f.end, t);
      var l := LineOf(img[j].kind, f.start, f.end);
      LinesFromMeans(img, f, 0, img[j].addr, l);
      var i :| 0 <= i < |ls| && ls[i] == (img[j].addr, l);
      assert body[i] == ls[i].1 == l;
      assert t in FnsOf(body[i]);
    }
    FallsIsTail(img, f);
    if FallsThrough(img, f.start, f.end) && t == f.end {
      assert body[|ls|] == Tail(f.end);
      TailNames(f.end);
      assert t in FnsOf(body[|ls|]);
    }
    if Names(body, t) {
      var i :| 0 <= i < |body| && t in FnsOf(body[i]);
      if i < |ls| {
        NamedLine(img, f, i, t);
      } else {
        TailNames(f.end);
      }
    }
  }

  lemma TailNames(t: nat)
    ensures FnsOf(Tail(t)) == {t}
  {
  }

  lemma NamedLine(img: Image, f: Fn, i: nat, t: nat)
    requires i < |Lines(img, f)| && t in FnsOf(Lines(img, f)[i].1)
    ensures t in MentionedBy(img, f.start, f.end)
  {
    hide LineOf, Mentions, LinesFrom, FnsOf;
    var (a, l) := Lines(img, f)[i];
    assert (a, l) in LinesFrom(img, f, 0);
    LinesFromMeans(img, f, 0, a, l);
    var j :| 0 <= j < |img| && Inside(f, img[j].addr) && img[j].addr == a && LineOf(img[j].kind, f.start, f.end) == l;
    NamedByLine(img[j].kind, f.start, f.end, t);
    assert InWindow(img, f.start, f.end, j);
  }

  lemma FallsIsTail(img: Image, f: Fn)
    ensures var ls := Lines(img, f);
            FallsThrough(img, f.start, f.end) <==> ls != [] && MayPass(ls[|ls| - 1].1)
  {
    hide LineOf, Ends, MayPass;
    var ls := LinesFrom(img, f, 0);
    if ls != [] {
      LastLine(img, f, 0);
      var j :| 0 <= j < |img| && IsLast(img, f.start, f.end, j)
               && ls[|ls| - 1] == (img[j].addr, LineOf(img[j].kind, f.start, f.end));
      NamedByLine(img[j].kind, f.start, f.end, 0);
      forall i | 0 <= i < |img| && IsLast(img, f.start, f.end, i)
        ensures i == j
      {
        LastIsUnique(img, f.start, f.end, i, j);
      }
    } else {
      NoLines(img, f, 0);
    }
  }

  // ----- and where the guest goes -----

  /** The addresses the guest may execute after an instruction, itself or after the call it makes. */
  predicate GoesTo(i: Insn, x: nat) {
    match i.kind
    case Branch(t) => x == t
    case Call(t) => x == t || x == i.addr + 4
    case CondBranch(t) => x == t || x == i.addr + 4
    case Return => false
    case Indirect => false
    case IndirectCall => x == i.addr + 4
    case Data => x == i.addr + 4
    case Plain => x == i.addr + 4
  }

  /** The range is decoded without a gap up to its end. */
  ghost predicate DenseTo(img: Image, f: Fn) {
    forall i :: 0 <= i < |img| && Inside(f, img[i].addr) ==>
      if i + 1 < |img| && img[i + 1].addr < f.end then img[i + 1].addr == img[i].addr + 4 else img[i].addr + 4 == f.end
  }

  ghost predicate LeavesTo(img: Image, f: Fn, i: nat, t: nat) {
    && i < |img| && Inside(f, img[i].addr) && GoesTo(img[i], t)
    && (!Inside(f, t) || (img[i].kind.Call? && img[i].kind.target == t))
  }

  /** In a decoded range the references are exactly the addresses the guest may go to from it, outside of it or by a
      call. */
  lemma RefsAreExits(img: Image, f: Fn, t: nat)
    requires DenseTo(img, f)
    ensures t in Refs(img, f) <==> exists i :: LeavesTo(img, f, i, t)
  {
    if t in MentionedBy(img, f.start, f.end) {
      var j :| 0 <= j < |img| && InWindow(img, f.start, f.end, j) && Mentions(img[j].kind, f.start, f.end)
               && img[j].kind.target == t;
      assert LeavesTo(img, f, j, t);
    }
    if FallsThrough(img, f.start, f.end) && t == f.end {
      var j :| 0 <= j < |img| && IsLast(img, f.start, f.end, j) && !Ends(img[j].kind);
      assert Inside(f, img[j].addr);
      assert LeavesTo(img, f, j, t);
    }
    if i :| LeavesTo(img, f, i, t) {
      ExitIsRef(img, f, i, t);
    }
  }

  lemma ExitIsRef(img: Image, f: Fn, i: nat, t: nat)
    requires DenseTo(img, f) && LeavesTo(img, f, i, t)
    ensures t in Refs(img, f)
  {
    assert InWindow(img, f.start, f.end, i);
    if !Mentions(img[i].kind, f.start, f.end) || img[i].kind.target != t {
      assert t == img[i].addr + 4;
      assert IsLast(img, f.start, f.end, i) && !Ends(img[i].kind);
    }
  }
}
