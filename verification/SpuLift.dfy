/** The region lifter: each instruction becomes a short list of C statements, each region a C function
    that opens with a switch on the pc (`_translate`, `lift_region`, `lift_regions`). */
module SpuLift {
  import opened SpuIsa
  import opened SpuRegions
  import SpuReturns

  /** A function the emitted code can name: a region function, or the indirect-branch dispatcher. */
  datatype Fn = RegionFn(start: int) | Dispatcher

  /** What the emitted code stores into ctx->pc. */
  datatype PcExpr = Literal(a: int) | WordOf(r: Reg) | SavedPc

  datatype Cond = RegTest(test: Test, r: Reg) | Failure(fails: Core -> bool) | EventPending

  datatype Status = Running | StoppedByStop(code: nat) | StoppedByHalt

  /** The emitted C statements. A line that stores the pc and then hands a function to the trampoline
      or calls it is one statement. */
  datatype Stmt =
    | Effect(insn: Insn)                       // gpr[..] = helper(..)
    | StorePc(a: int)                          // ctx->pc = a, before a channel call
    | SetLink(link: Reg, a: int)               // gpr[link] = spu_link(a)
    | Goto(a: int)
    | HandOff(pc: PcExpr, fn: Fn)              // pc = ..; trampoline = fn; return
    | CallAndDrain(pc: PcExpr, fn: Fn)         // pc = ..; depth++; fn(); SPU_DRAIN; depth--
    | SpuRet
    | StopReturn(a: int, status: Status)       // pc = a; status = ..; return
    | HaltUnwind(a: int)                       // pc = a; spu_halt(); return
    | When(cond: Cond, body: Stmt)

  datatype Function = Function(start: int, end: int, body: map<int, seq<Stmt>>, tail: seq<Stmt>)

  datatype Program = Program(fns: map<int, Function>, owner: map<int, int>)

  function OwnerFn(owner: map<int, int>, t: int): Fn {
    if t in owner then RegionFn(owner[t]) else Dispatcher
  }

  /** `_uncond_branch`: a goto inside the region, a trampoline hand-off out of it. */
  function Branch(t: int, start: int, end: int, owner: map<int, int>): Stmt {
    if start <= t < end then Goto(t) else HandOff(Literal(t), OwnerFn(owner, t))
  }

  function Indirect(a: int, ra: Reg, jumps: set<int>): Stmt {
    if ra == 0 && a !in jumps then SpuRet else HandOff(WordOf(ra), Dispatcher)
  }

  function Translate(i: Insn, a: int, start: int, end: int, owner: map<int, int>, jumps: set<int>): seq<Stmt> {
    match i
    case Op(_, _, _, isChannel) => if isChannel then [StorePc(a), Effect(i)] else [Effect(i)]
    case Load(_, _) => [Effect(i)]
    case Immediate(_, _, _, _) => [Effect(i)]
    case Stop(code) => [StopReturn(a, StoppedByStop(code))]
    case HaltIf(fails) => [When(Failure(fails), HaltUnwind(a))]
    case Br(t) => if t == a then [StopReturn(a, StoppedByHalt)] else [Branch(t, start, end, owner)]
    case Brsl(link, t) =>
      if t == a then [SetLink(link, a + 4), StopReturn(a, StoppedByHalt)]
      else if t == a + 4 then [SetLink(link, a + 4), Branch(a + 4, start, end, owner)]
      else [SetLink(link, a + 4), CallAndDrain(Literal(t), OwnerFn(owner, t))]
    case BrIf(test, r, t) => [When(RegTest(test, r), Branch(t, start, end, owner))]
    case Bi(ra) => [Indirect(a, ra, jumps)]
    case BiIf(test, r, ra) => [When(RegTest(test, r), Indirect(a, ra, jumps))]
    case Bisl(link, ra) => [SetLink(link, a + 4), CallAndDrain(WordOf(ra), Dispatcher)]
    case Bisled(link, ra) => [SetLink(link, a + 4), When(EventPending, HandOff(WordOf(ra), Dispatcher))]
    case Iret => [HandOff(SavedPc, Dispatcher)]
  }

  /** `_TERMINATORS`: nothing after these falls through. */
  predicate IsTerminator(i: Insn) { i.Br? || i.Bi? || i.Iret? || i.Stop? }

  function Tail(last: Insn, end: int, owner: map<int, int>): seq<Stmt> {
    if !IsTerminator(last) && end in owner then [HandOff(Literal(end), RegionFn(end))] else []
  }

  /** The code of the region's instructions before `a`. */
  ghost predicate CodeBefore(body: map<int, seq<Stmt>>, im: Image, r: Region, a: int, owner: map<int, int>,
                             jumps: set<int>)
    requires im.Valid()
  {
    && (forall x :: x in body <==> r.start <= x < a && im.Has(x))
    && (forall x {:trigger body[x]} :: x in body ==>
          im.Has(x) && body[x] == Translate(im.At(x), x, r.start, r.end, owner, jumps))
  }

  ghost predicate IsRegionFunction(f: Function, im: Image, r: Region, owner: map<int, int>, jumps: set<int>)
    requires im.Valid()
  {
    && f.start == r.start && f.end == r.end
    && CodeBefore(f.body, im, r, r.end, owner, jumps)
    && im.Has(r.end - 4) && f.tail == Tail(im.At(r.end - 4), r.end, owner)
  }

  lemma OneMoreInstruction(body: map<int, seq<Stmt>>, im: Image, r: Region, a: int, owner: map<int, int>,
                           jumps: set<int>)
    requires im.Valid() && im.Has(a) && r.start <= a && CodeBefore(body, im, r, a, owner, jumps)
    ensures CodeBefore(body[a := Translate(im.At(a), a, r.start, r.end, owner, jumps)], im, r, a + 4, owner, jumps)
  {
    hide Translate;
    forall x | a < x < a + 4 ensures !im.Has(x) {
    }
  }

  lemma NoCodeYet(im: Image, r: Region, owner: map<int, int>, jumps: set<int>)
    requires im.Valid()
    ensures CodeBefore(map[], im, r, r.start, owner, jumps)
  {
  }

  method LiftRegion(im: Image, r: Region, owner: map<int, int>, jumps: set<int>) returns (f: Function)
    requires im.Valid() && RegionShape(r) && im.base <= r.start && r.end <= im.End()
    ensures IsRegionFunction(f, im, r, owner, jumps)
  {
    hide Translate, CodeBefore, Image.Valid;
    var body: map<int, seq<Stmt>> := map[];
    var a := r.start;
    NoCodeYet(im, r, owner, jumps);
    while a < r.end
      invariant r.start <= a <= r.end && a % 4 == 0
      invariant CodeBefore(body, im, r, a, owner, jumps)
      invariant a > r.start ==> im.Has(a - 4)
    {
      assert im.Has(a);
      OneMoreInstruction(body, im, r, a, owner, jumps);
      body := body[a := Translate(im.At(a), a, r.start, r.end, owner, jumps)];
      a := a + 4;
    }
    f := Function(r.start, r.end, body, Tail(im.At(r.end - 4), r.end, owner));
  }

  /** Every pc of the image, its owning region and its code. */
  ghost predicate Covers(p: Program, im: Image, a: int, jumps: set<int>)
    requires im.Valid()
  {
    && a in p.owner && p.owner[a] in p.fns
    && var r := Region(p.fns[p.owner[a]].start, p.fns[p.owner[a]].end);
       r.start == p.owner[a] <= a < r.end <= im.End() && im.base <= r.start && RegionShape(r)
       && IsRegionFunction(p.fns[p.owner[a]], im, r, p.owner, jumps)
       && (r.end in p.owner <==> r.end < im.End())
       && (r.end in p.owner ==> p.owner[r.end] == r.end)
  }

  lemma CoveredRegion(p: Program, im: Image, a: int, jumps: set<int>)
    requires im.Valid() && im.Has(a) && Covers(p, im, a, jumps)
    ensures p.owner[a] in p.fns
    ensures var f := p.fns[p.owner[a]];
            im.base <= f.start <= a < f.end <= im.End() && f.end % 4 == 0 && f.start % 4 == 0 && a in f.body
  {
  }

  lemma PcHasCode(p: Program, im: Image, a: int, x: int, jumps: set<int>)
    requires im.Valid() && im.Has(a) && Covers(p, im, a, jumps)
    requires p.fns[p.owner[a]].start <= x < p.fns[p.owner[a]].end && x % 4 == 0
    ensures im.Has(x) && x in p.fns[p.owner[a]].body
  {
    CoveredRegion(p, im, a, jumps);
  }

  /** A function of the program is a region of the image and owns every pc it has code for. */
  ghost predicate OwnsItsBody(p: Program, im: Image, s: int)
    requires s in p.fns
  {
    && im.Has(s) && s in p.owner && p.owner[s] == s
    && forall a :: a in p.fns[s].body ==> im.Has(a) && a in p.owner && p.owner[a] == s
  }

  /** A program that lifts an image. */
  ghost predicate IsLift(p: Program, im: Image, jumps: set<int>) {
    && im.Valid()
    && p.owner.Keys == (set a | im.base <= a < im.End() && im.Has(a))
    && (forall a {:trigger Covers(p, im, a, jumps)} :: im.Has(a) ==> Covers(p, im, a, jumps))
    && (forall s {:trigger OwnsItsBody(p, im, s)} :: s in p.fns ==> OwnsItsBody(p, im, s))
  }

  function Addresses(im: Image): seq<int> { seq(|im.code|, i => im.base + 4 * i) }

  lemma AddressesAreDense(im: Image)
    requires im.Valid()
    ensures Dense(Addresses(im))
    ensures forall a :: a in Addresses(im) <==> im.Has(a)
  {
    forall a | im.Has(a) ensures a in Addresses(im) {
      assert Addresses(im)[(a - im.base) / 4] == a;
    }
  }

  lemma OwnerOfEnd(im: Image, rs: seq<Region>, owner: map<int, int>, k: nat)
    requires im.Valid() && Chain(rs, im.base, im.End()) && k < |rs|
    requires IsOwnerMap(im, rs, owner)
    ensures im.base <= rs[k].start && rs[k].end <= im.End()
    ensures rs[k].end in owner <==> rs[k].end < im.End()
    ensures rs[k].end in owner ==> owner[rs[k].end] == rs[k].end
    ensures rs[k].start in owner && owner[rs[k].start] == rs[k].start
  {
    ChainOrder(rs, im.base, im.End(), k, k);
    assert RegionShape(rs[k]);
    if rs[k].end < im.End() {
      EndIsStart(rs, im.base, im.End(), k);
      assert RegionShape(rs[k + 1]);
    }
  }

  ghost predicate IsOwnerMap(im: Image, rs: seq<Region>, owner: map<int, int>) {
    && (forall a :: a in owner <==> im.Has(a))
    && (forall a {:trigger IsRegionStart(rs, owner[a])} :: a in owner ==> IsRegionStart(rs, owner[a]))
    && (forall a, i :: a in owner && 0 <= i < |rs| ==> (owner[a] == rs[i].start <==> InRegion(rs[i], a)))
  }

  ghost predicate LiftedUpTo(fns: map<int, Function>, im: Image, rs: seq<Region>, owner: map<int, int>,
                             jumps: set<int>, k: nat)
    requires im.Valid() && k <= |rs|
  {
    && (forall s :: s in fns <==> IsRegionStart(rs[..k], s))
    && (forall i :: 0 <= i < k ==> rs[i].start in fns && IsRegionFunction(fns[rs[i].start], im, rs[i], owner, jumps))
  }

  lemma LiftedOneMore(fns: map<int, Function>, im: Image, rs: seq<Region>, owner: map<int, int>, jumps: set<int>,
                      k: nat, f: Function)
    requires im.Valid() && Chain(rs, im.base, im.End()) && k < |rs|
    requires LiftedUpTo(fns, im, rs, owner, jumps, k)
    requires IsRegionFunction(f, im, rs[k], owner, jumps)
    ensures LiftedUpTo(fns[rs[k].start := f], im, rs, owner, jumps, k + 1)
  {
    hide IsRegionFunction, Chain, Image.Valid;
    var now := fns[rs[k].start := f];
    forall i | 0 <= i < k ensures now[rs[i].start] == fns[rs[i].start] {
      StartsDiffer(rs, im.base, im.End(), i, k);
    }
    forall s ensures s in now <==> IsRegionStart(rs[..k + 1], s) {
      StartsExtend(rs, k, s);
    }
  }

  method LiftEach(im: Image, rs: seq<Region>, owner: map<int, int>, jumps: set<int>) returns (fns: map<int, Function>)
    requires im.Valid() && Chain(rs, im.base, im.End())
    ensures LiftedUpTo(fns, im, rs, owner, jumps, |rs|)
  {
    fns := map[];
    for k := 0 to |rs|
      invariant LiftedUpTo(fns, im, rs, owner, jumps, k)
    {
      ChainOrder(rs, im.base, im.End(), k, k);
      assert RegionShape(rs[k]);
      var f := LiftRegion(im, rs[k], owner, jumps);
      LiftedOneMore(fns, im, rs, owner, jumps, k, f);
      fns := fns[rs[k].start := f];
    }
  }

  method LiftRegions(im: Image, bounds: seq<(int, int)>, splits: set<int>, cap: int)
    returns (p: Program, jumps: set<int>)
    requires im.Valid()
    ensures IsLift(p, im, jumps)
    ensures forall a :: a in jumps <==> SpuReturns.IsJump(im, bounds, a)
  {
    jumps := SpuReturns.ComputeBiR0Jumps(im, bounds);
    var addrs := Addresses(im);
    AddressesAreDense(im);
    var rs := FormRegions(addrs, splits, cap);
    if |im.code| == 0 {
      return Program(map[], map[]), jumps;
    }
    assert addrs[0] == im.base && addrs[|addrs| - 1] + 4 == im.End();
    var owner := PcToRegion(addrs, rs);
    var fns := LiftEach(im, rs, owner, jumps);
    p := Program(fns, owner);
    LiftIsComplete(p, im, rs, jumps);
  }

  lemma StartsExtend(rs: seq<Region>, k: nat, s: int)
    requires k < |rs|
    ensures IsRegionStart(rs[..k + 1], s) <==> IsRegionStart(rs[..k], s) || s == rs[k].start
  {
    if IsRegionStart(rs[..k], s) {
      var i :| 0 <= i < k && rs[..k][i].start == s;
      assert rs[..k + 1][i].start == s;
    }
    if s == rs[k].start {
      assert rs[..k + 1][k].start == s;
    }
    if IsRegionStart(rs[..k + 1], s) {
      var i :| 0 <= i < k + 1 && rs[..k + 1][i].start == s;
      if i < k {
        assert rs[..k][i].start == s;
      }
    }
  }

  lemma RegionCovers(p: Program, im: Image, rs: seq<Region>, jumps: set<int>, a: int, i: nat)
    requires im.Valid() && Chain(rs, im.base, im.End()) && IsOwnerMap(im, rs, p.owner)
    requires LiftedUpTo(p.fns, im, rs, p.owner, jumps, |rs|)
    requires im.Has(a) && i < |rs| && rs[i].start == p.owner[a]
    ensures Covers(p, im, a, jumps)
  {
    OwnerOfEnd(im, rs, p.owner, i);
    assert InRegion(rs[i], a) && RegionShape(rs[i]);
    assert IsRegionFunction(p.fns[rs[i].start], im, rs[i], p.owner, jumps);
    assert rs[i] == Region(rs[i].start, rs[i].end);
  }

  lemma FunctionsAreRegions(p: Program, im: Image, rs: seq<Region>, jumps: set<int>, s: int)
    requires im.Valid() && Chain(rs, im.base, im.End()) && IsOwnerMap(im, rs, p.owner)
    requires LiftedUpTo(p.fns, im, rs, p.owner, jumps, |rs|)
    requires s in p.fns
    ensures OwnsItsBody(p, im, s)
  {
    assert rs[..|rs|] == rs;
    var i :| 0 <= i < |rs| && rs[i].start == s;
    OwnerOfEnd(im, rs, p.owner, i);
    assert IsRegionFunction(p.fns[s], im, rs[i], p.owner, jumps);
    forall a | a in p.fns[s].body ensures im.Has(a) && a in p.owner && p.owner[a] == s {
      assert InRegion(rs[i], a);
    }
  }

  lemma PcIsCovered(p: Program, im: Image, rs: seq<Region>, jumps: set<int>, a: int)
    requires im.Valid() && Chain(rs, im.base, im.End()) && IsOwnerMap(im, rs, p.owner)
    requires LiftedUpTo(p.fns, im, rs, p.owner, jumps, |rs|)
    requires im.Has(a)
    ensures Covers(p, im, a, jumps)
  {
    assert IsRegionStart(rs, p.owner[a]);
    var i :| 0 <= i < |rs| && rs[i].start == p.owner[a];
    RegionCovers(p, im, rs, jumps, a, i);
  }

  lemma LiftIsComplete(p: Program, im: Image, rs: seq<Region>, jumps: set<int>)
    requires im.Valid() && Chain(rs, im.base, im.End()) && IsOwnerMap(im, rs, p.owner)
    requires LiftedUpTo(p.fns, im, rs, p.owner, jumps, |rs|)
    ensures IsLift(p, im, jumps)
  {
    assert p.owner.Keys == set a | im.base <= a < im.End() && im.Has(a);
    forall a {:trigger Covers(p, im, a, jumps)} | im.Has(a) ensures Covers(p, im, a, jumps) {
      PcIsCovered(p, im, rs, jumps, a);
    }
    forall s {:trigger OwnsItsBody(p, im, s)} | s in p.fns ensures OwnsItsBody(p, im, s) {
      FunctionsAreRegions(p, im, rs, jumps, s);
    }
  }

  /** A return is emitted for exactly the branches through r0 that are not classified as jumps, alone or under the
      branch's condition. */
  lemma ReturnsAreUnclassified(i: Insn, a: int, start: int, end: int, owner: map<int, int>, jumps: set<int>)
    ensures (exists k :: 0 <= k < |Translate(i, a, start, end, owner, jumps)|
                         && IsReturnStmt(Translate(i, a, start, end, owner, jumps)[k]))
       <==> SpuReturns.TargetsR0(i) && a !in jumps
  {
    var code := Translate(i, a, start, end, owner, jumps);
    if SpuReturns.TargetsR0(i) && a !in jumps {
      assert IsReturnStmt(code[0]);
    }
  }

  predicate IsReturnStmt(st: Stmt) { st.SpuRet? || (st.When? && st.body.SpuRet?) }
}
