/** Telling a return from a computed jump: which `bi $r0` reloads r0 with an address
    (`compute_bi_r0_jumps`), and the forward dataflow scan behind the `il` seeds
    (`_reaches_bi_target`). */
module SpuReturns {
  import opened Basics
  import opened SpuIsa

  /** `_dest_reg` under `_NO_RT_WRITE`: the register an instruction writes, if any. */
  function Writes(i: Insn): Option<Reg> {
    match i
    case Op(dest, _, _, _) => dest
    case Load(rt, _) => Some(rt)
    case Immediate(rt, _, _, _) => Some(rt)
    case Brsl(link, _) => Some(link)
    case Bisl(link, _) => Some(link)
    case Bisled(link, _) => Some(link)
    case _ => None
  }

  ghost predicate Untouched(code: seq<Insn>, lo: int, hi: int, r: Reg)
    requires 0 <= lo && hi <= |code|
  {
    forall j :: lo <= j < hi ==> Writes(code[j]) != Some(r)
  }

  /** `w` is the last instruction in [lo, before) that writes r. */
  ghost predicate IsNearestWriter(code: seq<Insn>, lo: nat, before: int, r: Reg, w: int)
    requires before <= |code|
  {
    lo <= w < before && Writes(code[w]) == Some(r) && Untouched(code, w + 1, before, r)
  }

  method FindNearestWriter(code: seq<Insn>, lo: nat, before: int, r: Reg) returns (w: int)
    requires lo <= before <= |code|
    ensures w == -1 ==> Untouched(code, lo, before, r)
    ensures w != -1 ==> IsNearestWriter(code, lo, before, r, w)
  {
    w := before - 1;
    while w >= lo
      invariant lo - 1 <= w < before
      invariant Untouched(code, w + 1, before, r)
    {
      if Writes(code[w]) == Some(r) {
        return;
      }
      w := w - 1;
    }
    w := -1;
  }

  predicate TargetsR0(i: Insn) { (i.Bi? || i.BiIf?) && i.ra == 0 }

  predicate IsIdentityMove(i: Insn) { i.Immediate? && i.imm == 0 }

  /** Instruction `s` is the address load behind the branch at `k`: the nearest writer of r0, or the
      nearest writer of the source of the identity move that is. */
  ghost predicate IsAddressSource(code: seq<Insn>, lo: nat, k: int, s: int)
    requires k <= |code|
  {
    exists w ::
      && IsNearestWriter(code, lo, k, 0, w)
      && (if code[w].Load? then s == w
          else IsIdentityMove(code[w]) && IsNearestWriter(code, lo, w, code[w].ra, s) && code[s].Load?)
  }

  ghost predicate IsComputedJump(code: seq<Insn>, lo: nat, k: int)
    requires 0 <= k < |code|
  {
    TargetsR0(code[k]) && exists s :: IsAddressSource(code, lo, k, s)
  }

  /** The first index at or after address `a` in a dense image. */
  function IndexFrom(im: Image, a: int): (i: int)
    requires im.Valid()
    ensures 0 <= i <= |im.code|
    ensures forall j :: 0 <= j < |im.code| ==> (j >= i <==> im.base + 4 * j >= a)
  {
    if a <= im.base then 0
    else if a > im.End() then |im.code|
    else (a - im.base + 3) / 4
  }

  /** Instruction k is a computed jump inside the logical function [s, e). */
  ghost predicate JumpInBound(im: Image, bound: (int, int), k: int)
    requires im.Valid() && 0 <= k < |im.code|
  {
    IndexFrom(im, bound.0) <= k < IndexFrom(im, bound.1) && IsComputedJump(im.code, IndexFrom(im, bound.0), k)
  }

  ghost predicate IsJump(im: Image, bounds: seq<(int, int)>, a: int)
    requires im.Valid()
  {
    im.Has(a) && exists b :: 0 <= b < |bounds| && JumpInBound(im, bounds[b], (a - im.base) / 4)
  }

  /** The body of the classification loop: classify one branch. */
  method Classify(code: seq<Insn>, lo: nat, k: int) returns (jump: bool)
    requires lo <= k < |code|
    ensures jump <==> IsComputedJump(code, lo, k)
  {
    if !TargetsR0(code[k]) {
      return false;
    }
    var found := FindNearestWriter(code, lo, k, 0);
    if found == -1 {
      return false;
    }
    ghost var w := found;
    if code[found].Immediate? {
      if code[found].imm == 0 {
        var src := code[found].ra;
        found := FindNearestWriter(code, lo, found, src);
      } else {
        found := -1;
      }
    }
    jump := found != -1 && code[found].Load?;
    if jump {
      assert IsAddressSource(code, lo, k, found);
    }
  }

  method ComputeBiR0Jumps(im: Image, bounds: seq<(int, int)>) returns (jumps: set<int>)
    requires im.Valid()
    ensures forall a :: a in jumps <==> IsJump(im, bounds, a)
  {
    jumps := {};
    for b := 0 to |bounds|
      invariant forall a :: a in jumps <==> IsJump(im, bounds[..b], a)
    {
      var lo, hi := IndexFrom(im, bounds[b].0), IndexFrom(im, bounds[b].1);
      ghost var before := jumps;
      var k := lo;
      while k < hi
        invariant lo <= k && (lo <= hi ==> k <= hi)
        invariant forall a :: a in jumps <==>
                  a in before || (im.Has(a) && (a - im.base) / 4 < k
                                       && JumpInBound(im, bounds[b], (a - im.base) / 4))
      {
        var jump := Classify(im.code, lo, k);
        if jump {
          jumps := jumps + {im.base + 4 * k};
        }
        k := k + 1;
      }
      forall a ensures a in jumps <==> IsJump(im, bounds[..b + 1], a) {
        OneMoreBound(im, bounds, b, a);
      }
    }
    assert bounds[..|bounds|] == bounds;
  }

  lemma OneMoreBound(im: Image, bounds: seq<(int, int)>, b: int, a: int)
    requires im.Valid() && 0 <= b < |bounds|
    ensures IsJump(im, bounds[..b + 1], a) <==>
            IsJump(im, bounds[..b], a) || (im.Has(a) && JumpInBound(im, bounds[b], (a - im.base) / 4))
  {
    if im.Has(a) {
      assert bounds[..b + 1][b] == bounds[b];
      if IsJump(im, bounds[..b], a) {
        var i :| 0 <= i < b && JumpInBound(im, bounds[..b][i], (a - im.base) / 4);
        assert bounds[..b + 1][i] == bounds[..b][i];
      }
      if IsJump(im, bounds[..b + 1], a) {
        var i :| 0 <= i < b + 1 && JumpInBound(im, bounds[..b + 1][i], (a - im.base) / 4);
        if i < b {
          assert bounds[..b + 1][i] == bounds[..b][i];
        }
      }
    }
  }

  // ----- soundness of the classification on straight-line code -----

  ghost predicate StraightLine(code: seq<Insn>, lo: int, hi: int)
    requires 0 <= lo && hi <= |code|
  {
    forall j :: lo <= j < hi ==> IsCompute(code[j])
  }

  /** The state after executing code[lo..hi] from `c`. */
  ghost function RunStraight(code: seq<Insn>, c: Core, lo: int, hi: int): Core
    requires 0 <= lo <= hi <= |code| && StraightLine(code, lo, hi)
    decreases hi - lo
  {
    if lo == hi then c else Compute(code[hi - 1], RunStraight(code, c, lo, hi - 1))
  }

  lemma {:induction false} RunSplit(code: seq<Insn>, c: Core, lo: int, mid: int, hi: int)
    requires 0 <= lo <= mid <= hi <= |code| && StraightLine(code, lo, hi)
    ensures RunStraight(code, RunStraight(code, c, lo, mid), mid, hi) == RunStraight(code, c, lo, hi)
    decreases hi
  {
    if mid < hi {
      RunSplit(code, c, lo, mid, hi - 1);
    }
  }

  lemma {:induction false} UntouchedKeepsValue(code: seq<Insn>, c: Core, lo: int, hi: int, r: Reg)
    requires 0 <= lo <= hi <= |code| && StraightLine(code, lo, hi) && Untouched(code, lo, hi, r)
    ensures RunStraight(code, c, lo, hi).gpr[r] == c.gpr[r]
    decreases hi
  {
    if lo < hi {
      UntouchedKeepsValue(code, c, lo, hi - 1, r);
      assert IsCompute(code[hi - 1]) && Writes(code[hi - 1]) != Some(r);
    }
  }

  lemma {:induction false} BitOrZero(a: nat)
    ensures BitOr(a, 0) == a
  {
  }

  lemma IdentityMoveCopies(q: Quad, isOr: bool)
    ensures ImmediateQuad(q, 0, isOr) == q
  {
    BitOrZero(q.w0);
    BitOrZero(q.w1);
    BitOrZero(q.w2);
    BitOrZero(q.w3);
  }

  /** What instruction w wrote is still in its register at k. */
  lemma NearestWriterValue(code: seq<Insn>, lo: nat, k: int, r: Reg, s: int, w: int, c: Core)
    requires k <= |code| && IsNearestWriter(code, lo, k, r, w)
    requires 0 <= s <= w && StraightLine(code, s, k)
    ensures RunStraight(code, c, s, k).gpr[r] == Compute(code[w], RunStraight(code, c, s, w)).gpr[r]
  {
    var after := RunStraight(code, c, s, w + 1);
    assert after == Compute(code[w], RunStraight(code, c, s, w));
    RunSplit(code, c, s, w + 1, k);
    UntouchedKeepsValue(code, after, w + 1, k, r);
  }

  /** A branch classified as a computed jump finds in r0 exactly the value its address load produced,
      directly or through one identity move. */
  lemma ComputedJumpHoldsLoadedValue(code: seq<Insn>, lo: nat, k: int, s: int, c: Core)
    requires 0 <= k < |code| && IsAddressSource(code, lo, k, s)
    requires 0 <= s <= k && StraightLine(code, s, k)
    ensures code[s].Load?
    ensures RunStraight(code, c, s, k).gpr[0] == code[s].loaded(c)
  {
    var w :| IsNearestWriter(code, lo, k, 0, w)
             && (if code[w].Load? then s == w
                 else IsIdentityMove(code[w]) && IsNearestWriter(code, lo, w, code[w].ra, s) && code[s].Load?);
    NearestWriterValue(code, lo, k, 0, s, w, c);
    assert RunStraight(code, c, s, s) == c;
    if s != w {
      NearestWriterValue(code, lo, w, code[w].ra, s, s, c);
      IdentityMoveCopies(RunStraight(code, c, s, w).gpr[code[w].ra], code[w].isOr);
    }
  }

  /** The guest machine runs straight-line code the way RunStraight folds it. */
  ghost function Steps(im: Image, g: Guest, n: nat): Option<Guest>
    requires im.Valid()
    decreases n
  {
    if n == 0 then Some(g)
    else
      match Steps(im, g, n - 1)
      case None => None
      case Some(h) =>
        if !im.Has(h.pc) then None
        else match Step(im, h) { case Run(next) => Some(next) case _ => None }
  }

  lemma StepsOnce(im: Image, g: Guest, n: nat, h: Guest, next: Guest)
    requires im.Valid() && n > 0 && Steps(im, g, n - 1) == Some(h)
    requires im.Has(h.pc) && Step(im, h) == Run(next)
    ensures Steps(im, g, n) == Some(next)
  {
  }

  lemma ComputeStep(im: Image, k: int, c: Core)
    requires im.Valid() && 0 <= k && k + 1 < |im.code| && IsCompute(im.code[k])
    ensures im.Has(im.base + 4 * k)
    ensures Step(im, Guest(im.base + 4 * k, c)) == Run(Guest(im.base + 4 * (k + 1), Compute(im.code[k], c)))
  {
    AtIndex(im, k);
  }

  lemma {:induction false} GuestRunsStraightLine(im: Image, c: Core, lo: int, hi: int)
    requires im.Valid() && 0 <= lo <= hi < |im.code| && StraightLine(im.code, lo, hi)
    ensures Steps(im, Guest(im.base + 4 * lo, c), hi - lo)
         == Some(Guest(im.base + 4 * hi, RunStraight(im.code, c, lo, hi)))
    decreases hi
  {
    hide Step, Compute, Image.Valid;
    if lo < hi {
      GuestRunsStraightLine(im, c, lo, hi - 1);
      ComputeStep(im, hi - 1, RunStraight(im.code, c, lo, hi - 1));
      var h := Guest(im.base + 4 * (hi - 1), RunStraight(im.code, c, lo, hi - 1));
      StepsOnce(im, Guest(im.base + 4 * lo, c), hi - lo, h,
                Guest(im.base + 4 * hi, RunStraight(im.code, c, lo, hi)));
    }
  }

  /** So the guest takes a classified `bi $r0` to the address the load produced. */
  lemma ComputedJumpGoesToLoadedAddress(im: Image, lo: nat, k: int, s: int, c: Core)
    requires im.Valid() && 0 <= s <= k < |im.code| && im.code[k].Bi? && im.code[k].ra == 0
    requires IsAddressSource(im.code, lo, k, s) && StraightLine(im.code, s, k)
    ensures im.code[s].Load?
    ensures var last := Steps(im, Guest(im.base + 4 * s, c), k - s);
            last.Some? && im.Has(last.value.pc) &&
            Step(im, last.value) == Run(Guest(BranchAddress(im.code[s].loaded(c).w0), last.value.core))
  {
    hide IsAddressSource, StraightLine, RunStraight, Steps;
    GuestRunsStraightLine(im, c, s, k);
    AtIndex(im, k);
    var last := Guest(im.base + 4 * k, RunStraight(im.code, c, s, k));
    assert Step(im, last) == Run(Guest(BranchAddress(last.core.Pref(0)), last.core));
    ComputedJumpHoldsLoadedValue(im.code, lo, k, s, c);
  }

  // ----- the forward scan -----

  function BiFamilyTarget(i: Insn): Option<Reg> {
    match i
    case Bi(ra) => Some(ra)
    case BiIf(_, _, ra) => Some(ra)
    case Bisl(_, ra) => Some(ra)
    case Bisled(_, ra) => Some(ra)
    case _ => None
  }

  ghost predicate IsFirstBranchOn(code: seq<Insn>, start: nat, r: Reg, j: int) {
    start < j < |code| && BiFamilyTarget(code[j]) == Some(r)
    && forall i :: start < i < j ==> BiFamilyTarget(code[i]) != Some(r)
  }

  /** The forward scan succeeds exactly when the backward nearest-writer scan, from the first branch on
      the register within the window, finds the instruction the scan started from. */
  method ReachesBiTarget(code: seq<Insn>, start: nat, r: Reg, window: nat) returns (reaches: bool)
    requires start < |code| && Writes(code[start]) == Some(r)
    ensures reaches <==> exists j :: IsFirstBranchOn(code, start, r, j) && j <= start + window
                                     && IsNearestWriter(code, 0, j, r, start)
  {
    var limit := if start + 1 + window < |code| then start + 1 + window else |code|;
    for j := start + 1 to limit
      invariant Untouched(code, start + 1, j, r)
      invariant forall i :: start < i < j ==> BiFamilyTarget(code[i]) != Some(r)
    {
      if BiFamilyTarget(code[j]) == Some(r) {
        assert IsFirstBranchOn(code, start, r, j) && IsNearestWriter(code, 0, j, r, start);
        return true;
      }
      if Writes(code[j]) == Some(r) {
        return false;
      }
    }
    return false;
  }

  /** An instruction changes no register but the one it is said to write. */
  lemma WritesNothingElse(im: Image, g: Guest, r: Reg)
    requires im.Valid() && im.Has(g.pc) && Step(im, g).Run? && Writes(im.At(g.pc)) != Some(r)
    ensures Step(im, g).next.core.gpr[r] == g.core.gpr[r]
  {
  }
}
