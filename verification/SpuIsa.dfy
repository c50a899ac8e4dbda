/** The guest machine: decoded SPU instructions and their architectural control flow
    (chapter 7, "Compare, Branch, and Halt", of the SPU Instruction Set Architecture).

    A program is a dense run of decoded instructions. Helpers that only compute a value or touch local
    store and channels are arbitrary functions on the machine state, so every theorem holds for any
    meaning of them. */
module SpuIsa {
  import opened Basics

  type Word = w: int | 0 <= w < 0x1_0000_0000

  /** A 128-bit register as four words; w0 is the preferred slot. */
  datatype Quad = Quad(w0: Word, w1: Word, w2: Word, w3: Word)

  type RegFile = r: seq<Quad> | |r| == 128 witness seq(128, _ => Quad(0, 0, 0, 0))
  type Reg = r: int | 0 <= r < 128

  /** Everything but the registers: local store, channels, the saved interrupt pc, the event line. */
  datatype Side = Side(ls: seq<bv8>, channels: seq<Word>, srr0: Word, eventPending: bool)

  datatype Core = Core(gpr: RegFile, side: Side) {
    function Pref(r: Reg): Word { gpr[r].w0 }

    function With(r: Reg, q: Quad): Core { this.(gpr := gpr[r := q]) }
  }

  datatype Test = Zero | NotZero | HalfZero | HalfNotZero

  predicate Holds(t: Test, w: Word) {
    match t
    case Zero => w == 0
    case NotZero => w != 0
    case HalfZero => w % 0x10000 == 0
    case HalfNotZero => w % 0x10000 != 0
  }

  /** A decoded instruction.
      Op is any instruction that computes (`isChannel` marks rdch/rchcnt/wrch); Load is lqa/lqr/il/ila;
      Immediate is ai/ori; HaltIf is the heq/hgt/hlgt family; BrIf and BiIf are the conditional
      branches; stopd is Stop(0x3FFF). */
  datatype Insn =
    | Op(dest: Option<Reg>, value: Core -> Quad, effect: Core -> Side, isChannel: bool)
    | Load(rt: Reg, loaded: Core -> Quad)
    | Immediate(rt: Reg, ra: Reg, imm: int, isOr: bool)
    | Stop(code: nat)
    | HaltIf(fails: Core -> bool)
    | Br(target: int)
    | Brsl(link: Reg, target: int)
    | BrIf(test: Test, cond: Reg, target: int)
    | Bi(ra: Reg)
    | BiIf(test: Test, cond: Reg, ra: Reg)
    | Bisl(link: Reg, ra: Reg)
    | Bisled(link: Reg, ra: Reg)
    | Iret

  const LS_SIZE := 0x40000

  /** RA & LSLR & 0xFFFFFFFC: the local store address an indirect branch goes to. */
  function BranchAddress(w: Word): (a: int)
    ensures 0 <= a < LS_SIZE && a % 4 == 0
  {
    w % LS_SIZE / 4 * 4
  }

  function NextPc(pc: int): int { (pc + 4) % LS_SIZE }

  function LinkQuad(w: Word): Quad { Quad(w, 0, 0, 0) }

  function ImmediateWord(w: Word, imm: int, isOr: bool): Word {
    var m := imm % 0x1_0000_0000;
    if isOr then BitOr(w, m) % 0x1_0000_0000 else (w + m) % 0x1_0000_0000
  }

  function ImmediateQuad(q: Quad, imm: int, isOr: bool): Quad {
    Quad(ImmediateWord(q.w0, imm, isOr), ImmediateWord(q.w1, imm, isOr),
         ImmediateWord(q.w2, imm, isOr), ImmediateWord(q.w3, imm, isOr))
  }

  predicate IsCompute(i: Insn) { i.Op? || i.Load? || i.Immediate? }

  /** The effect of an instruction that does not transfer control. */
  function Compute(i: Insn, c: Core): Core
    requires IsCompute(i)
  {
    match i
    case Op(dest, value, effect, _) =>
      Core(if dest.Some? then c.gpr[dest.value := value(c)] else c.gpr, effect(c))
    case Load(rt, loaded) => c.With(rt, loaded(c))
    case Immediate(rt, ra, imm, isOr) => c.With(rt, ImmediateQuad(c.gpr[ra], imm, isOr))
  }

  /** An image: dense 4-aligned instructions from `base`, inside local store. */
  datatype Image = Image(base: int, code: seq<Insn>) {
    function End(): int { base + 4 * |code| }

    predicate Has(a: int) { base <= a < End() && a % 4 == 0 }

    /** Inside local store; direct targets are word addresses, as their encoding makes them. */
    ghost predicate Valid() {
      && 0 <= base && base % 4 == 0 && End() <= LS_SIZE
      && forall k :: 0 <= k < |code| && (code[k].Br? || code[k].Brsl? || code[k].BrIf?) ==> code[k].target % 4 == 0
    }

    function At(a: int): Insn
      requires Valid() && Has(a)
    {
      code[(a - base) / 4]
    }
  }

  lemma AtIndex(im: Image, k: int)
    requires im.Valid() && 0 <= k < |im.code|
    ensures im.Has(im.base + 4 * k) && im.At(im.base + 4 * k) == im.code[k]
    ensures k + 1 < |im.code| ==> NextPc(im.base + 4 * k) == im.base + 4 * (k + 1)
  {
  }

  lemma PcInLocalStore(im: Image, a: int)
    requires im.Valid()
    ensures im.Has(a) ==> 0 <= a < LS_SIZE && a % 4 == 0
  {
  }

  datatype Guest = Guest(pc: int, core: Core)

  /** Where one instruction leads: another guest state, a stop with its code, or a halt. */
  datatype Outcome = Run(next: Guest) | Stops(code: nat, final: Core) | Halts(final: Core)

  function Step(im: Image, g: Guest): Outcome
    requires im.Valid() && im.Has(g.pc)
  {
    var c := g.core;
    var next := NextPc(g.pc);
    match im.At(g.pc)
    case Op(_, _, _, _) => Run(Guest(next, Compute(im.At(g.pc), c)))
    case Load(_, _) => Run(Guest(next, Compute(im.At(g.pc), c)))
    case Immediate(_, _, _, _) => Run(Guest(next, Compute(im.At(g.pc), c)))
    case Stop(code) => Stops(code, c)
    case HaltIf(fails) => if fails(c) then Halts(c) else Run(Guest(next, c))
    case Br(target) => Run(Guest(target, c))
    case Brsl(link, target) => Run(Guest(target, c.With(link, LinkQuad(next))))
    case BrIf(test, cond, target) => Run(Guest(if Holds(test, c.Pref(cond)) then target else next, c))
    case Bi(ra) => Run(Guest(BranchAddress(c.Pref(ra)), c))
    case BiIf(test, cond, ra) =>
      Run(Guest(if Holds(test, c.Pref(cond)) then BranchAddress(c.Pref(ra)) else next, c))
    case Bisl(link, ra) => Run(Guest(BranchAddress(c.Pref(ra)), c.With(link, LinkQuad(next))))
    case Bisled(link, ra) =>
      Run(Guest(if c.side.eventPending then BranchAddress(c.Pref(ra)) else next,
                c.With(link, LinkQuad(next))))
    case Iret => Run(Guest(BranchAddress(c.side.srr0), c))
  }

  // ----- what the small definitions mean -----

  /** brz and brnz test the whole word, brhz and brhnz its low half. */
  lemma TestsMean(high: nat, low: nat)
    requires high < 0x1_0000 && low < 0x1_0000
    ensures var w := high * 0x1_0000 + low;
            && (Holds(Zero, w) <==> high == 0 && low == 0) && (Holds(NotZero, w) <==> !Holds(Zero, w))
            && (Holds(HalfZero, w) <==> low == 0) && (Holds(HalfNotZero, w) <==> !Holds(HalfZero, w))
  {
    QuotientIs(high * 0x1_0000 + low, 0x1_0000, high, low);
  }

  /** ai adds in 32 bits; ori sets the bits of its immediate, taken as 32 bits. */
  lemma ImmediatesMean(w: Word, imm: int, j: nat)
    ensures (ImmediateWord(w, imm, false) - w - imm) % 0x1_0000_0000 == 0
    ensures j < 32 ==> (BitAt(ImmediateWord(w, imm, true), j) <==> BitAt(w, j) || BitAt(imm % 0x1_0000_0000, j))
  {
    hide BitAt, BitOr, Pow2;
    var m := imm % 0x1_0000_0000;
    assert w + m - (w + m) % 0x1_0000_0000 == (w + m) / 0x1_0000_0000 * 0x1_0000_0000;
    assert imm - m == imm / 0x1_0000_0000 * 0x1_0000_0000;
    Pow2Of32();
    OrBelow(w, m, 32);
    OrBits(w, m, j);
  }

  lemma Pow2Of32()
    ensures Pow2(32) == 0x1_0000_0000
  {
    assert Pow2(8) == 0x100;
    assert Pow2(16) == 0x1_0000;
    assert Pow2(24) == 0x100_0000;
  }

  /** An indirect branch keeps the 18 bits of a local store address and clears the low two. */
  lemma BranchAddressMeans(above: nat, word: nat, low: nat)
    requires above < 0x4000 && word < 0x1_0000 && low < 4
    ensures BranchAddress(above * 0x4_0000 + word * 4 + low) == word * 4
  {
    QuotientIs(above * 0x4_0000 + word * 4 + low, 0x4_0000, above, word * 4 + low);
    QuotientIs(word * 4 + low, 4, word, low);
  }

  /** A call leaves the address behind it in the link register's preferred word and zeros in the others. */
  lemma CallsSetTheLink(im: Image, g: Guest)
    requires im.Valid() && im.Has(g.pc) && (im.At(g.pc).Brsl? || im.At(g.pc).Bisl? || im.At(g.pc).Bisled?)
    ensures Step(im, g).Run? && Step(im, g).next.core.gpr[im.At(g.pc).link] == Quad((g.pc + 4) % 0x4_0000, 0, 0, 0)
    ensures im.At(g.pc).Brsl? ==> Step(im, g).next.pc == im.At(g.pc).target
    ensures im.At(g.pc).Bisl? ==> Step(im, g).next.pc == BranchAddress(g.core.gpr[im.At(g.pc).ra].w0)
  {
  }
}
