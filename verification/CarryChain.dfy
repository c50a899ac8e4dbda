/** The carry and overflow family of the PPU lifter, as the C it emits (`adde`, `subfe` and relatives in
    tools/ppu_lifter.py), against the unbounded integers of Power ISA Book I, section 3.3.9. */
module CarryChain {
  import opened Basics

  const M63 := 0x8000_0000_0000_0000

  type Reg = r: int | 0 <= r < 32
  type Gprs = g: seq<U64> | |g| == 32 witness seq(32, _ => 0)

  /** The general registers and XER: SO is bit 31, OV bit 30, CA bit 29 of the C word. */
  datatype Ctx = Ctx(gpr: Gprs, xer: bv32)

  function Wrap(x: int): U64 { x % M64 }

  function Not(a: U64): U64 { M64 - 1 - a }

  predicate TopBit(a: U64) { a >= M63 }

  function Signed(a: U64): int { if a >= M63 then a - M64 else a }

  function SignedLow(a: U64): int { var w := a % M32; if w >= 0x8000_0000 then w - M32 else w }

  predicate Ca(xer: bv32) { (xer >> 29) & 1 == 1 }

  predicate Ov(xer: bv32) { (xer >> 30) & 1 == 1 }

  predicate So(xer: bv32) { (xer >> 31) & 1 == 1 }

  /** The other 29 bits of the word. */
  function Rest(xer: bv32): bv32 { xer & 0x1FFF_FFFF }

  function CaBit(xer: bv32): int { if Ca(xer) then 1 else 0 }

  function SetCa(xer: bv32, c: bool): (r: bv32)
    ensures Ca(r) == c && Ov(r) == Ov(xer) && So(r) == So(xer)
  {
    (xer & !(1 << 29)) | (if c then 1 << 29 else 0)
  }

  lemma SetCaKeepsRest(xer: bv32)
    ensures Rest(SetCa(xer, true)) == Rest(xer) && Rest(SetCa(xer, false)) == Rest(xer)
  {
    hide Ca, Ov, So;
  }

  function PutOv(xer: bv32, o: bool): (r: bv32)
    ensures Ov(r) == o && So(r) == So(xer) && Ca(r) == Ca(xer) && Rest(r) == Rest(xer)
  {
    (xer & !(1 << 30)) | (if o then 1 << 30 else 0)
  }

  function PutSo(xer: bv32): (r: bv32)
    ensures So(r) && Ov(r) == Ov(xer) && Ca(r) == Ca(xer) && Rest(r) == Rest(xer)
  {
    xer | (1 << 31)
  }

  /** OV is replaced, SO only ever set. */
  function SetOv(xer: bv32, o: bool): (r: bv32)
    ensures Ov(r) == o && So(r) == (So(xer) || o) && Ca(r) == Ca(xer) && Rest(r) == Rest(xer)
  {
    hide PutOv, PutSo, Ov, So, Ca, Rest;
    if o then PutSo(PutOv(xer, o)) else PutOv(xer, o)
  }

  /** A register's value as a signed doubleword, and its low word as a signed word: the numbers of those ranges that
      agree with it modulo 2^64 and 2^32. */
  lemma SignedMeans(a: U64)
    ensures -M63 <= Signed(a) < M63 && Wrap(Signed(a)) == a
    ensures -0x8000_0000 <= SignedLow(a) < 0x8000_0000 && SignedLow(a) % M32 == a % M32
  {
  }

  datatype Insn =
    | Addc(rd: Reg, ra: Reg, rb: Reg)
    | Adde(rd: Reg, ra: Reg, rb: Reg)
    | Addeo(rd: Reg, ra: Reg, rb: Reg)
    | Subfc(rd: Reg, ra: Reg, rb: Reg)
    | Subfe(rd: Reg, ra: Reg, rb: Reg)
    | Subfeo(rd: Reg, ra: Reg, rb: Reg)
    | Addic(rd: Reg, ra: Reg, imm: int)
    | Subfic(rd: Reg, ra: Reg, imm: int)
    | Addze(rd: Reg, ra: Reg)
    | Addme(rd: Reg, ra: Reg)
    | Subfme(rd: Reg, ra: Reg)
    | Subfze(rd: Reg, ra: Reg)
    | Mullwo(rd: Reg, ra: Reg, rb: Reg)
    | Mulldo(rd: Reg, ra: Reg, rb: Reg)

  /** a + b in two wrapped steps with the carries or-ed, as addme, subfme and subfe are emitted. */
  function AddThenCarry(a: U64, b: U64, ca: int): (U64, bool) {
    var s1 := Wrap(a + b);
    var result := Wrap(s1 + ca);
    (result, s1 < a || result < s1)
  }

  predicate OverflowTest(a: U64, b: U64, result: U64) { TopBit(a) == TopBit(b) && TopBit(a) != TopBit(result) }

  /** The emitted C of each instruction: the result and XER are computed before rd is written. */
  function Exec(i: Insn, c: Ctx): Ctx {
    var ca := CaBit(c.xer);
    match i
    case Addc(rd, ra, rb) =>
      var a: int, b: int := c.gpr[ra], c.gpr[rb];
      var result := Wrap(a + b);
      Ctx(c.gpr[rd := result], SetCa(c.xer, result < c.gpr[ra]))
    case Adde(rd, ra, rb) =>
      var result := Wrap(c.gpr[ra] + c.gpr[rb] + ca);
      Ctx(c.gpr[rd := result], SetCa(c.xer, result < c.gpr[ra] || (ca == 1 && result == c.gpr[ra])))
    case Addeo(rd, ra, rb) =>
      var result := Wrap(c.gpr[ra] + c.gpr[rb] + ca);
      var x := SetCa(c.xer, result < c.gpr[ra] || (ca == 1 && result == c.gpr[ra]));
      Ctx(c.gpr[rd := result], SetOv(x, OverflowTest(c.gpr[ra], c.gpr[rb], result)))
    case Subfc(rd, ra, rb) =>
      var result := Wrap(Not(c.gpr[ra]) + c.gpr[rb] + 1);
      Ctx(c.gpr[rd := result], SetCa(c.xer, c.gpr[rb] >= c.gpr[ra]))
    case Subfe(rd, ra, rb) =>
      var (result, co) := AddThenCarry(Not(c.gpr[ra]), c.gpr[rb], ca);
      Ctx(c.gpr[rd := result], SetCa(c.xer, co))
    case Subfeo(rd, ra, rb) =>
      var a, b := Not(c.gpr[ra]), c.gpr[rb];
      var (result, co) := AddThenCarry(a, b, ca);
      Ctx(c.gpr[rd := result], SetOv(SetCa(c.xer, co), OverflowTest(a, b, result)))
    case Addic(rd, ra, imm) =>
      var s := Wrap(c.gpr[ra] + Wrap(imm));
      Ctx(c.gpr[rd := s], SetCa(c.xer, s < c.gpr[ra]))
    case Subfic(rd, ra, imm) =>
      var na := Not(c.gpr[ra]);
      var t := Wrap(na + Wrap(imm));
      var s := Wrap(t + 1);
      Ctx(c.gpr[rd := s], SetCa(c.xer, t < na || s == 0))
    case Addze(rd, ra) =>
      var result := Wrap(c.gpr[ra] + ca);
      Ctx(c.gpr[rd := result], SetCa(c.xer, result < c.gpr[ra]))
    case Addme(rd, ra) =>
      var (result, co) := AddThenCarry(c.gpr[ra], M64 - 1, ca);
      Ctx(c.gpr[rd := result], SetCa(c.xer, co))
    case Subfme(rd, ra) =>
      var (result, co) := AddThenCarry(Not(c.gpr[ra]), M64 - 1, ca);
      Ctx(c.gpr[rd := result], SetCa(c.xer, co))
    case Subfze(rd, ra) =>
      var result := Wrap(Not(c.gpr[ra]) + ca);
      Ctx(c.gpr[rd := result], SetCa(c.xer, ca == 1 && result == 0))
    case Mullwo(rd, ra, rb) =>
      var p := SignedLow(c.gpr[ra]) * SignedLow(c.gpr[rb]);
      Ctx(c.gpr[rd := Wrap(p)], SetOv(c.xer, p != SignedLow(Wrap(p))))
    case Mulldo(rd, ra, rb) =>
      var p := Signed(c.gpr[ra]) * Signed(c.gpr[rb]);
      var a: int, b: int := c.gpr[ra], c.gpr[rb];
      var lo := Wrap(a * b);
      var hi := p / M64;   // ppc_mulhd: the high half of the signed product, rounded down
      Ctx(c.gpr[rd := lo], SetOv(c.xer, hi != (if TopBit(lo) then -1 else 0)))
  }

  // ----- each instruction against unbounded integers -----

  /** What the carry instructions add up, in unbounded integers. */
  function Sum(i: Insn, c: Ctx): int
    requires !i.Mullwo? && !i.Mulldo?
  {
    var ca := CaBit(c.xer);
    match i
    case Addc(_, ra, rb) => c.gpr[ra] + c.gpr[rb]
    case Adde(_, ra, rb) => c.gpr[ra] + c.gpr[rb] + ca
    case Addeo(_, ra, rb) => c.gpr[ra] + c.gpr[rb] + ca
    case Subfc(_, ra, rb) => Not(c.gpr[ra]) + c.gpr[rb] + 1
    case Subfe(_, ra, rb) => Not(c.gpr[ra]) + c.gpr[rb] + ca
    case Subfeo(_, ra, rb) => Not(c.gpr[ra]) + c.gpr[rb] + ca
    case Addic(_, ra, imm) => c.gpr[ra] + Wrap(imm)
    case Subfic(_, ra, imm) => Not(c.gpr[ra]) + Wrap(imm) + 1
    case Addze(_, ra) => c.gpr[ra] + ca
    case Addme(_, ra) => c.gpr[ra] + (M64 - 1) + ca
    case Subfme(_, ra) => Not(c.gpr[ra]) + (M64 - 1) + ca
    case Subfze(_, ra) => Not(c.gpr[ra]) + ca
  }

  lemma WrapAdd(a: U64, b: U64)
    ensures a + b == Wrap(a + b) + (if Wrap(a + b) < a then M64 else 0)
  {
  }

  lemma WrapAddCarry(a: U64, b: U64, ca: int)
    requires ca == 0 || ca == 1
    ensures var r := Wrap(a + b + ca);
            a + b + ca == r + (if r < a || (ca == 1 && r == a) then M64 else 0)
  {
  }

  lemma TwoStepAdd(a: U64, b: U64, ca: int)
    requires ca == 0 || ca == 1
    ensures var (r, co) := AddThenCarry(a, b, ca);
            a + b + ca == r + (if co then M64 else 0)
  {
    WrapAdd(a, b);
    WrapAdd(Wrap(a + b), ca);
  }

  /** The carry a step leaves, and that it touches nothing but rd, CA and, in the o forms, OV and SO. */
  predicate Exact(i: Insn, c: Ctx)
    requires !i.Mullwo? && !i.Mulldo?
  {
    var n := Exec(i, c);
    n.gpr[i.rd] + (if Ca(n.xer) then M64 else 0) == Sum(i, c)
    && n.gpr == c.gpr[i.rd := n.gpr[i.rd]]
    && (!i.Addeo? && !i.Subfeo? ==> Ov(n.xer) == Ov(c.xer) && So(n.xer) == So(c.xer)) && Rest(n.xer) == Rest(c.xer)
  }

  lemma AddFamily(i: Insn, c: Ctx)
    requires i.Addc? || i.Adde? || i.Addeo? || i.Addic? || i.Addze?
    ensures Exact(i, c)
  {
    hide Ca, Ov, So, Rest, SetCa, SetOv, AddThenCarry, OverflowTest, Wrap, Not;
    SetCaKeepsRest(c.xer);
    var ca := CaBit(c.xer);
    match i
    case Addc(_, ra, rb) => WrapAdd(c.gpr[ra], c.gpr[rb]);
    case Adde(_, ra, rb) => WrapAddCarry(c.gpr[ra], c.gpr[rb], ca);
    case Addeo(_, ra, rb) => WrapAddCarry(c.gpr[ra], c.gpr[rb], ca);
    case Addic(_, ra, imm) => WrapAdd(c.gpr[ra], Wrap(imm));
    case Addze(_, ra) => WrapAdd(c.gpr[ra], ca);
  }

  lemma SubtractFamily(i: Insn, c: Ctx)
    requires i.Subfc? || i.Subfe? || i.Subfeo? || i.Subfic?
    ensures Exact(i, c)
  {
    hide Ca, Ov, So, Rest, SetCa, SetOv, AddThenCarry, OverflowTest, Wrap, Not;
    SetCaKeepsRest(c.xer);
    var ca := CaBit(c.xer);
    match i
    case Subfc(_, ra, rb) => SubfcCarry(c.gpr[ra], c.gpr[rb]);
    case Subfe(_, ra, rb) => TwoStepAdd(Not(c.gpr[ra]), c.gpr[rb], ca);
    case Subfeo(_, ra, rb) => TwoStepAdd(Not(c.gpr[ra]), c.gpr[rb], ca);
    case Subfic(_, ra, imm) => SubficCarry(Not(c.gpr[ra]), Wrap(imm));
  }

  lemma ConstantFamily(i: Insn, c: Ctx)
    requires i.Addme? || i.Subfme? || i.Subfze?
    ensures Exact(i, c)
  {
    hide Ca, Ov, So, Rest, SetCa, SetOv, AddThenCarry, OverflowTest, Wrap, Not;
    SetCaKeepsRest(c.xer);
    var ca := CaBit(c.xer);
    match i
    case Addme(_, ra) => TwoStepAdd(c.gpr[ra], M64 - 1, ca);
    case Subfme(_, ra) => TwoStepAdd(Not(c.gpr[ra]), M64 - 1, ca);
    case Subfze(_, ra) => WrapAdd(Not(c.gpr[ra]), ca);
  }

  /** The result register and CA together are the exact unbounded sum; nothing else moves but OV and SO. */
  lemma CarryIsExact(i: Insn, c: Ctx)
    requires !i.Mullwo? && !i.Mulldo?
    ensures var n := Exec(i, c);
            n.gpr[i.rd] + (if Ca(n.xer) then M64 else 0) == Sum(i, c)
            && n.gpr == c.gpr[i.rd := n.gpr[i.rd]]
            && (!i.Addeo? && !i.Subfeo? ==> Ov(n.xer) == Ov(c.xer) && So(n.xer) == So(c.xer))
            && Rest(n.xer) == Rest(c.xer)
  {
    hide Exec, Sum, Ca, Ov, So, Rest;
    if i.Addc? || i.Adde? || i.Addeo? || i.Addic? || i.Addze? {
      AddFamily(i, c);
    } else if i.Subfc? || i.Subfe? || i.Subfeo? || i.Subfic? {
      SubtractFamily(i, c);
    } else {
      ConstantFamily(i, c);
    }
  }

  lemma SubfcCarry(a: U64, b: U64)
    ensures Not(a) + b + 1 == Wrap(Not(a) + b + 1) + (if b >= a then M64 else 0)
  {
  }

  lemma SubficCarry(na: U64, imm: U64)
    ensures var t := Wrap(na + imm);
            var s := Wrap(t + 1);
            na + imm + 1 == s + (if t < na || s == 0 then M64 else 0)
  {
    WrapAdd(na, imm);
    WrapAdd(Wrap(na + imm), 1);
  }

  predicate Fits(x: int, limit: int) { -limit <= x < limit }

  /** The sign test of the emitted code decides whether the signed sum fits. */
  lemma SignTest(a: U64, b: U64, ca: int)
    requires ca == 0 || ca == 1
    ensures var r := Wrap(a + b + ca);
            var exact := Signed(a) + Signed(b) + ca;
            (OverflowTest(a, b, r) <==> !Fits(exact, M63)) && (!OverflowTest(a, b, r) ==> Signed(r) == exact)
  {
    WrapAddCarry(a, b, ca);
    hide Wrap;
  }

  lemma TwoStepsOneResult(a: U64, b: U64, ca: int)
    requires ca == 0 || ca == 1
    ensures AddThenCarry(a, b, ca).0 == Wrap(a + b + ca)
  {
    TwoStepAdd(a, b, ca);
  }

  lemma SignedNot(a: U64)
    ensures Signed(Not(a)) == -1 - Signed(a)
  {
  }

  /** OV says that the signed result does not fit, and SO remembers it. */
  lemma OverflowIsExact(i: Insn, c: Ctx)
    requires i.Addeo? || i.Subfeo?
    ensures var n := Exec(i, c);
            var exact := (if i.Addeo? then Signed(c.gpr[i.ra]) else -1 - Signed(c.gpr[i.ra])) + Signed(c.gpr[i.rb])
                         + CaBit(c.xer);
            (Ov(n.xer) <==> !Fits(exact, M63))
            && (!Ov(n.xer) ==> Signed(n.gpr[i.rd]) == exact)
            && (So(n.xer) <==> So(c.xer) || Ov(n.xer))
  {
    hide Ca, Ov, So, Rest, SetCa, SetOv, OverflowTest, Signed, Wrap, AddThenCarry, Not;
    var ca := CaBit(c.xer);
    var a := if i.Addeo? then c.gpr[i.ra] else Not(c.gpr[i.ra]);
    SignedNot(c.gpr[i.ra]);
    SignTest(a, c.gpr[i.rb], ca);
    TwoStepsOneResult(a, c.gpr[i.rb], ca);
  }

  lemma LowSignBounds(a: U64)
    ensures Fits(SignedLow(a), 0x8000_0000)
  {
  }

  lemma ProductBound(x: int, y: int)
    requires Fits(x, 0x8000_0000) && Fits(y, 0x8000_0000)
    ensures Fits(x * y, M63)
  {
    ProductMagnitude(x, y, 0x8000_0000);
  }

  lemma ProductMagnitude(x: int, y: int, m: int)
    requires -m <= x <= m && -m <= y <= m
    ensures -(m * m) <= x * y <= m * m
  {
    assert (m - x) * (m + y) == m * m + m * y - x * m - x * y;
    assert (m + x) * (m - y) == m * m - m * y + x * m - x * y;
    assert (m - x) * (m - y) == m * m - m * y - x * m + x * y;
    assert (m + x) * (m + y) == m * m + m * y + x * m + x * y;
    NonNegative(m - x, m + y);
    NonNegative(m + x, m - y);
    NonNegative(m - x, m - y);
    NonNegative(m + x, m + y);
  }

  lemma NonNegative(x: int, y: int)
    requires x >= 0 && y >= 0
    ensures x * y >= 0
  {
  }

  lemma SignedLowOfWrap(p: int)
    requires Fits(p, M63)
    ensures Signed(Wrap(p)) == p
    ensures p == SignedLow(Wrap(p)) <==> Fits(p, 0x8000_0000)
  {
  }

  /** mullwo: the exact 64-bit product, and OV iff it does not fit 32 bits. */
  lemma MullwoIsExact(i: Insn, c: Ctx)
    requires i.Mullwo?
    ensures var n := Exec(i, c);
            var p := SignedLow(c.gpr[i.ra]) * SignedLow(c.gpr[i.rb]);
            Signed(n.gpr[i.rd]) == p && (Ov(n.xer) <==> !Fits(p, 0x8000_0000))
            && (So(n.xer) <==> So(c.xer) || Ov(n.xer)) && Ca(n.xer) == Ca(c.xer) && Rest(n.xer) == Rest(c.xer)
            && n.gpr == c.gpr[i.rd := n.gpr[i.rd]]
  {
    hide SignedLow, Signed, Wrap;
    LowSignBounds(c.gpr[i.ra]);
    LowSignBounds(c.gpr[i.rb]);
    var x, y := SignedLow(c.gpr[i.ra]), SignedLow(c.gpr[i.rb]);
    ProductBound(x, y);
    SignedLowOfWrap(x * y);
  }

  lemma SignedProduct(a: U64, b: U64)
    ensures Wrap(a * b) == Wrap(Signed(a) * Signed(b))
  {
    var x, y := Signed(a), Signed(b);
    var i := if TopBit(a) then 1 else 0;
    var j := if TopBit(b) then 1 else 0;
    assert a == x + i * M64 && b == y + j * M64;
    ProductShift(x, y, i, j);
    WrapShift(x * y, x * j + i * y + i * j * M64);
  }

  lemma ProductShift(x: int, y: int, i: int, j: int)
    ensures (x + i * M64) * (y + j * M64) == x * y + (x * j + i * y + i * j * M64) * M64
  {
    var u, v := i * M64, j * M64;
    assert (x + u) * (y + v) == x * y + x * v + u * y + u * v;
    assert x * v == (x * j) * M64;
    assert u * y == (i * y) * M64;
    assert u * v == (i * j * M64) * M64;
  }

  lemma WrapShift(x: int, k: int)
    ensures Wrap(x + k * M64) == Wrap(x)
  {
  }

  lemma HighHalf(p: int)
    ensures p / M64 == (if TopBit(Wrap(p)) then -1 else 0) <==> Fits(p, M63)
    ensures Fits(p, M63) ==> Signed(Wrap(p)) == p
  {
  }

  /** mulldo: the low half of the signed product, and OV iff the product does not fit 64 bits. */
  lemma MulldoIsExact(i: Insn, c: Ctx)
    requires i.Mulldo?
    ensures var n := Exec(i, c);
            var p := Signed(c.gpr[i.ra]) * Signed(c.gpr[i.rb]);
            n.gpr[i.rd] == Wrap(p) && (Ov(n.xer) <==> !Fits(p, M63)) && (!Ov(n.xer) ==> Signed(n.gpr[i.rd]) == p)
            && (So(n.xer) <==> So(c.xer) || Ov(n.xer)) && Ca(n.xer) == Ca(c.xer) && Rest(n.xer) == Rest(c.xer)
            && n.gpr == c.gpr[i.rd := n.gpr[i.rd]]
  {
    hide Signed, Wrap, Ca, Ov, So, Rest, SetOv, Fits, TopBit;
    SignedProduct(c.gpr[i.ra], c.gpr[i.rb]);
    HighHalf(Signed(c.gpr[i.ra]) * Signed(c.gpr[i.rb]));
  }

  // ----- multiword arithmetic -----

  /** One word of a multiword operation. */
  datatype Limb = Limb(rd: Reg, ra: Reg, rb: Reg)

  function Power(n: nat): nat { if n == 0 then 1 else M64 * Power(n - 1) }

  /** The multiword number held in registers, low word first. */
  function Number(g: Gprs, rs: seq<Reg>): nat {
    if rs == [] then 0 else g[rs[0]] + M64 * Number(g, rs[1..])
  }

  function Rds(ls: seq<Limb>): seq<Reg> { if ls == [] then [] else [ls[0].rd] + Rds(ls[1..]) }
  function Ras(ls: seq<Limb>): seq<Reg> { if ls == [] then [] else [ls[0].ra] + Ras(ls[1..]) }
  function Rbs(ls: seq<Limb>): seq<Reg> { if ls == [] then [] else [ls[0].rb] + Rbs(ls[1..]) }

  /** A word's result register may alias its own sources, but not a source or result of a later word. */
  predicate NoClobber(ls: seq<Limb>) {
    ls == [] || (ls[0].rd !in Ras(ls[1..]) && ls[0].rd !in Rbs(ls[1..]) && ls[0].rd !in Rds(ls[1..])
                 && NoClobber(ls[1..]))
  }

  function RunAdde(ls: seq<Limb>, c: Ctx): Ctx {
    if ls == [] then c else RunAdde(ls[1..], Exec(Adde(ls[0].rd, ls[0].ra, ls[0].rb), c))
  }

  function RunSubfe(ls: seq<Limb>, c: Ctx): Ctx {
    if ls == [] then c else RunSubfe(ls[1..], Exec(Subfe(ls[0].rd, ls[0].ra, ls[0].rb), c))
  }

  /** The emitted addc followed by adde for each further word. */
  function AddWords(ls: seq<Limb>, c: Ctx): Ctx
    requires ls != []
  {
    RunAdde(ls[1..], Exec(Addc(ls[0].rd, ls[0].ra, ls[0].rb), c))
  }

  function SubtractWords(ls: seq<Limb>, c: Ctx): Ctx
    requires ls != []
  {
    RunSubfe(ls[1..], Exec(Subfc(ls[0].rd, ls[0].ra, ls[0].rb), c))
  }

  lemma {:induction false} NumberUntouched(g: Gprs, rs: seq<Reg>, r: Reg, v: U64)
    requires r !in rs
    ensures Number(g[r := v], rs) == Number(g, rs)
  {
    if rs != [] {
      NumberUntouched(g, rs[1..], r, v);
    }
  }

  lemma {:induction false} AddeKeepsOthers(ls: seq<Limb>, c: Ctx, r: Reg)
    requires r !in Rds(ls)
    ensures RunAdde(ls, c).gpr[r] == c.gpr[r]
  {
    if ls != [] {
      var n := Exec(Adde(ls[0].rd, ls[0].ra, ls[0].rb), c);
      AddeKeepsOthers(ls[1..], n, r);
    }
  }

  lemma {:induction false} SubfeKeepsOthers(ls: seq<Limb>, c: Ctx, r: Reg)
    requires r !in Rds(ls)
    ensures RunSubfe(ls, c).gpr[r] == c.gpr[r]
  {
    if ls != [] {
      var n := Exec(Subfe(ls[0].rd, ls[0].ra, ls[0].rb), c);
      CarryIsExact(Subfe(ls[0].rd, ls[0].ra, ls[0].rb), c);
      SubfeKeepsOthers(ls[1..], n, r);
    }
  }

  /** The carry out, weighted by the size of the number. */
  function CarryOut(xer: bv32, n: nat): nat { if Ca(xer) then Power(n) else 0 }

  /** The step shared by all words: the low word w with carry k, and the rest with its own carry. */
  lemma Compose(w: int, rest: int, carry: bool, n: nat, low: int, high: int, k: bool)
    requires w + (if k then M64 else 0) == low
    requires rest + (if carry then Power(n) else 0) == high + (if k then 1 else 0)
    ensures w + M64 * rest + (if carry then Power(n + 1) else 0) == low + M64 * high
  {
  }

  /** n - 1 words of adde: the exact sum of both numbers and the carry in. */
  lemma {:induction false} AddeWordsExact(ls: seq<Limb>, c: Ctx)
    requires NoClobber(ls)
    ensures var n := RunAdde(ls, c);
            Number(n.gpr, Rds(ls)) + CarryOut(n.xer, |ls|) == Number(c.gpr, Ras(ls)) + Number(c.gpr, Rbs(ls))
              + CaBit(c.xer)
    decreases |ls|
  {
    if ls == [] {
    } else {
      var l, rest := ls[0], ls[1..];
      var i := Adde(l.rd, l.ra, l.rb);
      var n1 := Exec(i, c);
      AddWordStep(ls, c, i, n1, RunAdde(rest, n1), CaBit(c.xer));
    }
  }

  lemma NumbersCons(g: Gprs, ls: seq<Limb>)
    requires ls != []
    ensures Number(g, Rds(ls)) == g[ls[0].rd] + M64 * Number(g, Rds(ls[1..]))
    ensures Number(g, Ras(ls)) == g[ls[0].ra] + M64 * Number(g, Ras(ls[1..]))
    ensures Number(g, Rbs(ls)) == g[ls[0].rb] + M64 * Number(g, Rbs(ls[1..]))
  {
    assert Rds(ls)[1..] == Rds(ls[1..]) && Ras(ls)[1..] == Ras(ls[1..]) && Rbs(ls)[1..] == Rbs(ls[1..]);
  }

  /** One word and the already exact rest. */
  lemma AddWordStep(ls: seq<Limb>, c: Ctx, i: Insn, n1: Ctx, n: Ctx, carryIn: int)
    requires ls != [] && NoClobber(ls)
    requires (i == Adde(ls[0].rd, ls[0].ra, ls[0].rb) && carryIn == CaBit(c.xer))
             || (i == Addc(ls[0].rd, ls[0].ra, ls[0].rb) && carryIn == 0)
    requires n1 == Exec(i, c) && n == RunAdde(ls[1..], n1)
    ensures Number(n.gpr, Rds(ls)) + CarryOut(n.xer, |ls|) == Number(c.gpr, Ras(ls)) + Number(c.gpr, Rbs(ls)) + carryIn
    decreases |ls|, 0
  {
    hide Ca, Exec, Number, Rds, Ras, Rbs, RunAdde, Power;
    var l, rest := ls[0], ls[1..];
    CarryIsExact(i, c);
    AddeWordsExact(rest, n1);
    AddeKeepsOthers(rest, n1, l.rd);
    NumberUntouched(c.gpr, Ras(rest), l.rd, n1.gpr[l.rd]);
    NumberUntouched(c.gpr, Rbs(rest), l.rd, n1.gpr[l.rd]);
    Compose(n1.gpr[l.rd], Number(n.gpr, Rds(rest)), Ca(n.xer), |rest|, c.gpr[l.ra] + c.gpr[l.rb] + carryIn,
            Number(c.gpr, Ras(rest)) + Number(c.gpr, Rbs(rest)), Ca(n1.xer));
    NumbersCons(n.gpr, ls);
    NumbersCons(c.gpr, ls);
  }

  /** For every number of words: addc and adde compute the multiword sum, with CA as its carry-out. */
  lemma MultiwordAddIsExact(ls: seq<Limb>, c: Ctx)
    requires ls != [] && NoClobber(ls)
    ensures var n := AddWords(ls, c);
            Number(n.gpr, Rds(ls)) + CarryOut(n.xer, |ls|) == Number(c.gpr, Ras(ls)) + Number(c.gpr, Rbs(ls))
  {
    var i := Addc(ls[0].rd, ls[0].ra, ls[0].rb);
    AddWordStep(ls, c, i, Exec(i, c), AddWords(ls, c), 0);
  }

  /** The same for subtraction: each word adds the complement of ra. */
  lemma {:induction false} SubfeWordsExact(ls: seq<Limb>, c: Ctx)
    requires NoClobber(ls)
    ensures var n := RunSubfe(ls, c);
            Number(n.gpr, Rds(ls)) + CarryOut(n.xer, |ls|)
            == Power(|ls|) - 1 - Number(c.gpr, Ras(ls)) + Number(c.gpr, Rbs(ls)) + CaBit(c.xer)
    decreases |ls|
  {
    if ls != [] {
      var l, rest := ls[0], ls[1..];
      var i := Subfe(l.rd, l.ra, l.rb);
      var n1 := Exec(i, c);
      SubWordStep(ls, c, i, n1, RunSubfe(rest, n1), CaBit(c.xer));
    }
  }

  lemma SubWordStep(ls: seq<Limb>, c: Ctx, i: Insn, n1: Ctx, n: Ctx, carryIn: int)
    requires ls != [] && NoClobber(ls)
    requires (i == Subfe(ls[0].rd, ls[0].ra, ls[0].rb) && carryIn == CaBit(c.xer))
             || (i == Subfc(ls[0].rd, ls[0].ra, ls[0].rb) && carryIn == 1)
    requires n1 == Exec(i, c) && n == RunSubfe(ls[1..], n1)
    ensures Number(n.gpr, Rds(ls)) + CarryOut(n.xer, |ls|)
         == Power(|ls|) - 1 - Number(c.gpr, Ras(ls)) + Number(c.gpr, Rbs(ls)) + carryIn
    decreases |ls|, 0
  {
    hide Ca, Exec, Number, Rds, Ras, Rbs, RunSubfe, Power;
    var l, rest := ls[0], ls[1..];
    CarryIsExact(i, c);
    SubfeWordsExact(rest, n1);
    SubfeKeepsOthers(rest, n1, l.rd);
    NumberUntouched(c.gpr, Ras(rest), l.rd, n1.gpr[l.rd]);
    NumberUntouched(c.gpr, Rbs(rest), l.rd, n1.gpr[l.rd]);
    var high := Power(|rest|) - 1 - Number(c.gpr, Ras(rest)) + Number(c.gpr, Rbs(rest));
    Compose(n1.gpr[l.rd], Number(n.gpr, Rds(rest)), Ca(n.xer), |rest|, Not(c.gpr[l.ra]) + c.gpr[l.rb] + carryIn, high,
            Ca(n1.xer));
    NumbersCons(n.gpr, ls);
    NumbersCons(c.gpr, ls);
    PowerStep(|rest|);
  }

  lemma PowerStep(n: nat)
    ensures Power(n + 1) == M64 * Power(n)
  {
  }

  lemma {:induction false} NumberBelow(g: Gprs, rs: seq<Reg>)
    ensures Number(g, rs) < Power(|rs|)
  {
    if rs != [] {
      NumberBelow(g, rs[1..]);
    }
  }

  lemma {:induction false} RdsLength(ls: seq<Limb>)
    ensures |Rds(ls)| == |ls|
  {
    if ls != [] {
      RdsLength(ls[1..]);
    }
  }

  /** For every number of words: subfc and subfe compute the multiword difference rb - ra, and CA is set
      exactly when there is no borrow. */
  lemma MultiwordSubtractIsExact(ls: seq<Limb>, c: Ctx)
    requires ls != [] && NoClobber(ls)
    ensures var n := SubtractWords(ls, c);
            var a, b := Number(c.gpr, Ras(ls)), Number(c.gpr, Rbs(ls));
            (Ca(n.xer) <==> b >= a) && Number(n.gpr, Rds(ls)) == (if b >= a then b - a else Power(|ls|) + b - a)
  {
    hide Ca, Exec;
    var i := Subfc(ls[0].rd, ls[0].ra, ls[0].rb);
    var n := SubtractWords(ls, c);
    SubWordStep(ls, c, i, Exec(i, c), n, 1);
    RdsLength(ls);
    NumberBelow(n.gpr, Rds(ls));
  }
}
