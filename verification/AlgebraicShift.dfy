/** The algebraic right shifts of the PPU lifter: the C helpers it emits and the instructions that call them
    (tools/ppu_lifter.py), against floor division, and the carry they leave to the instructions of module CarryChain. */
module AlgebraicShift {
  import opened Basics
  import C = CarryChain

  type Int32 = x: int | -0x8000_0000 <= x < 0x8000_0000
  type Int64 = x: int | -0x8000_0000_0000_0000 <= x < 0x8000_0000_0000_0000
  type Count32 = n: int | 0 <= n < 32
  type Count64 = n: int | 0 <= n < 64

  /** `>>` of a negative C value: each position drops the lowest bit and copies the sign. */
  function Sar(x: int, n: nat): int
    decreases n
  {
    if n == 0 then x else Sar((x - x % 2) / 2, n - 1)
  }

  function Unsigned(x: int, width: nat): nat { x % Pow2(width) }

  /** The bits a shift by sh of a width-bit value pushes out: all of them from the width on. */
  function ShiftedOut(x: int, width: nat, sh: nat): nat {
    if sh == 0 then 0 else if sh >= width then Unsigned(x, width) else Unsigned(x, width) % Pow2(sh)
  }

  /** ppc_sraw: the count masked to six bits, the bits shifted out tested for the carry. */
  function PpcSraw(xer: bv32, rs: Int32, n: nat): (int, bv32) {
    var sh := n % 64;
    var ca := rs < 0 && ShiftedOut(rs, 32, sh) != 0;
    (if sh >= 32 then Sar(rs, 31) else Sar(rs, sh), C.SetCa(xer, ca))
  }

  /** ppc_srad: the count masked to seven bits. */
  function PpcSrad(xer: bv32, rs: Int64, n: nat): (int, bv32) {
    var sh := n % 128;
    var ca := rs < 0 && ShiftedOut(rs, 64, sh) != 0;
    (if sh >= 64 then Sar(rs, 63) else Sar(rs, sh), C.SetCa(xer, ca))
  }

  datatype Insn =
    | Sraw(ra: C.Reg, rs: C.Reg, rb: C.Reg)
    | Srawi(ra: C.Reg, rs: C.Reg, sh: Count32)
    | Srad(ra: C.Reg, rs: C.Reg, rb: C.Reg)
    | Sradi(ra: C.Reg, rs: C.Reg, dsh: Count64)

  /** The emitted call: the 64-bit register takes the helper's signed result. */
  function Exec(i: Insn, c: C.Ctx): C.Ctx {
    var (value, xer) :=
      match i {
        case Sraw(_, rs, rb) => PpcSraw(c.xer, C.SignedLow(c.gpr[rs]), c.gpr[rb] % 0x40)
        case Srawi(_, rs, sh) => PpcSraw(c.xer, C.SignedLow(c.gpr[rs]), sh)
        case Srad(_, rs, rb) => PpcSrad(c.xer, C.Signed(c.gpr[rs]), c.gpr[rb] % 0x80)
        case Sradi(_, rs, dsh) => PpcSrad(c.xer, C.Signed(c.gpr[rs]), dsh)
      };
    C.Ctx(c.gpr[i.ra := C.Wrap(value)], xer)
  }

  // ----- the instruction set's own definition -----

  /** The signed word or doubleword that is shifted. */
  function Operand(i: Insn, c: C.Ctx): int {
    if i.Sraw? || i.Srawi? then C.SignedLow(c.gpr[i.rs]) else C.Signed(c.gpr[i.rs])
  }

  function Amount(i: Insn, c: C.Ctx): nat {
    match i
    case Sraw(_, _, rb) => c.gpr[rb] % 64
    case Srawi(_, _, sh) => sh
    case Srad(_, _, rb) => c.gpr[rb] % 128
    case Sradi(_, _, dsh) => dsh
  }

  // ----- shifts as division -----

  predicate FitsSigned(x: int, width: nat)
    requires width >= 1
  {
    var half: int := Pow2(width - 1);
    -half <= x < half
  }

  lemma HalveDivide(x: int, p: int)
    requires p >= 1
    ensures (x - x % 2) / 2 / p == x / (2 * p)
    ensures x % (2 * p) == 2 * ((x - x % 2) / 2 % p) + x % 2
  {
    var b := x % 2;
    var h := (x - b) / 2;
    var q, r := h / p, h % p;
    DivMod(h, p);
    Halved(h, p, q, r, b);
    QuotientIs(x, 2 * p, q, 2 * r + b);
  }

  lemma Halved(h: int, p: int, q: int, r: int, b: int)
    requires h == p * q + r
    ensures 2 * h + b == (2 * p) * q + (2 * r + b)
  {
    MultiplyOut(2, p, q);
  }

  lemma {:induction false} SarIsFloorDivision(x: int, n: nat)
    ensures Sar(x, n) == x / Pow2(n)
    decreases n
  {
    if n > 0 {
      SarIsFloorDivision((x - x % 2) / 2, n - 1);
      HalveDivide(x, Pow2(n - 1));
    }
  }

  /** Past the width only the sign is left. */
  lemma SignOnly(x: int, p: int)
    requires p >= 1 && -p <= x < p
    ensures x / p == (if x < 0 then -1 else 0) && (x < 0 ==> x % p != 0 || x == -p)
  {
    if x < 0 {
      QuotientIs(x, p, -1, x + p);
    } else {
      QuotientIs(x, p, 0, x);
    }
  }

  /** Some bit below n is a one. */
  predicate LosesOnes(x: int, n: nat) { exists k: nat :: k < n && Sar(x, k) % 2 == 1 }

  lemma {:induction false} RemainderIsLostOnes(x: int, n: nat)
    ensures x % Pow2(n) != 0 <==> LosesOnes(x, n)
    decreases n
  {
    if n > 0 {
      var h := (x - x % 2) / 2;
      RemainderIsLostOnes(h, n - 1);
      HalveDivide(x, Pow2(n - 1));
      if x % 2 == 1 {
        assert Sar(x, 0) % 2 == 1;
      }
      if LosesOnes(h, n - 1) {
        var k: nat :| k < n - 1 && Sar(h, k) % 2 == 1;
        assert Sar(x, k + 1) % 2 == 1;
      }
      if LosesOnes(x, n) && x % 2 != 1 {
        var k: nat :| k < n && Sar(x, k) % 2 == 1;
        assert k > 0;
        assert Sar(h, k - 1) % 2 == 1;
      }
    }
  }

  lemma NestedRemainder(x: int, a: nat, b: nat)
    requires b <= a
    ensures x % Pow2(a) % Pow2(b) == x % Pow2(b)
  {
    hide Pow2;
    PowersMultiply(b, a - b);
    Nested(x, Pow2(b), Pow2(a - b));
  }

  lemma Nested(x: int, p: int, m: int)
    requires p >= 1 && m >= 1
    ensures p * m >= 1
    ensures x % (p * m) % p == x % p
  {
    LessByFactor(m, p);
    var q, r := x / (p * m), x % (p * m);
    DivMod(x, p * m);
    DivMod(r, p);
    Regroup(x, p, m, q, r, r / p, r % p);
    QuotientIs(x, p, m * q + r / p, r % p);
  }

  lemma Regroup(x: int, p: int, m: int, q: int, r: int, u: int, v: int)
    requires x == p * m * q + r && r == p * u + v
    ensures x == p * (m * q + u) + v
  {
    MultiplyOut(p, m, q);
    Distribute(p, m * q, u);
  }

  lemma MultiplyOut(p: int, m: int, q: int)
    ensures p * m * q == p * (m * q)
  {
  }

  /** What the carry test sees: ones among the low sh bits, and for a count past the width the whole value. */
  lemma CarrySeesLostOnes(x: int, width: nat, sh: nat)
    requires width >= 1 && FitsSigned(x, width) && x < 0
    ensures ShiftedOut(x, width, sh) != 0 <==> LosesOnes(x, sh)
  {
    hide Pow2, LosesOnes;
    RemainderIsLostOnes(x, sh);
    if sh == 0 {
      PowZero();
    } else if sh < width {
      NestedRemainder(x, width, sh);
    } else {
      PowerStrictlyGrows(width - 1, sh);
      PowerStrictlyGrows(width - 1, width);
      QuotientIs(x, Pow2(sh), -1, x + Pow2(sh));
      QuotientIs(x, Pow2(width), -1, x + Pow2(width));
    }
  }

  lemma PowZero()
    ensures Pow2(0) == 1
  {
  }

  lemma PowOne()
    ensures Pow2(1) == 2
  {
    assert Pow2(0) == 1;
  }

  lemma PowerStrictlyGrows(a: nat, b: nat)
    requires a < b
    ensures Pow2(a) < Pow2(b)
  {
    PowersGrow(a + 1, b);
  }

  lemma ClampedShift(x: int, width: nat, sh: nat)
    requires width >= 1 && FitsSigned(x, width)
    ensures (if sh >= width then Sar(x, width - 1) else Sar(x, sh)) == x / Pow2(sh)
  {
    hide Pow2, Sar;
    SarIsFloorDivision(x, if sh >= width then width - 1 else sh);
    if sh >= width {
      PowerStrictlyGrows(width - 1, sh);
      SignOnly(x, Pow2(width - 1));
      SignOnly(x, Pow2(sh));
    }
  }

  lemma Pow31()
    ensures Pow2(31) == 0x8000_0000
  {
    assert Pow2(10) == 1024;
    PowersMultiply(10, 10);
    PowersMultiply(20, 10);
    PowersMultiply(30, 1);
    PowOne();
  }

  lemma Pow63()
    ensures Pow2(63) == 0x8000_0000_0000_0000
  {
    hide Pow2;
    Pow31();
    PowersMultiply(31, 31);
    PowersMultiply(62, 1);
    PowOne();
  }

  // ----- the instructions -----

  lemma SrawMeans(xer: bv32, rs: Int32, n: nat)
    requires n < 64
    ensures var (value, x) := PpcSraw(xer, rs, n);
            value == rs / Pow2(n) && x == C.SetCa(xer, rs < 0 && LosesOnes(rs, n))
  {
    hide Pow2, LosesOnes, Sar, ShiftedOut, C.SetCa;
    Pow31();
    ClampedShift(rs, 32, n);
    if rs < 0 {
      CarrySeesLostOnes(rs, 32, n);
    }
  }

  lemma SradMeans(xer: bv32, rs: Int64, n: nat)
    requires n < 128
    ensures var (value, x) := PpcSrad(xer, rs, n);
            value == rs / Pow2(n) && x == C.SetCa(xer, rs < 0 && LosesOnes(rs, n))
  {
    hide Pow2, LosesOnes, Sar, ShiftedOut, C.SetCa;
    Pow63();
    ClampedShift(rs, 64, n);
    if rs < 0 {
      CarrySeesLostOnes(rs, 64, n);
    }
  }

  lemma FloorStaysSmall(x: Int64, p: nat)
    requires p >= 1
    ensures -C.M63 <= x / p < C.M63 && (x < 0 <==> x / p < 0)
    ensures C.Signed(C.Wrap(x / p)) == x / p
  {
    DivMod(x, p);
    if x >= 0 {
      Smaller(x / p, p);
    } else {
      Smaller(-(x / p) - 1, p);
    }
  }

  lemma Smaller(q: int, p: int)
    requires p >= 1
    ensures q >= 0 ==> p * q >= q
    ensures q < 0 ==> p * q < 0
  {
  }

  /** Every algebraic shift, for all operands and counts: the 64-bit register holds the operand divided by the power
      of two and rounded down, CA says that a negative operand lost a one, OV and SO and every other register stay. */
  lemma ShiftIsExact(i: Insn, c: C.Ctx)
    ensures var n := Exec(i, c);
            && C.Signed(n.gpr[i.ra]) == Operand(i, c) / Pow2(Amount(i, c))
            && (C.Ca(n.xer) <==> Operand(i, c) < 0 && LosesOnes(Operand(i, c), Amount(i, c)))
            && C.Ov(n.xer) == C.Ov(c.xer) && C.So(n.xer) == C.So(c.xer) && C.Rest(n.xer) == C.Rest(c.xer)
            && n.gpr == c.gpr[i.ra := n.gpr[i.ra]]
  {
    hide Pow2, LosesOnes, PpcSraw, PpcSrad, C.SetCa, C.Ca, C.Ov, C.So, C.Rest, C.Wrap, C.Signed, C.SignedLow;
    C.SetCaKeepsRest(c.xer);
    SignedRange(c.gpr[i.rs]);
    if i.Sraw? || i.Srawi? {
      SrawMeans(c.xer, Operand(i, c), Amount(i, c));
    } else {
      SradMeans(c.xer, Operand(i, c), Amount(i, c));
    }
    FloorStaysSmall(Operand(i, c), Pow2(Amount(i, c)));
  }

  lemma SignedRange(a: U64)
    ensures -C.M63 <= C.Signed(a) < C.M63 && -0x8000_0000 <= C.SignedLow(a) < 0x8000_0000
  {
  }

  // ----- division by a power of two -----

  /** C division: rounded toward zero. */
  function Truncated(x: int, p: nat): int
    requires p >= 1
  {
    if x >= 0 then x / p else -(-x / p)
  }

  lemma TruncatedIs(x: int, p: nat)
    requires p >= 1
    ensures Truncated(x, p) == x / p + (if x < 0 && x % p != 0 then 1 else 0)
  {
    if x < 0 {
      DivMod(x, p);
      if x % p == 0 {
        QuotientIs(-x, p, -(x / p), 0);
      } else {
        Distribute(p, x / p, 1);
        QuotientIs(-x, p, -(x / p) - 1, p - x % p);
      }
    }
  }

  lemma AddzeSigned(a: U64, ca: int, r: U64, out: bool)
    requires (ca == 0 || ca == 1) && a + ca == r + (if out then M64 else 0) && C.Signed(a) + ca < C.M63
    ensures C.Signed(r) == C.Signed(a) + ca
  {
  }

  /** The compiler's signed division: a shift followed by addze of the carry it left rounds toward zero. */
  lemma ShiftThenAddzeDivides(i: Insn, rd: C.Reg, c: C.Ctx)
    ensures var n := C.Exec(C.Addze(rd, i.ra), Exec(i, c));
            C.Signed(n.gpr[rd]) == Truncated(Operand(i, c), Pow2(Amount(i, c)))
  {
    hide Pow2, Exec, LosesOnes, Operand, Amount, C.Exec, C.Ca, C.Ov, C.So, C.Signed, Truncated;
    var x, p := Operand(i, c), Pow2(Amount(i, c));
    var mid := Exec(i, c);
    var n := C.Exec(C.Addze(rd, i.ra), mid);
    ShiftIsExact(i, c);
    RemainderIsLostOnes(x, Amount(i, c));
    TruncatedIs(x, p);
    C.CarryIsExact(C.Addze(rd, i.ra), mid);
    OperandRange(i, c);
    FloorStaysSmall(x, p);
    AddzeSigned(mid.gpr[i.ra], C.CaBit(mid.xer), n.gpr[rd], C.Ca(n.xer));
  }

  lemma OperandRange(i: Insn, c: C.Ctx)
    ensures -C.M63 <= Operand(i, c) < C.M63
  {
    SignedRange(c.gpr[i.rs]);
  }
}
