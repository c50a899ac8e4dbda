/** Rotate-and-mask of the PPU lifter: the masks it folds at lift time, the C helpers it emits, and the
    instructions built from them (tools/ppu_lifter.py), against the bit-by-bit MASK and ROTL of Power ISA
    Book I, section 3.3.14. A C word is its bits, most significant first, as the instruction set numbers
    them; a lift-time mask is an unbounded integer. */
module RotateMask {
  import opened Basics

  type Bits = b: seq<bool> | |b| == 64 witness Zeros(64)
  type Bits32 = b: seq<bool> | |b| == 32 witness Zeros(32)
  type Reg = r: int | 0 <= r < 32
  type Gprs = g: seq<Bits> | |g| == 32 witness seq(32, _ => Zeros(64))
  type Word = n: int | 0 <= n < 32
  type Index = n: int | 0 <= n < 64

  /** MASK(mb, me): bits mb to me, wrapping through both ends when mb > me. */
  predicate InMask(mb: Index, me: Index, k: Index) { if mb <= me then mb <= k <= me else k >= mb || k <= me }

  // ----- C words -----

  function Zeros(n: nat): (z: seq<bool>)
    ensures |z| == n
  {
    seq(n, _ => false)
  }

  function AllOnes64(): Bits { seq(64, _ => true) }

  /** A C shift is defined only for counts below the width. */
  function Shl(x: seq<bool>, n: nat): (r: seq<bool>)
    requires n < |x|
    ensures |r| == |x|
  {
    x[n..] + Zeros(n)
  }

  function Shr(x: seq<bool>, n: nat): (r: seq<bool>)
    requires n < |x|
    ensures |r| == |x|
  {
    Zeros(n) + x[..|x| - n]
  }

  function And(x: Bits, y: Bits): Bits { seq(64, (k: nat) requires k < 64 => x[k] && y[k]) }

  function Or(x: seq<bool>, y: seq<bool>): (r: seq<bool>)
    requires |x| == |y|
    ensures |r| == |x|
  {
    seq(|x|, (k: nat) requires k < |x| => x[k] || y[k])
  }

  function Not(x: Bits): Bits { seq(64, (k: nat) requires k < 64 => !x[k]) }

  /** The number a run of bits spells. */
  function Number(b: seq<bool>): nat {
    if b == [] then 0 else 2 * Number(b[..|b| - 1]) + (if b[|b| - 1] then 1 else 0)
  }

  lemma {:induction false} NumberBelow(b: seq<bool>)
    ensures Number(b) < Pow2(|b|)
  {
    if b != [] {
      NumberBelow(b[..|b| - 1]);
    }
  }

  /** `x & 31` and `x & 63` as shift counts. */
  function Low5(x: Bits): Word {
    NumberBelow(x[59..]);
    assert Pow2(5) == 32;
    Number(x[59..])
  }

  function Low6(x: Bits): Index {
    NumberBelow(x[58..]);
    assert Pow2(5) == 32;
    Number(x[58..])
  }

  // ----- lift-time integers -----

  function Ones(lo: Index, hi: Index): nat
    requires lo <= hi
  {
    (Pow2(hi - lo + 1) - 1) * Pow2(63 - hi)
  }

  function LiftMask(mb: Index, me: Index): nat {
    if mb <= me then Ones(mb, me) else BitOr(Ones(mb, 63), Ones(0, me))
  }

  /** The 64-bit literal printed for a number. */
  function Literal(n: nat): Bits { seq(64, (k: nat) requires k < 64 => BitAt(n, 63 - k)) }

  /** `(~m) & 0xFFFFFFFFFFFFFFFF` of a 64-bit number. */
  function Complement(n: nat): nat
    requires n < Pow2(64)
  {
    Pow2(64) - 1 - n
  }

  // ----- the emitted helpers -----

  function From(mb: Index): Bits { if mb == 0 then AllOnes64() else Shr(AllOnes64(), mb) }

  function UpTo(me: Index): Bits { if me == 63 then AllOnes64() else Shl(AllOnes64(), 63 - me) }

  /** Both branches guard their shifts; in the wrapping one neither count can reach 64. */
  function Mask64(mb: Index, me: Index): Bits {
    if mb <= me then And(From(mb), UpTo(me)) else Or(Shr(AllOnes64(), mb), Shl(AllOnes64(), 63 - me))
  }

  function Rotl64(v: Bits, n: Index): Bits { if n == 0 then v else Or(Shl(v, n), Shr(v, 64 - n)) }

  function Rotl32(v: Bits32, n: Word): Bits32 { if n == 0 then v else Or(Shl(v, n), Shr(v, 32 - n)) }

  function Widen(r: Bits32): Bits { Zeros(32) + r }

  /** The 32-bit rotation, duplicated into both halves. */
  function Rlwdup(rs: Bits32, sh: Word): Bits {
    var r := Rotl32(rs, sh);
    Or(Shl(Widen(r), 32), Widen(r))
  }

  datatype Insn =
    | Rlwinm(ra: Reg, rs: Reg, sh: Word, mb: Word, me: Word)
    | Rlwnm(ra: Reg, rs: Reg, rb: Reg, mb: Word, me: Word)
    | Rlwimi(ra: Reg, rs: Reg, sh: Word, mb: Word, me: Word)
    | Rldicl(ra: Reg, rs: Reg, dsh: Index, dmb: Index)
    | Rldicr(ra: Reg, rs: Reg, dsh: Index, dme: Index)
    | Rldic(ra: Reg, rs: Reg, dsh: Index, dmb: Index)
    | Rldimi(ra: Reg, rs: Reg, dsh: Index, dmb: Index)
    | Rldcl(ra: Reg, rs: Reg, rb: Reg, dmb: Index)
    | Rldcr(ra: Reg, rs: Reg, rb: Reg, dme: Index)

  /** The value the emitted C stores into ra. */
  function Result(i: Insn, g: Gprs): Bits {
    hide Pow2, LiftMask, Mask64;
    match i
    case Rlwinm(_, rs, sh, mb, me) => And(Rlwdup(g[rs][32..], sh), Literal(LiftMask(mb + 32, me + 32)))
    case Rlwnm(_, rs, rb, mb, me) => And(Rlwdup(g[rs][32..], Low5(g[rb])), Literal(LiftMask(mb + 32, me + 32)))
    case Rlwimi(ra, rs, sh, mb, me) =>
      var m := LiftMask(mb + 32, me + 32);
      LiftMaskBelow(mb + 32, me + 32);
      Or(And(Rlwdup(g[rs][32..], sh), Literal(m)), And(g[ra], Literal(Complement(m))))
    case Rldicl(_, rs, sh, mb) => And(Rotl64(g[rs], sh), Mask64(mb, 63))
    case Rldicr(_, rs, sh, me) => And(Rotl64(g[rs], sh), Mask64(0, me))
    case Rldic(_, rs, sh, mb) => And(Rotl64(g[rs], sh), Mask64(mb, 63 - sh))
    case Rldimi(ra, rs, sh, mb) =>
      var mask := Mask64(mb, 63 - sh);
      Or(And(Rotl64(g[rs], sh), mask), And(g[ra], Not(mask)))
    case Rldcl(_, rs, rb, mb) => And(Rotl64(g[rs], Low6(g[rb])), Mask64(mb, 63))
    case Rldcr(_, rs, rb, me) => And(Rotl64(g[rs], Low6(g[rb])), Mask64(0, me))
  }

  function Exec(i: Insn, g: Gprs): Gprs { g[i.ra := Result(i, g)] }

  // ----- the instruction set's own definition -----

  predicate IsWord(i: Insn) { i.Rlwinm? || i.Rlwnm? || i.Rlwimi? }

  predicate Inserts(i: Insn) { i.Rlwimi? || i.Rldimi? }

  /** What is rotated: the doubleword, or the low word twice. */
  function Rotand(i: Insn, g: Gprs): Bits { if IsWord(i) then g[i.rs][32..] + g[i.rs][32..] else g[i.rs] }

  function Amount(i: Insn, g: Gprs): Index {
    match i
    case Rlwinm(_, _, sh, _, _) => sh
    case Rlwimi(_, _, sh, _, _) => sh
    case Rlwnm(_, _, rb, _, _) => Number(g[rb]) % 32
    case Rldcl(_, _, rb, _) => Number(g[rb]) % 64
    case Rldcr(_, _, rb, _) => Number(g[rb]) % 64
    case _ => i.dsh
  }

  function First(i: Insn): Index {
    if IsWord(i) then i.mb + 32 else if i.Rldicr? || i.Rldcr? then 0 else i.dmb
  }

  function Last(i: Insn): Index {
    if IsWord(i) then i.me + 32
    else if i.Rldicr? || i.Rldcr? then i.dme
    else if i.Rldic? || i.Rldimi? then 63 - i.dsh
    else 63
  }

  /** Bit k: of the rotated operand inside the mask; outside it the old bit of ra, or zero. */
  predicate Specified(i: Insn, g: Gprs, k: Index) {
    if InMask(First(i), Last(i), k) then Rotand(i, g)[(k + Amount(i, g)) % 64] else Inserts(i) && g[i.ra][k]
  }

  // ----- registers as numbers -----

  /** Bit j of the number, from the least significant end, is bit |b| - 1 - j of the register. */
  lemma {:induction false} NumberBits(b: seq<bool>, j: nat)
    requires j < |b|
    ensures BitAt(Number(b), j) <==> b[|b| - 1 - j]
    decreases |b|
  {
    if j > 0 {
      var rest := b[..|b| - 1];
      NumberBits(rest, j - 1);
      assert Number(b) / 2 == Number(rest);
    }
  }

  lemma {:induction false} BitsDecide(m: nat, n: nat, w: nat)
    requires m < Pow2(w) && n < Pow2(w) && forall j: nat :: j < w ==> (BitAt(m, j) <==> BitAt(n, j))
    ensures m == n
    decreases w
  {
    if w > 0 {
      assert BitAt(m, 0) <==> BitAt(n, 0);
      forall j: nat | j < w - 1
        ensures BitAt(m / 2, j) <==> BitAt(n / 2, j)
      {
        assert BitAt(m, j + 1) <==> BitAt(n, j + 1);
      }
      BitsDecide(m / 2, n / 2, w - 1);
    }
  }

  /** A 64-bit number and its register determine each other. */
  lemma NumberOfLiteral(n: nat)
    requires n < Pow2(64)
    ensures Number(Literal(n)) == n
  {
    hide Pow2, BitAt, Number;
    NumberBelow(Literal(n));
    forall j: nat | j < 64
      ensures BitAt(Number(Literal(n)), j) <==> BitAt(n, j)
    {
      NumberBits(Literal(n), j);
    }
    BitsDecide(Number(Literal(n)), n, 64);
  }

  lemma LiteralOfNumber(x: Bits)
    ensures Literal(Number(x)) == x
  {
    hide BitAt, Number;
    forall k: nat | k < 64
      ensures Literal(Number(x))[k] == x[k]
    {
      NumberBits(x, 63 - k);
    }
  }

  lemma NumberEnds(b: seq<bool>)
    requires b != []
    ensures Number(b) == 2 * Number(b[..|b| - 1]) + (if b[|b| - 1] then 1 else 0)
  {
  }

  lemma Doubled(a: int, p: int, c: int, bit: int)
    ensures 2 * (a * p + c) + bit == a * (2 * p) + (2 * c + bit)
  {
  }

  lemma {:induction false} NumberSplit(b: seq<bool>, k: nat)
    requires k <= |b|
    ensures Number(b) == Number(b[..k]) * Pow2(|b| - k) + Number(b[k..])
    decreases |b|
  {
    hide Number;
    if k == |b| {
      assert b[..k] == b && b[k..] == [] && Number([]) == 0 by {
        EmptyNumber();
      }
    } else {
      var n := |b| - 1;
      NumberSplit(b[..n], k);
      NumberEnds(b);
      NumberEnds(b[k..]);
      assert b[..n][..k] == b[..k] && b[..n][k..] == b[k..][..n - k] && b[k..][n - k] == b[n];
      Doubled(Number(b[..k]), Pow2(n - k), Number(b[k..][..n - k]), if b[n] then 1 else 0);
    }
  }

  lemma EmptyNumber()
    ensures Number([]) == 0
  {
  }

  /** `& 31` and `& 63` keep the number modulo 32 and 64. */
  lemma CountsAreRemainders(x: Bits)
    ensures Low5(x) == Number(x) % 32 && Low6(x) == Number(x) % 64
  {
    hide Number;
    assert Pow2(5) == 32 && Pow2(6) == 64;
    NumberSplit(x, 59);
    NumberSplit(x, 58);
    QuotientIs(Number(x), 32, Number(x[..59]), Low5(x));
    QuotientIs(Number(x), 64, Number(x[..58]), Low6(x));
  }

  // ----- lift-time masks, bit by bit -----

  lemma {:induction false} AllOnes(w: nat, j: nat)
    ensures BitAt(Pow2(w) - 1, j) <==> j < w
  {
    if w == 0 {
      ZeroHasNoBits(j);
    } else if j > 0 {
      AllOnes(w - 1, j - 1);
    }
  }

  lemma {:induction false} ShiftedBits(n: nat, s: nat, j: nat)
    ensures BitAt(n * Pow2(s), j) <==> s <= j && BitAt(n, j - s)
  {
    if s > 0 {
      assert n * Pow2(s) == 2 * (n * Pow2(s - 1));
      if j > 0 {
        ShiftedBits(n, s - 1, j - 1);
      }
    }
  }

  lemma OnesBits(lo: Index, hi: Index, k: Index)
    requires lo <= hi
    ensures BitAt(Ones(lo, hi), 63 - k) <==> lo <= k <= hi
  {
    ShiftedBits(Pow2(hi - lo + 1) - 1, 63 - hi, 63 - k);
    if 63 - hi <= 63 - k {
      AllOnes(hi - lo + 1, hi - k);
    }
  }

  lemma {:induction false} ComplementBits(n: nat, w: nat, j: nat)
    requires n < Pow2(w) && j < w
    ensures BitAt(Pow2(w) - 1 - n, j) <==> !BitAt(n, j)
  {
    if j > 0 {
      assert (Pow2(w) - 1 - n) / 2 == Pow2(w - 1) - 1 - n / 2;
      ComplementBits(n / 2, w - 1, j - 1);
    }
  }

  lemma LessByOne(p: nat, q: nat)
    requires p >= 1 && q >= 1
    ensures (p - 1) * q < p * q
  {
    assert (p - 1) * q == p * q - q;
  }

  lemma OnesBelow(lo: Index, hi: Index)
    requires lo <= hi
    ensures Ones(lo, hi) < Pow2(64)
  {
    hide Pow2;
    var w, s := hi - lo + 1, 63 - hi;
    PowersMultiply(w, s);
    PowersGrow(w + s, 64);
    LessByOne(Pow2(w), Pow2(s));
  }

  /** A lift-time mask fits the 64-bit literal it is printed as. */
  lemma LiftMaskBelow(mb: Index, me: Index)
    ensures LiftMask(mb, me) < Pow2(64)
  {
    hide Pow2, BitOr, Ones;
    if mb <= me {
      OnesBelow(mb, me);
    } else {
      OnesBelow(mb, 63);
      OnesBelow(0, me);
      OrBelow(Ones(mb, 63), Ones(0, me), 64);
    }
  }

  lemma LiftMaskBits(mb: Index, me: Index, k: Index)
    ensures BitAt(LiftMask(mb, me), 63 - k) <==> InMask(mb, me, k)
  {
    if mb <= me {
      OnesBits(mb, me, k);
    } else {
      OnesBits(mb, 63, k);
      OnesBits(0, me, k);
      OrBits(Ones(mb, 63), Ones(0, me), 63 - k);
    }
  }

  lemma MaskBits(mb: Index, me: Index, k: Index)
    ensures Mask64(mb, me)[k] <==> InMask(mb, me, k)
  {
  }

  /** For every mb and me, wrapping or not, the folded mask, the runtime mask and MASK agree in every bit. */
  lemma MasksAgree(mb: Index, me: Index)
    ensures Literal(LiftMask(mb, me)) == Mask64(mb, me)
    ensures forall k: Index :: Mask64(mb, me)[k] <==> InMask(mb, me, k)
  {
    forall k: Index
      ensures Literal(LiftMask(mb, me))[k] == Mask64(mb, me)[k] && (Mask64(mb, me)[k] <==> InMask(mb, me, k))
    {
      LiftMaskBits(mb, me, k);
      MaskBits(mb, me, k);
    }
  }

  // ----- rotations -----

  lemma RotlBits(v: Bits, n: Index, k: Index)
    ensures Rotl64(v, n)[k] == v[(k + n) % 64]
  {
  }

  lemma Rotl32Bits(v: Bits32, n: Word, k: Word)
    ensures Rotl32(v, n)[k] == v[(k + n) % 32]
  {
  }

  lemma DuplicatedBits(r: Bits32, k: Index)
    ensures Or(Shl(Widen(r), 32), Widen(r))[k] == r[k % 32]
  {
  }

  lemma TwiceBits(r: Bits32, k: Index)
    ensures (r + r)[k] == r[k % 32]
  {
  }

  lemma SameResidue(k: Index, n: Word)
    ensures (k % 32 + n) % 32 == (k + n) % 64 % 32
  {
  }

  lemma WordRotationBits(rs: Bits32, sh: Word, k: Index)
    ensures Rlwdup(rs, sh)[k] == (rs + rs)[(k + sh) % 64]
  {
    hide Rotl32, Or, Shl, Widen;
    DuplicatedBits(Rotl32(rs, sh), k);
    Rotl32Bits(rs, sh, k % 32);
    SameResidue(k, sh);
    TwiceBits(rs, (k + sh) % 64);
  }

  // ----- instructions -----

  lemma LiteralBits(mb: Index, me: Index, k: Index)
    ensures Literal(LiftMask(mb, me))[k] <==> InMask(mb, me, k)
  {
    hide LiftMask, BitAt, InMask;
    LiftMaskBits(mb, me, k);
  }

  lemma ComplementLiteral(mb: Index, me: Index, k: Index)
    ensures LiftMask(mb, me) < Pow2(64)
    ensures Literal(Complement(LiftMask(mb, me)))[k] <==> !InMask(mb, me, k)
  {
    hide Pow2, LiftMask, BitAt, InMask;
    LiftMaskBelow(mb, me);
    ComplementBits(LiftMask(mb, me), 64, 63 - k);
    LiftMaskBits(mb, me, k);
  }

  lemma AndBit(x: Bits, y: Bits, k: Index)
    ensures And(x, y)[k] <==> x[k] && y[k]
  {
  }

  lemma OrBit(x: Bits, y: Bits, k: Index)
    ensures Or(x, y)[k] <==> x[k] || y[k]
  {
  }

  lemma ExtractedWord(x: Bits, sh: Word, mb: Index, me: Index, k: Index)
    ensures And(Rlwdup(x[32..], sh), Literal(LiftMask(mb, me)))[k]
         <==> InMask(mb, me, k) && (x[32..] + x[32..])[(k + sh) % 64]
  {
    hide LiftMask, Rlwdup, InMask, And, Literal;
    WordRotationBits(x[32..], sh, k);
    LiteralBits(mb, me, k);
    AndBit(Rlwdup(x[32..], sh), Literal(LiftMask(mb, me)), k);
  }

  lemma KeptWord(a: Bits, mb: Index, me: Index, k: Index)
    ensures LiftMask(mb, me) < Pow2(64)
    ensures And(a, Literal(Complement(LiftMask(mb, me))))[k] <==> !InMask(mb, me, k) && a[k]
  {
    hide Pow2, LiftMask, InMask, And, Literal, Complement;
    ComplementLiteral(mb, me, k);
    AndBit(a, Literal(Complement(LiftMask(mb, me))), k);
  }

  lemma WordBit(i: Insn, g: Gprs, k: Index)
    requires IsWord(i)
    ensures Result(i, g)[k] <==> Specified(i, g, k)
  {
    hide Pow2, LiftMask, Rlwdup, InMask, Low5, Literal, Complement, And, Or, Number;
    if i.Rlwnm? {
      CountsAreRemainders(g[i.rb]);
    }
    ExtractedWord(g[i.rs], Amount(i, g), i.mb + 32, i.me + 32, k);
    if i.Rlwimi? {
      KeptWord(g[i.ra], i.mb + 32, i.me + 32, k);
      var m := LiftMask(i.mb + 32, i.me + 32);
      OrBit(And(Rlwdup(g[i.rs][32..], i.sh), Literal(m)), And(g[i.ra], Literal(Complement(m))), k);
    }
  }

  lemma DoublewordBit(i: Insn, g: Gprs, k: Index)
    requires !IsWord(i)
    ensures Result(i, g)[k] <==> Specified(i, g, k)
  {
    hide Mask64, Rotl64, InMask, Low6, Number;
    if i.Rldcl? || i.Rldcr? {
      CountsAreRemainders(g[i.rb]);
    }
    MaskBits(First(i), Last(i), k);
    RotlBits(g[i.rs], Amount(i, g), k);
  }

  /** Every rotate instruction, for all operands and fields: each bit of the result is the specified one, and
      no other register moves. */
  lemma RotateIsExact(i: Insn, g: Gprs, r: Reg, k: Index)
    ensures r == i.ra ==> (Exec(i, g)[r][k] <==> Specified(i, g, k))
    ensures r != i.ra ==> Exec(i, g)[r] == g[r]
  {
    hide Result, Specified;
    if IsWord(i) {
      WordBit(i, g, k);
    } else {
      DoublewordBit(i, g, k);
    }
  }

  /** An unwrapped word mask leaves a zero-extended word; a wrapped one lets the rotated copy through. */
  lemma WordMaskZeroExtends(i: Insn, g: Gprs, k: Index)
    requires i.Rlwinm? || i.Rlwnm?
    requires k < 32
    ensures Result(i, g)[k] <==> i.mb > i.me && Rotand(i, g)[(k + Amount(i, g)) % 64]
  {
    hide Result;
    WordBit(i, g, k);
  }
}
