/** Unaligned vector access: the lifted lvx, lvlx, lvrx, lvsl, lvsr and vperm, the stores stvlx and stvrx
    (tools/ppu_lifter.py), and `vm_write_bytes` (yakuza/shims.cpp), which serializes a store with every SPU-reserved
    128-byte line it touches. An effective address is 64 bits wide; the guest has 4 GB, addressed by the low half. */
module VectorAccess {
  import opened Basics
  import opened BigEndian

  const MEMORY := M32
  const LINE := 128

  type Address = U64
  type Memory = m: seq<Byte> | |m| == MEMORY witness seq(MEMORY, _ => 0)
  type Vector = v: seq<Byte> | |v| == 16 witness seq(16, _ => 0)
  type Lane = i: int | 0 <= i < 16

  function Add(ea: Address, n: nat): Address { (ea + n) % M64 }

  /** Byte i of the window at an address, which wraps at 4 GB. */
  function Slot(ea: Address, i: Lane): nat { (ea + i) % MEMORY }

  /** The quadword an address lies in: `(uint32_t)(ea & ~0xF)`. */
  function Base(ea: Address): (b: nat)
    ensures b % 16 == 0 && b + 16 <= MEMORY
  {
    (ea - ea % 16) % MEMORY
  }

  // ----- loads -----

  function Lvx(m: Memory, ea: Address): Vector { m[Base(ea)..Base(ea) + 16] }

  function LvlxByte(m: Memory, ea: Address, i: Lane): Byte {
    var sh := ea % 16;
    if sh + i < 16 then m[Base(ea) + sh + i] else 0
  }

  function LvrxByte(m: Memory, ea: Address, i: Lane): Byte {
    var sh := ea % 16;
    if i >= 16 - sh then m[Base(ea) + (i - (16 - sh))] else 0
  }

  function Lvlx(m: Memory, ea: Address): Vector { seq(16, (i: nat) requires i < 16 => LvlxByte(m, ea, i)) }

  function Lvrx(m: Memory, ea: Address): Vector { seq(16, (i: nat) requires i < 16 => LvrxByte(m, ea, i)) }

  function Lvsl(ea: Address): Vector { seq(16, (i: nat) requires i < 16 => ea % 16 + i) }

  function Lvsr(ea: Address): Vector { seq(16, (i: nat) requires i < 16 => 16 - ea % 16 + i) }

  function VpermByte(a: Vector, b: Vector, c: Vector, i: Lane): Byte {
    var sel := c[i] % 32;
    if sel < 16 then a[sel] else b[sel - 16]
  }

  function Vperm(a: Vector, b: Vector, c: Vector): Vector {
    seq(16, (i: nat) requires i < 16 => VpermByte(a, b, c, i))
  }

  function OrByte(x: Byte, y: Byte): Byte {
    OrBelow(x, y, 8);
    assert Pow2(4) == 16 && Pow2(8) == 256;
    BitOr(x, y)
  }

  function Vor(a: Vector, b: Vector): Vector { seq(16, (i: nat) requires i < 16 => OrByte(a[i], b[i])) }

  /** The sixteen bytes at an address. */
  function Window(m: Memory, ea: Address): Vector { seq(16, (i: nat) requires i < 16 => m[Slot(ea, i)]) }

  lemma ModPlus(x: nat, k: nat)
    requires x % MEMORY + k < MEMORY
    ensures (x + k) % MEMORY == x % MEMORY + k
  {
  }

  lemma LowHalf(x: nat)
    ensures x % M64 % MEMORY == x % MEMORY
  {
  }

  lemma LowDigit(x: nat)
    ensures x % M64 % 16 == x % 16
  {
  }

  lemma AlignedPlus(x: nat, k: nat)
    requires x % 16 == 0 && k < 16
    ensures (x + k) % 16 == k
  {
  }

  lemma AlignDown(ea: nat)
    ensures (ea - ea % 16) % 16 == 0 && (ea - ea % 16 + 16) % 16 == 0
  {
  }

  lemma Quadword(ea: Address)
    ensures Base(ea) + ea % 16 == ea % MEMORY
  {
    var q := ea % 16;
    AlignDown(ea);
    Aligned(ea - q);
    ModPlus(ea - q, q);
  }

  lemma NextOffset(ea: Address)
    ensures Add(ea, 16) % 16 == ea % 16
    ensures ea % 16 != 0 ==> Add(ea, 15) % 16 == ea % 16 - 1
  {
    var q := ea % 16;
    LowDigit(ea + 16);
    LowDigit(ea + 15);
    AlignDown(ea);
    var x := ea - q + 16;
    AlignedPlus(x, q);
    assert ea + 16 == x + q;
    if q != 0 {
      AlignedPlus(x, q - 1);
      assert ea + 15 == x + (q - 1);
    }
  }

  lemma NextBase(ea: Address, off: nat)
    requires off == 16 || (off == 15 && ea % 16 != 0)
    ensures Base(Add(ea, off)) == (ea - ea % 16 + 16) % MEMORY
  {
    hide Base, Add;
    Quadword(Add(ea, off));
    NextOffset(ea);
    Added(ea, off);
    AlignDown(ea);
    var x := ea - ea % 16 + 16;
    var q := Add(ea, off) % 16;
    assert x + q == ea + off;
    Aligned(x);
    ModPlus(x, q);
  }

  lemma Added(ea: Address, off: nat)
    ensures Add(ea, off) % MEMORY == (ea + off) % MEMORY
  {
    LowHalf(ea + off);
  }

  lemma Aligned(x: nat)
    requires x % 16 == 0
    ensures x % MEMORY + 16 <= MEMORY
  {
  }

  /** Which quadword byte i of the window lies in, and where. */
  lemma WindowByte(ea: Address, i: Lane)
    ensures ea % 16 + i < 16 ==> Base(ea) + ea % 16 + i == Slot(ea, i)
    ensures ea % 16 + i >= 16 ==> Base(Add(ea, 16)) + (ea % 16 + i - 16) == Slot(ea, i)
    ensures ea % 16 + i >= 16 ==> Base(Add(ea, 15)) == Base(Add(ea, 16))
    ensures Add(ea, 16) % 16 == ea % 16
  {
    hide Base, Add;
    NextOffset(ea);
    var q := ea % 16;
    if q + i < 16 {
      Quadword(ea);
      ModPlus(ea, i);
    } else {
      NextBase(ea, 16);
      NextBase(ea, 15);
      AlignDown(ea);
      Aligned(ea - q + 16);
      ModPlus(ea - q + 16, q + i - 16);
    }
  }

  lemma OrWithZero(x: Byte)
    ensures OrByte(x, 0) == x && OrByte(0, x) == x
  {
  }

  lemma MergedByte(m: Memory, ea: Address, i: Lane)
    ensures OrByte(LvlxByte(m, ea, i), LvrxByte(m, Add(ea, 16), i)) == m[Slot(ea, i)]
  {
    hide Base, Add, OrByte;
    WindowByte(ea, i);
    OrWithZero(m[Slot(ea, i)]);
  }

  /** Each of the two loads alone: its part of the sixteen bytes, and zeros elsewhere. */
  lemma LoadsFillWithZeros(m: Memory, ea: Address, i: Lane)
    ensures Lvlx(m, ea)[i] == if ea % 16 + i < 16 then Window(m, ea)[i] else 0
    ensures Lvrx(m, Add(ea, 16))[i] == if ea % 16 + i < 16 then 0 else Window(m, ea)[i]
  {
    hide Base, Add;
    WindowByte(ea, i);
  }

  /** vperm takes sixteen bytes of the two operands in a row: under lvsl from the address's offset on, under lvsr
      from sixteen minus that. */
  lemma PermuteTakesARow(a: Vector, b: Vector, ea: Address, i: Lane)
    ensures Vperm(a, b, Lvsl(ea))[i] == (a + b)[ea % 16 + i]
    ensures Vperm(a, b, Lvsr(ea))[i] == (a + b)[16 - ea % 16 + i]
  {
  }

  /** lvlx(ea) | lvrx(ea + 16) is the unaligned quadword, for every address. */
  lemma MergeLoadsTheWindow(m: Memory, ea: Address)
    ensures Vor(Lvlx(m, ea), Lvrx(m, Add(ea, 16))) == Window(m, ea)
  {
    hide LvlxByte, LvrxByte, OrByte;
    forall i: Lane
      ensures OrByte(Lvlx(m, ea)[i], Lvrx(m, Add(ea, 16))[i]) == Window(m, ea)[i]
    {
      MergedByte(m, ea, i);
    }
  }

  lemma PermutedByte(m: Memory, ea: Address, off: nat, i: Lane)
    requires off == 15 || off == 16
    ensures VpermByte(Lvx(m, ea), Lvx(m, Add(ea, off)), Lvsl(ea), i) == m[Slot(ea, i)]
  {
    hide Base, Add;
    WindowByte(ea, i);
  }

  /** So does the classic vperm of two aligned loads under lvsl(ea), the second at ea + 15 or ea + 16. */
  lemma PermuteLoadsTheWindow(m: Memory, ea: Address, off: nat)
    requires off == 15 || off == 16
    ensures Vperm(Lvx(m, ea), Lvx(m, Add(ea, off)), Lvsl(ea)) == Window(m, ea)
  {
    hide VpermByte, Lvx, Lvsl;
    forall i: Lane
      ensures Vperm(Lvx(m, ea), Lvx(m, Add(ea, off)), Lvsl(ea))[i] == Window(m, ea)[i]
    {
      PermutedByte(m, ea, off, i);
    }
  }

  lemma RotatedRight(v: Vector, ea: Address, k: Lane)
    ensures VpermByte(v, v, Lvsr(ea), k) == v[if k >= ea % 16 then k - ea % 16 else k + 16 - ea % 16]
  {
  }

  lemma RotatedLeft(v: Vector, ea: Address, k: Lane)
    ensures VpermByte(v, v, Lvsl(ea), k) == v[if k + ea % 16 < 16 then k + ea % 16 else k + ea % 16 - 16]
  {
  }

  /** lvsr rotates a vector into store position and lvsl rotates it back. */
  lemma RotationsCancel(v: Vector, ea: Address)
    ensures var r := Vperm(v, v, Lvsr(ea));
            Vperm(r, r, Lvsl(ea)) == v
  {
    hide VpermByte, Lvsl, Lvsr;
    var r := Vperm(v, v, Lvsr(ea));
    forall i: Lane
      ensures Vperm(r, r, Lvsl(ea))[i] == v[i]
    {
      RotatedLeft(r, ea, i);
      RotatedRight(v, ea, if i + ea % 16 < 16 then i + ea % 16 else i + ea % 16 - 16);
    }
  }

  // ----- stores -----

  function Write(m: Memory, first: nat, bytes: seq<Byte>): Memory
    requires first + |bytes| <= MEMORY
  {
    m[..first] + bytes + m[first + |bytes|..]
  }

  datatype Event = Lock | Unlock | Copy(first: nat, size: nat) | Notify(line: nat) | Watchers(first: nat, size: nat)

  function LineOf(a: nat): nat { a - a % LINE }

  /** The 128-byte line an address lies in. */
  lemma LineOfMeans(a: nat)
    ensures LineOf(a) % 128 == 0 && LineOf(a) <= a < LineOf(a) + 128
  {
  }

  /** The reserved lines from one line up to another, in order. */
  function Lines(reserved: set<nat>, first: nat, stop: int): seq<nat>
    decreases stop
  {
    if stop - LINE < first then []
    else Lines(reserved, first, stop - LINE) + (if stop - LINE in reserved then [stop - LINE] else [])
  }

  function Overlapped(reserved: set<nat>, first: nat, size: nat): seq<nat>
    requires size > 0
  {
    Lines(reserved, LineOf(first), LineOf(first + size - 1) + LINE)
  }

  function Notices(lines: seq<nat>): seq<Event> {
    if lines == [] then [] else Notices(lines[..|lines| - 1]) + [Notify(lines[|lines| - 1])]
  }

  /** What a store does, in order: under the lock, and with notices, only if it touches a reserved line. */
  function Trace(reserved: set<nat>, first: nat, size: nat): seq<Event>
    requires size > 0
  {
    Around(Overlapped(reserved, first, size), first, size)
  }

  function Around(lines: seq<nat>, first: nat, size: nat): seq<Event> {
    (if lines == [] then [Copy(first, size)] else [Lock, Copy(first, size)] + Notices(lines) + [Unlock])
      + [Watchers(first, size)]
  }

  lemma Regroup(t: seq<Event>, n: seq<Event>, first: nat, size: nat)
    ensures t + [Lock] + [Copy(first, size)] + n + [Unlock] + [Watchers(first, size)]
         == t + ([Lock, Copy(first, size)] + n + [Unlock] + [Watchers(first, size)])
  {
  }

  predicate Refused(first: nat, size: nat) { size == 0 || first + size > MEMORY }

  class Vm {
    const mem: array<Byte>
    var reserved: set<nat>
    var trace: seq<Event>

    ghost predicate Valid()
      reads this
    {
      mem.Length == MEMORY
    }

    ghost function Contents(): Memory
      reads this, mem
      requires Valid()
    {
      mem[..]
    }

    constructor ()
      ensures Valid() && fresh(mem) && reserved == {} && trace == []
      ensures Contents() == seq(MEMORY, _ => 0)
    {
      mem := new Byte[MEMORY](_ => 0);
      reserved := {};
      trace := [];
    }

    method CopyIn(first: nat, src: seq<Byte>)
      requires Valid() && first + |src| <= MEMORY
      modifies mem, this`trace
      ensures Contents() == Write(old(Contents()), first, src)
      ensures trace == old(trace) + [Copy(first, |src|)]
    {
      forall k | 0 <= k < |src| {
        mem[first + k] := src[k];
      }
      trace := trace + [Copy(first, |src|)];
    }

    /** The first line loop: is any line of the range reserved? */
    method AnyReserved(firstLine: nat, lastLine: nat) returns (any: bool)
      requires firstLine <= lastLine && firstLine % LINE == 0 && lastLine % LINE == 0
      ensures any <==> Lines(reserved, firstLine, lastLine + LINE) != []
    {
      any := false;
      var line := firstLine;
      while true
        invariant firstLine <= line <= lastLine && line % LINE == 0
        invariant any <==> Lines(reserved, firstLine, line) != []
        decreases lastLine - line
      {
        if line in reserved { any := true; }
        if line == lastLine { break; }
        line := line + LINE;
      }
    }

    /** The second: tell the coherence set about each reserved line. */
    method NotifyReserved(firstLine: nat, lastLine: nat)
      requires firstLine <= lastLine && firstLine % LINE == 0 && lastLine % LINE == 0
      modifies this`trace
      ensures trace == old(trace) + Notices(Lines(reserved, firstLine, lastLine + LINE))
    {
      hide Notices, Lines;
      NoNoticesYet(reserved, firstLine);
      var line := firstLine;
      while true
        invariant firstLine <= line <= lastLine && line % LINE == 0
        invariant trace == old(trace) + Notices(Lines(reserved, firstLine, line))
        decreases lastLine - line
      {
        NoticesGrow(reserved, firstLine, line);
        if line in reserved { trace := trace + [Notify(line)]; }
        if line == lastLine { break; }
        line := line + LINE;
      }
    }

    /** vm_write_bytes: an empty store or one running past 4 GB does nothing at all. */
    method WriteBytes(addr: Address, src: seq<Byte>)
      requires Valid()
      modifies mem, this`trace
      ensures Valid()
      ensures Refused(addr % MEMORY, |src|) ==> Contents() == old(Contents()) && trace == old(trace)
      ensures !Refused(addr % MEMORY, |src|) ==>
                Contents() == Write(old(Contents()), addr % MEMORY, src)
                && trace == old(trace) + Trace(reserved, addr % MEMORY, |src|)
    {
      if |src| == 0 { return; }
      var first := addr % MEMORY;
      var end := first + |src|;
      if end > MEMORY { return; }
      var firstLine := LineOf(first);
      var lastLine := LineOf(end - 1);
      LinesOrdered(first, end - 1);
      hide Lines, LineOf, Notices, Write;
      var any := AnyReserved(firstLine, lastLine);
      Perform(first, src, any, firstLine, lastLine);
    }

    /** The store itself, and what surrounds it. */
    method Perform(first: nat, src: seq<Byte>, any: bool, firstLine: nat, lastLine: nat)
      requires Valid() && |src| > 0 && first + |src| <= MEMORY
      requires firstLine <= lastLine && firstLine % LINE == 0 && lastLine % LINE == 0
      requires any <==> Lines(reserved, firstLine, lastLine + LINE) != []
      modifies mem, this`trace
      ensures Valid()
      ensures Contents() == Write(old(Contents()), first, src)
      ensures trace == old(trace) + Around(Lines(reserved, firstLine, lastLine + LINE), first, |src|)
    {
      hide Lines, Notices, Write;
      ghost var n := Notices(Lines(reserved, firstLine, lastLine + LINE));
      if any { trace := trace + [Lock]; }
      CopyIn(first, src);
      if any {
        NotifyReserved(firstLine, lastLine);
        trace := trace + [Unlock];
      }
      trace := trace + [Watchers(first, |src|)];
      if any {
        Regroup(old(trace), n, first, |src|);
      } else {
        assert trace == old(trace) + ([Copy(first, |src|)] + [Watchers(first, |src|)]);
      }
    }

    method Stvlx(ea: Address, v: Vector)
      requires Valid()
      modifies mem, this`trace
      ensures Valid()
      ensures Contents() == StoreLeft(old(Contents()), ea, v)
      ensures trace == old(trace) + LeftTrace(reserved, ea)
    {
      var sh := ea % 16;
      LeftFits(ea);
      WriteBytes(ea, v[..16 - sh]);
    }

    method Stvrx(ea: Address, v: Vector)
      requires Valid()
      modifies mem, this`trace
      ensures Valid()
      ensures Contents() == StoreRight(old(Contents()), ea, v)
      ensures trace == old(trace) + RightTrace(reserved, ea)
    {
      var sh := ea % 16;
      ghost var was := Contents();
      assert Write(was, Base(ea), []) == was;
      WriteBytes(ea - ea % 16, v[16 - sh..]);
    }
  }

  lemma NoNoticesYet(reserved: set<nat>, first: nat)
    ensures Notices(Lines(reserved, first, first)) == []
  {
  }

  lemma NoticesGrow(reserved: set<nat>, first: nat, line: nat)
    requires first <= line
    ensures Notices(Lines(reserved, first, line + LINE))
         == Notices(Lines(reserved, first, line)) + (if line in reserved then [Notify(line)] else [])
  {
    if line in reserved {
      var ls := Lines(reserved, first, line);
      assert (ls + [line])[..|ls|] == ls;
    } else {
      assert Lines(reserved, first, line + LINE) == Lines(reserved, first, line);
    }
  }

  lemma LeftFits(ea: Address)
    ensures ea % MEMORY + (16 - ea % 16) <= MEMORY
  {
    Quadword(ea);
  }

  /** stvlx: the leading bytes up to the end of the quadword. */
  function StoreLeft(m: Memory, ea: Address, v: Vector): Memory {
    LeftFits(ea);
    Write(m, ea % MEMORY, v[..16 - ea % 16])
  }

  /** stvrx: the trailing bytes, from the start of the quadword; none for an aligned address. */
  function StoreRight(m: Memory, ea: Address, v: Vector): Memory { Write(m, Base(ea), v[16 - ea % 16..]) }

  function LeftTrace(reserved: set<nat>, ea: Address): seq<Event> { Trace(reserved, ea % MEMORY, 16 - ea % 16) }

  function RightTrace(reserved: set<nat>, ea: Address): seq<Event> {
    if ea % 16 == 0 then [] else Trace(reserved, Base(ea), ea % 16)
  }

  lemma WrittenByte(m: Memory, first: nat, bytes: seq<Byte>, a: nat)
    requires first + |bytes| <= MEMORY && a < MEMORY
    ensures Write(m, first, bytes)[a] == if first <= a < first + |bytes| then bytes[a - first] else m[a]
  {
  }

  /** Each half store alone: its bytes of the quadword and no others. */
  lemma HalfStores(m: Memory, ea: Address, v: Vector, a: nat)
    requires a < MEMORY
    ensures StoreLeft(m, ea, v)[a]
         == if Base(ea) + ea % 16 <= a < Base(ea) + 16 then v[a - Base(ea) - ea % 16] else m[a]
    ensures StoreRight(m, ea, v)[a]
         == if Base(ea) <= a < Base(ea) + ea % 16 then v[16 - ea % 16 + (a - Base(ea))] else m[a]
  {
    hide Base, Write;
    Quadword(ea);
    LeftFits(ea);
    WrittenByte(m, ea % MEMORY, v[..16 - ea % 16], a);
    WrittenByte(m, Base(ea), v[16 - ea % 16..], a);
  }

  function StorePair(m: Memory, ea: Address, v: Vector): Memory { StoreRight(StoreLeft(m, ea, v), Add(ea, 16), v) }

  /** Both writes, seen at one address. */
  lemma PairWritten(m: Memory, ea: Address, v: Vector, a: nat)
    requires a < MEMORY
    ensures var sh, left, right := ea % 16, ea % MEMORY, Base(Add(ea, 16));
            StorePair(m, ea, v)[a] == if right <= a < right + sh then v[a - right + 16 - sh]
                                      else if left <= a < left + 16 - sh then v[a - left]
                                      else m[a]
  {
    hide Add, Base, Write;
    NextOffset(ea);
    LeftFits(ea);
    WrittenByte(m, ea % MEMORY, v[..16 - ea % 16], a);
    WrittenByte(StoreLeft(m, ea, v), Base(Add(ea, 16)), v[16 - ea % 16..], a);
  }

  /** Byte k of the guest after the pair. */
  lemma PairByte(m: Memory, ea: Address, v: Vector, i: Lane)
    ensures StorePair(m, ea, v)[Slot(ea, i)] == v[i]
  {
    hide Add, Base, Slot, StorePair;
    WindowByte(ea, i);
    LeftFits(ea);
    PairApart(ea);
    Quadword(ea);
    PairWritten(m, ea, v, Slot(ea, i));
  }

  /** The two parts do not touch each other. */
  lemma PairApart(ea: Address)
    ensures var sh, right := ea % 16, Base(Add(ea, 16));
            right + sh <= MEMORY && (ea % MEMORY + 16 - sh <= right || right + sh <= ea % MEMORY)
    ensures Add(ea, 16) % 16 == ea % 16
  {
    hide Base, Add;
    NextBase(ea, 16);
    NextOffset(ea);
    Quadword(ea);
  }

  predicate InWindow(ea: Address, a: nat) { exists i: Lane :: a == Slot(ea, i) }

  lemma OutsideWindow(ea: Address, a: nat)
    requires a < MEMORY
    requires ea % MEMORY <= a < ea % MEMORY + 16 - ea % 16 || Base(Add(ea, 16)) <= a < Base(Add(ea, 16)) + ea % 16
    ensures InWindow(ea, a)
  {
    hide InWindow;
    if ea % MEMORY <= a < ea % MEMORY + 16 - ea % 16 {
      InWindowAt(ea, a, a - ea % MEMORY);
    } else {
      var i := a - Base(Add(ea, 16)) + 16 - ea % 16;
      WindowByte(ea, i);
      InWindowAt(ea, a, i);
    }
  }

  lemma InWindowAt(ea: Address, a: nat, i: Lane)
    requires a == Slot(ea, i)
    ensures InWindow(ea, a)
  {
  }

  lemma PairKeepsOthers(m: Memory, ea: Address, v: Vector, a: nat)
    requires a < MEMORY && !InWindow(ea, a)
    ensures StorePair(m, ea, v)[a] == m[a]
  {
    hide Base, Add, InWindow, StorePair;
    PairWritten(m, ea, v, a);
    if ea % MEMORY <= a < ea % MEMORY + 16 - ea % 16 || Base(Add(ea, 16)) <= a < Base(Add(ea, 16)) + ea % 16 {
      OutsideWindow(ea, a);
    }
  }

  /** stvlx(ea) then stvrx(ea + 16) changes exactly the sixteen bytes of the window, and every unaligned load
      of them gives the vector back. */
  lemma PairStoresTheWindow(m: Memory, ea: Address, v: Vector)
    ensures var n := StorePair(m, ea, v);
            Window(n, ea) == v
            && (forall a: nat :: a < MEMORY && !InWindow(ea, a) ==> n[a] == m[a])
            && Vor(Lvlx(n, ea), Lvrx(n, Add(ea, 16))) == v
            && Vperm(Lvx(n, ea), Lvx(n, Add(ea, 16)), Lvsl(ea)) == v
  {
    hide StorePair, Add, InWindow, Vor, Vperm, Lvx, Lvlx, Lvrx, Lvsl;
    var n := StorePair(m, ea, v);
    forall i: Lane
      ensures Window(n, ea)[i] == v[i]
    {
      PairByte(m, ea, v, i);
    }
    assert Window(n, ea) == v;
    forall a: nat | a < MEMORY && !InWindow(ea, a)
      ensures n[a] == m[a]
    {
      PairKeepsOthers(m, ea, v, a);
    }
    MergeLoadsTheWindow(n, ea);
    PermuteLoadsTheWindow(n, ea, 16);
  }

  // ----- notices -----

  lemma {:induction false} LinesMeaning(reserved: set<nat>, first: nat, stop: nat, line: nat)
    requires first % LINE == 0 && stop % LINE == 0
    ensures line in Lines(reserved, first, stop) <==> line in reserved && line % LINE == 0 && first <= line < stop
    decreases stop
  {
    if stop - LINE >= first {
      LinesMeaning(reserved, first, stop - LINE, line);
    }
  }

  lemma {:induction false} LinesAscend(reserved: set<nat>, first: nat, stop: nat, i: nat, j: nat)
    requires first % LINE == 0 && stop % LINE == 0
    requires i < j < |Lines(reserved, first, stop)|
    ensures Lines(reserved, first, stop)[i] < Lines(reserved, first, stop)[j]
    decreases stop
  {
    var ls := Lines(reserved, first, stop - LINE);
    if j < |ls| {
      LinesAscend(reserved, first, stop - LINE, i, j);
    } else {
      LinesMeaning(reserved, first, stop - LINE, ls[i]);
    }
  }

  predicate Touches(first: nat, size: nat, line: nat) {
    exists a: nat :: first <= a < first + size && LineOf(a) == line
  }

  lemma TouchesBetween(first: nat, size: nat, line: nat)
    requires size > 0
    ensures Touches(first, size, line) <==> line % LINE == 0 && LineOf(first) <= line <= LineOf(first + size - 1)
  {
    if line % LINE == 0 && LineOf(first) <= line <= LineOf(first + size - 1) {
      var a := if line <= first then first else line;
      assert LineOf(a) == line;
    }
  }

  lemma {:induction false} NoticesMeaning(lines: seq<nat>, line: nat)
    ensures Notify(line) in Notices(lines) <==> line in lines
  {
    if lines != [] {
      NoticesMeaning(lines[..|lines| - 1], line);
      assert lines == lines[..|lines| - 1] + [lines[|lines| - 1]];
    }
  }

  lemma {:induction false} NoticesInOrder(lines: seq<nat>)
    ensures |Notices(lines)| == |lines| && forall i :: 0 <= i < |lines| ==> Notices(lines)[i] == Notify(lines[i])
  {
    if lines != [] {
      NoticesInOrder(lines[..|lines| - 1]);
    }
  }

  /** The order of a store that touches a reserved line: the lock, the copy, one notice a line, the unlock, the
      watchers. Any other store copies and tells the watchers, and takes no lock. */
  lemma StoreIsBracketed(reserved: set<nat>, first: nat, size: nat)
    requires size > 0
    ensures var t := Trace(reserved, first, size);
            var last := |t| - 1;
            if exists l: nat :: l in reserved && Touches(first, size, l) then
              && last >= 4 && t[0] == Lock && t[1] == Copy(first, size)
              && t[last - 1] == Unlock && t[last] == Watchers(first, size)
              && forall i :: 2 <= i < last - 1 ==>
                   t[i].Notify? && t[i].line in reserved && Touches(first, size, t[i].line)
            else
              t == [Copy(first, size), Watchers(first, size)]
  {
    hide Touches, Lines, LineOf, Notices;
    var lines := Overlapped(reserved, first, size);
    NoticesInOrder(lines);
    forall l: nat
      ensures l in lines <==> l in reserved && Touches(first, size, l)
    {
      OverlappedMeaning(reserved, first, size, l);
    }
    if lines != [] {
      assert lines[0] in lines;
      var t := Trace(reserved, first, size);
      forall i | 2 <= i < |t| - 2
        ensures t[i].Notify? && t[i].line in lines
      {
        assert t[i] == Notices(lines)[i - 2];
      }
    }
  }

  /** A store notifies exactly the reserved lines that hold one of its bytes, each once and in order, and
      holds the lock around the copy and the notices exactly when there is such a line. */
  lemma StoreNotifiesExactly(reserved: set<nat>, first: nat, size: nat, line: nat)
    requires size > 0
    ensures Notify(line) in Trace(reserved, first, size) <==> line in reserved && Touches(first, size, line)
    ensures Lock in Trace(reserved, first, size) <==> exists l: nat :: l in reserved && Touches(first, size, l)
    ensures forall i: nat, j: nat :: i < j < |Overlapped(reserved, first, size)| ==>
              Overlapped(reserved, first, size)[i] < Overlapped(reserved, first, size)[j]
  {
    hide Touches, Notices, Lines, LineOf;
    var lines := Overlapped(reserved, first, size);
    OverlappedMeaning(reserved, first, size, line);
    NoticesMeaning(lines, line);
    NoLockInNotices(lines);
    if lines != [] {
      OverlappedMeaning(reserved, first, size, lines[0]);
    }
    if exists l: nat :: l in reserved && Touches(first, size, l) {
      var l: nat :| l in reserved && Touches(first, size, l);
      OverlappedMeaning(reserved, first, size, l);
    }
    forall i: nat, j: nat | i < j < |lines|
      ensures lines[i] < lines[j]
    {
      LineAligned(first);
      LineAligned(first + size - 1);
      LinesAscend(reserved, LineOf(first), LineOf(first + size - 1) + LINE, i, j);
    }
  }

  lemma LinesOrdered(a: nat, b: nat)
    requires a <= b
    ensures LineOf(a) <= LineOf(b) && LineOf(a) % LINE == 0 && LineOf(b) % LINE == 0
  {
  }

  lemma LineAligned(a: nat)
    ensures LineOf(a) % LINE == 0 && (LineOf(a) + LINE) % LINE == 0
  {
  }

  lemma OverlappedMeaning(reserved: set<nat>, first: nat, size: nat, line: nat)
    requires size > 0
    ensures line in Overlapped(reserved, first, size) <==> line in reserved && Touches(first, size, line)
  {
    hide Touches, Lines;
    LinesMeaning(reserved, LineOf(first), LineOf(first + size - 1) + LINE, line);
    TouchesBetween(first, size, line);
  }

  lemma {:induction false} NoLockInNotices(lines: seq<nat>)
    ensures Lock !in Notices(lines)
  {
    if lines != [] {
      NoLockInNotices(lines[..|lines| - 1]);
    }
  }

  /** The pair of stores notifies exactly the reserved lines that hold a byte of the window. */
  lemma PairNotifiesExactly(reserved: set<nat>, ea: Address, line: nat)
    ensures Notify(line) in LeftTrace(reserved, ea) + RightTrace(reserved, Add(ea, 16))
       <==> line in reserved && WindowTouches(ea, line)
  {
    hide Trace, Touches, Base, Add, LineOf;
    PairApart(ea);
    StoreNotifiesExactly(reserved, ea % MEMORY, 16 - ea % 16, line);
    if ea % 16 != 0 {
      StoreNotifiesExactly(reserved, Base(Add(ea, 16)), ea % 16, line);
    }
    PairTouches(ea, line);
    NothingTouched(Base(Add(ea, 16)), line);
    InEither(LeftTrace(reserved, ea), RightTrace(reserved, Add(ea, 16)), Notify(line));
  }

  lemma NothingTouched(first: nat, line: nat)
    ensures !Touches(first, 0, line)
  {
  }

  lemma InEither(s: seq<Event>, t: seq<Event>, e: Event)
    ensures e in s + t <==> e in s || e in t
  {
  }

  predicate WindowTouches(ea: Address, line: nat) { exists i: Lane :: LineOf(Slot(ea, i)) == line }

  lemma PairTouches(ea: Address, line: nat)
    ensures WindowTouches(ea, line)
       <==> Touches(ea % MEMORY, 16 - ea % 16, line) || Touches(Base(Add(ea, 16)), ea % 16, line)
  {
    hide Base, Add, LineOf;
    if WindowTouches(ea, line) {
      var i: Lane :| LineOf(Slot(ea, i)) == line;
      WindowByte(ea, i);
      LeftAddress(ea, i);
    }
    if Touches(ea % MEMORY, 16 - ea % 16, line) {
      var a: nat :| ea % MEMORY <= a < ea % MEMORY + (16 - ea % 16) && LineOf(a) == line;
      LeftAddress(ea, a - ea % MEMORY);
    }
    if Touches(Base(Add(ea, 16)), ea % 16, line) {
      var a: nat :| Base(Add(ea, 16)) <= a < Base(Add(ea, 16)) + ea % 16 && LineOf(a) == line;
      var i := a - Base(Add(ea, 16)) + 16 - ea % 16;
      WindowByte(ea, i);
      assert LineOf(Slot(ea, i)) == line;
    }
  }

  lemma LeftAddress(ea: Address, i: Lane)
    ensures ea % 16 + i < 16 ==> Slot(ea, i) == ea % MEMORY + i
  {
    LeftFits(ea);
    if ea % 16 + i < 16 {
      ModPlus(ea, i);
    }
  }
}
