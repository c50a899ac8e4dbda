/** The embedded-image scanner (tools/extract_spu_images.py): the size of an image from its own tables, and a scan
    that finds exactly the images a buffer was built from. */
module SpuElfScan {
  import opened BigEndian
  import opened StructPack
  import opened SpuElf
  import opened SpuElfReader
  import opened SpuElfRoundTrip

  /** parse_spu_elf_size: not an image, a size, or an exception out of the scan. */
  datatype Sized = NoImage | Size(n: nat) | Raised

  function Max(a: nat, b: nat): nat { if a >= b then a else b }

  /** A program header's type, file offset and file size. */
  datatype Extent = Extent(kind: nat, offset: nat, size: nat)

  /** What the size is computed from: where both tables lie, and the size and number of their entries. */
  datatype Tables = Tables(phs: nat, shs: nat, phSize: nat, phNum: nat, shSize: nat, shNum: nat)

  function TablesEnd(t: Tables): nat { Max(t.shs + t.shNum * t.shSize, t.phs + t.phNum * t.phSize) }

  /** The table fields of a header of either class, taken from the header's own bytes. */
  function HeaderTables(hdr: Bytes, wide: bool): Result<Tables> {
    var phs := if wide then Field(hdr, 0x20, 8) else Field(hdr, 0x1C, 4);
    var shs := if wide then Field(hdr, 0x28, 8) else Field(hdr, 0x20, 4);
    var phSize := Field(hdr, if wide then 0x36 else 0x2A, 2);
    var phNum := Field(hdr, if wide then 0x38 else 0x2C, 2);
    var shSize := Field(hdr, if wide then 0x3A else 0x2E, 2);
    var shNum := Field(hdr, if wide then 0x3C else 0x30, 2);
    if phs.Err? || shs.Err? || phSize.Err? || phNum.Err? || shSize.Err? || shNum.Err? then Err
    else Ok(Tables(phs.value, shs.value, phSize.value, phNum.value, shSize.value, shNum.value))
  }

  /** A program header of either class, taken from the whole buffer. */
  function ExtentAt(buf: Bytes, base: nat, wide: bool): Result<Extent> {
    var kind := Field(buf, base, 4);
    var offset := if wide then Field(buf, base + 8, 8) else Field(buf, base + 4, 4);
    var size := if wide then Field(buf, base + 32, 8) else Field(buf, base + 16, 4);
    if kind.Err? || offset.Err? || size.Err? then Err else Ok(Extent(kind.value, offset.value, size.value))
  }

  function Entry(table: nat, size: nat, i: nat): nat { table + i * size }

  /** The end of the loadable segments among the first n program headers, or an exception. */
  function SegmentsEnd(buf: Bytes, wide: bool, phs: nat, size: nat, n: nat, end: nat): Result<nat>
    decreases n
  {
    if n == 0 then Ok(end)
    else
      match SegmentsEnd(buf, wide, phs, size, n - 1, end)
      case Err => Err
      case Ok(before) =>
        match ExtentAt(buf, Entry(phs, size, n - 1), wide)
        case Err => Err
        case Ok(x) => if x.kind == PT_LOAD then Ok(Max(before, x.offset + x.size)) else Ok(before)
  }

  /** The 52 bytes of a big-endian SPU header of any class. */
  predicate IsSpuHeader(buf: Bytes, off: nat) {
    off + 0x34 <= |buf| && buf[off..off + 4] == MAGIC && buf[off + 5] == 2 && ReadU16(buf, off + 0x12) == EM_SPU
  }

  function SpuElfSize(buf: Bytes, off: nat): Sized {
    if !IsSpuHeader(buf, off) then NoImage
    else
      var wide := buf[off + 4] != 1;
      match HeaderTables(buf[off..off + 0x34], wide)
      case Err => Raised
      case Ok(t) =>
        if off + t.phs + t.phNum * t.phSize > |buf| then Size(TablesEnd(t))
        else
          match SegmentsEnd(buf, wide, off + t.phs, t.phSize, t.phNum, TablesEnd(t))
          case Err => Raised
          case Ok(n) => Size(n)
  }

  method ParseSize(buf: Bytes, off: nat) returns (r: Sized)
    ensures r == SpuElfSize(buf, off)
  {
    if off + 0x34 > |buf| { return NoImage; }
    var hdr := buf[off..off + 0x34];
    if buf[off..off + 4] != MAGIC { return NoImage; }
    if hdr[5] != 2 { return NoImage; }
    if ReadU16(buf, off + 0x12) != EM_SPU { return NoImage; }
    var wide := hdr[4] != 1;
    var header := HeaderTables(hdr, wide);
    if header.Err? { return Raised; }
    var t := header.value;
    var end := TablesEnd(t);
    var phs := off + t.phs;
    if phs + t.phNum * t.phSize <= |buf| {
      var segments := WalkSegments(buf, wide, phs, t.phSize, t.phNum, end);
      if segments.Err? { return Raised; }
      end := segments.value;
    }
    return Size(end);
  }

  method WalkSegments(buf: Bytes, wide: bool, phs: nat, size: nat, n: nat, start: nat) returns (r: Result<nat>)
    ensures r == SegmentsEnd(buf, wide, phs, size, n, start)
  {
    hide ExtentAt;
    var end := start;
    var i := 0;
    while i < n
      invariant 0 <= i <= n
      invariant SegmentsEnd(buf, wide, phs, size, i, start) == Ok(end)
    {
      var extent := ExtentAt(buf, Entry(phs, size, i), wide);
      if extent.Err? {
        RaiseStays(buf, wide, phs, size, i + 1, n, start);
        return Err;
      }
      if extent.value.kind == PT_LOAD {
        end := Max(end, extent.value.offset + extent.value.size);
      }
      i := i + 1;
    }
    return Ok(end);
  }

  lemma {:induction false} RaiseStays(buf: Bytes, wide: bool, phs: nat, size: nat, i: nat, n: nat, start: nat)
    requires i <= n && SegmentsEnd(buf, wide, phs, size, i, start) == Err
    ensures SegmentsEnd(buf, wide, phs, size, n, start) == Err
  {
    if i < n {
      RaiseStays(buf, wide, phs, size, i, n - 1, start);
    }
  }

  // ----- when the size raises -----

  /** 32-bit headers fit the 52 bytes; the 64-bit program-header size is already past them. */
  lemma HeaderFitsIff(hdr: Bytes, wide: bool)
    requires |hdr| == 0x34
    ensures HeaderTables(hdr, wide).Ok? <==> !wide
    ensures !wide ==> HeaderTables(hdr, wide) == Ok(Tables(ReadU32(hdr, 0x1C), ReadU32(hdr, 0x20),
                                                           ReadU16(hdr, 0x2A), ReadU16(hdr, 0x2C),
                                                           ReadU16(hdr, 0x2E), ReadU16(hdr, 0x30)))
  {
    hide Decode;
  }

  /** Walking the program headers raises iff the last one reaches past the buffer. */
  lemma {:induction false} WalkRaisesIff(buf: Bytes, phs: nat, size: nat, n: nat, end: nat)
    ensures SegmentsEnd(buf, false, phs, size, n, end).Err? <==> n > 0 && phs + (n - 1) * size + 20 > |buf|
    decreases n
  {
    hide Decode;
    if n > 1 {
      WalkRaisesIff(buf, phs, size, n - 1, end);
      assert (n - 1) * size == (n - 2) * size + size;
    }
  }

  function PhOff(buf: Bytes, off: nat): nat
    requires off + 0x34 <= |buf|
  {
    ReadU32(buf, off + 0x1C)
  }

  function PhSize(buf: Bytes, off: nat): nat
    requires off + 0x34 <= |buf|
  {
    ReadU16(buf, off + 0x2A)
  }

  function PhNum(buf: Bytes, off: nat): nat
    requires off + 0x34 <= |buf|
  {
    ReadU16(buf, off + 0x2C)
  }

  /** The program-header table fits the buffer, but its last 20-byte header does not. */
  predicate ShortTable(buf: Bytes, off: nat)
    requires off + 0x34 <= |buf|
  {
    var phs := off + PhOff(buf, off);
    phs + PhNum(buf, off) * PhSize(buf, off) <= |buf| && PhNum(buf, off) > 0
    && phs + (PhNum(buf, off) - 1) * PhSize(buf, off) + 20 > |buf|
  }

  lemma NarrowTables(buf: Bytes, off: nat)
    requires off + 0x34 <= |buf|
    ensures var t := HeaderTables(buf[off..off + 0x34], false);
            t.Ok? && t.value.phs == PhOff(buf, off) && t.value.phSize == PhSize(buf, off)
              && t.value.phNum == PhNum(buf, off)
            && t.value.shs == ReadU32(buf, off + 0x20) && t.value.shSize == ReadU16(buf, off + 0x2E)
               && t.value.shNum == ReadU16(buf, off + 0x30)
  {
    hide Decode;
    var hdr := buf[off..off + 0x34];
    HeaderFitsIff(hdr, false);
    SubSlice(buf, off, 0x34, 0x1C, 4);
    SubSlice(buf, off, 0x34, 0x20, 4);
    SubSlice(buf, off, 0x34, 0x2A, 2);
    SubSlice(buf, off, 0x34, 0x2C, 2);
    SubSlice(buf, off, 0x34, 0x2E, 2);
    SubSlice(buf, off, 0x34, 0x30, 2);
  }

  lemma SubSlice(buf: Bytes, off: nat, len: nat, at: nat, n: nat)
    requires off + len <= |buf| && at + n <= len
    ensures buf[off..off + len][at..at + n] == buf[off + at..off + at + n]
  {
    var field, original := buf[off..off + len][at..at + n], buf[off + at..off + at + n];
    forall i | 0 <= i < n
      ensures field[i] == original[i]
    {
    }
  }

  /** Reading the size raises iff the header is of another class, or its last program header is cut off. */
  lemma SizeRaisesIff(buf: Bytes, off: nat)
    ensures SpuElfSize(buf, off) == Raised <==> IsSpuHeader(buf, off) && (buf[off + 4] != 1 || ShortTable(buf, off))
  {
    hide HeaderTables, SegmentsEnd, ReadU16, ReadU32, PhOff, PhSize, PhNum;
    if IsSpuHeader(buf, off) {
      HeaderFitsIff(buf[off..off + 0x34], buf[off + 4] != 1);
      if buf[off + 4] == 1 {
        NarrowTables(buf, off);
        var t := HeaderTables(buf[off..off + 0x34], false).value;
        WalkRaisesIff(buf, off + t.phs, t.phSize, t.phNum, TablesEnd(t));
      }
    }
  }

  /** buf.find(ELF_MAGIC, pos). */
  function FindMagic(buf: Bytes, pos: nat): int
    decreases |buf| - pos
  {
    if pos + 4 > |buf| then -1 else if buf[pos..pos + 4] == MAGIC then pos else FindMagic(buf, pos + 1)
  }

  lemma {:induction false} FindMagicBounds(buf: Bytes, pos: nat)
    ensures FindMagic(buf, pos) == -1 || pos <= FindMagic(buf, pos) <= |buf| - 4
    decreases |buf| - pos
  {
    if pos + 4 <= |buf| && buf[pos..pos + 4] != MAGIC {
      FindMagicBounds(buf, pos + 1);
    }
  }

  datatype Hit = Hit(off: nat, size: nat)

  /** What the generator yields, and whether it ends in an exception. */
  datatype Scan = Scan(hits: seq<Hit>, raised: bool)

  function Prefix(hits: seq<Hit>, s: Scan): Scan { Scan(hits + s.hits, s.raised) }

  function Images(buf: Bytes, pos: nat): Scan
    decreases |buf| - pos
  {
    FindMagicBounds(buf, pos);
    var i := FindMagic(buf, pos);
    if i < 0 then Scan([], false)
    else
      match SpuElfSize(buf, i)
      case Raised => Scan([], true)
      case NoImage => Images(buf, i + 4)
      case Size(n) => if n > 0 && i + n <= |buf| then Prefix([Hit(i, n)], Images(buf, i + n)) else Images(buf, i + 4)
  }

  method FindSpuImages(buf: Bytes) returns (r: Scan)
    ensures r == Images(buf, 0)
  {
    hide SpuElfSize, FindMagic;
    var hits: seq<Hit> := [];
    var pos := 0;
    while true
      invariant Prefix(hits, Images(buf, pos)) == Images(buf, 0)
      decreases |buf| - pos
    {
      FindMagicBounds(buf, pos);
      var i := FindMagic(buf, pos);
      if i < 0 { return Scan(hits, false); }
      var size := ParseSize(buf, i);
      match size {
        case Raised => return Scan(hits, true);
        case NoImage => pos := i + 4;
        case Size(n) =>
          if n > 0 && i + n <= |buf| {
            PrefixMore(hits, Hit(i, n), Images(buf, i + n));
            hits := hits + [Hit(i, n)];
            pos := i + n;
          } else {
            pos := i + 4;
          }
      }
    }
  }

  lemma PrefixMore(hits: seq<Hit>, h: Hit, s: Scan)
    ensures Prefix(hits, Prefix([h], s)) == Prefix(hits + [h], s)
  {
    assert hits + ([h] + s.hits) == hits + [h] + s.hits;
  }

  // ----- one image -----

  lemma PhdrIs(a: Input)
    ensures |PHDR| == 8 && |PhdrRow(a)| == 8
    ensures PhdrRow(a)[0] == PT_LOAD && PhdrRow(a)[1] == CODE_OFF && PhdrRow(a)[4] == |a.code|
    ensures PHDR[0] == 4 && PHDR[1] == 4 && PHDR[4] == 4
    ensures Off(PHDR, 0) == 0 && Off(PHDR, 1) == 4 && Off(PHDR, 4) == 16
  {
    assert Off(PHDR, 0) == 0;
    OffStep(PHDR, 0);
    OffStep(PHDR, 1);
    OffStep(PHDR, 2);
    OffStep(PHDR, 3);
  }

  lemma PhdrRead(buf: Bytes, o: nat, a: Input)
    requires Packable(a) && At(buf, o + 52, PhdrBytes(a))
    ensures o + 72 <= |buf| && ReadU32(buf, o + 52) == PT_LOAD && ReadU32(buf, o + 56) == CODE_OFF
            && ReadU32(buf, o + 68) == |a.code|
  {
    hide *;
    PhdrIs(a);
    EhdrInRange(a);
    HeadersAre(a);
    FieldAt(buf, o + 52, PHDR, PhdrRow(a), 0);
    WordField(buf, o + 52, PT_LOAD);
    FieldAt(buf, o + 52, PHDR, PhdrRow(a), 1);
    WordField(buf, o + 56, CODE_OFF);
    FieldAt(buf, o + 52, PHDR, PhdrRow(a), 4);
    WordField(buf, o + 68, |a.code|);
  }

  lemma OneSegment(buf: Bytes, o: nat, end: nat)
    requires o + 72 <= |buf| && ReadU32(buf, o + 52) == PT_LOAD && ReadU32(buf, o + 56) + ReadU32(buf, o + 68) <= end
    ensures SegmentsEnd(buf, false, o + 52, 32, 1, end) == Ok(end)
  {
    assert SegmentsEnd(buf, false, o + 52, 32, 0, end) == Ok(end);
  }

  lemma EndOfTables(a: Input)
    ensures CODE_OFF + |a.code| <= ShdrOff(a) && 40 * ShNum(a) >= 120
  {
    BelowCode(a);
  }

  lemma BelowCode(a: Input)
    ensures CODE_OFF + |a.code| <= ShdrOff(a)
  {
    hide SectionStrings, Strings;
  }

  lemma SizeFromHeader(buf: Bytes, o: nat, a: Input)
    requires HeaderReads(buf, o, a) && o + ShdrOff(a) + 40 * ShNum(a) <= |buf|
    requires o + 72 <= |buf| && ReadU32(buf, o + 52) == PT_LOAD && ReadU32(buf, o + 56) == CODE_OFF
             && ReadU32(buf, o + 68) == |a.code|
    ensures SpuElfSize(buf, o) == Size(ShdrOff(a) + 40 * ShNum(a))
  {
    hide ReadU16, ReadU32, HeaderTables, SegmentsEnd, ShdrOff, ShNum, EffectiveEntry;
    EndOfTables(a);
    NarrowTables(buf, o);
    OneSegment(buf, o, ShdrOff(a) + 40 * ShNum(a));
  }

  /** Anywhere in a buffer, the size read from a wrapped image's own headers is its length. */
  lemma SizeIsLength(buf: Bytes, o: nat, a: Input)
    requires Packable(a) && At(buf, o, Image(a))
    ensures SpuElfSize(buf, o) == Size(|Image(a)|)
  {
    hide *;
    ImageParts(buf, o, a);
    HeaderRead(buf, o, a);
    PhdrRead(buf, o, a);
    ImageLength(a);
    InsideBuffer(buf, o, Image(a));
    SizeFromHeader(buf, o, a);
  }

  lemma InsideBuffer(buf: Bytes, o: nat, part: Bytes)
    requires At(buf, o, part)
    ensures o + |part| <= |buf|
  {
  }

  // ----- many images -----

  predicate MagicFree(pad: Bytes) {
    forall k {:trigger pad[k..k + 4]} :: 0 <= k <= |pad| - 4 ==> pad[k..k + 4] != MAGIC
  }

  datatype Part = Part(pad: Bytes, image: Input)

  predicate Sound(parts: seq<Part>) {
    forall i :: 0 <= i < |parts| ==> MagicFree(parts[i].pad) && Packable(parts[i].image)
  }

  /** Images separated, preceded and followed by padding. */
  function Concatenated(parts: seq<Part>, last: Bytes): Bytes
    requires Sound(parts)
  {
    hide Image, Packable, MagicFree;
    if parts == [] then last else parts[0].pad + (Image(parts[0].image) + Concatenated(parts[1..], last))
  }

  /** Each image at its own offset with its own length. */
  function Expected(parts: seq<Part>, pos: nat): seq<Hit>
    requires Sound(parts)
  {
    hide Image, Packable, MagicFree;
    if parts == [] then []
    else
      var at := pos + |parts[0].pad|;
      var n := |Image(parts[0].image)|;
      [Hit(at, n)] + Expected(parts[1..], at + n)
  }

  /** The magic does not overlap itself: no occurrence starts in the padding. */
  lemma NoneInPadding(buf: Bytes, pos: nat, pad: Bytes, k: nat)
    requires At(buf, pos, pad + MAGIC) && MagicFree(pad) && pos <= k < pos + |pad|
    ensures k + 4 <= |buf| && buf[k..k + 4] != MAGIC
  {
    var w := pad + MAGIC;
    var j := k - pos;
    SubSlice(buf, pos, |w|, j, 4);
    assert buf[k..k + 4] == w[j..j + 4];
    if j + 4 <= |pad| {
      assert w[j..j + 4] == pad[j..j + 4];
    } else {
      assert w[|pad|] == 0x7F;
      assert w[j..j + 4][|pad| - j] == 0x7F;
    }
  }

  lemma {:induction false} FoundAfterPadding(buf: Bytes, pos: nat, pad: Bytes, k: nat)
    requires At(buf, pos, pad + MAGIC) && MagicFree(pad) && pos <= k <= pos + |pad|
    ensures FindMagic(buf, k) == pos + |pad|
    decreases pos + |pad| - k
  {
    if k < pos + |pad| {
      NoneInPadding(buf, pos, pad, k);
      FoundAfterPadding(buf, pos, pad, k + 1);
    } else {
      AtParts(buf, pos, pad, MAGIC);
    }
  }

  lemma {:induction false} NotFoundInTail(buf: Bytes, pos: nat, pad: Bytes, k: nat)
    requires At(buf, pos, pad) && pos + |pad| == |buf| && MagicFree(pad) && pos <= k
    ensures FindMagic(buf, k) == -1
    decreases |buf| - k
  {
    if k + 4 <= |buf| {
      var j := k - pos;
      SubSlice(buf, pos, |pad|, j, 4);
      assert buf[k..k + 4] == pad[j..j + 4];
      NotFoundInTail(buf, pos, pad, k + 1);
    }
  }

  lemma StartsWithMagic(a: Input)
    requires Packable(a)
    ensures |Image(a)| >= 4 && Image(a) == MAGIC + Image(a)[4..]
  {
    hide *;
    Whole(Image(a));
    ImageParts(Image(a), 0, a);
    IdentReads(Image(a), 0);
    SplitFour(Image(a));
  }

  lemma SplitFour(b: Bytes)
    requires |b| >= 4
    ensures b == b[0..4] + b[4..]
  {
  }

  /** The scan finds exactly the images, where they are and as long as they are, whatever their code contains. */
  lemma {:induction false} ScanFindsExactly(buf: Bytes, pos: nat, parts: seq<Part>, last: Bytes)
    requires Sound(parts) && MagicFree(last)
    requires At(buf, pos, Concatenated(parts, last)) && pos + |Concatenated(parts, last)| == |buf|
    ensures Images(buf, pos) == Scan(Expected(parts, pos), false)
    decreases |parts|
  {
    hide At, MagicFree, Packable, Image, SpuElfSize, FindMagic;
    if parts == [] {
      NotFoundInTail(buf, pos, last, pos);
    } else {
      var pad, a, rest := parts[0].pad, parts[0].image, Concatenated(parts[1..], last);
      AtParts(buf, pos, pad, Image(a) + rest);
      AtParts(buf, pos + |pad|, Image(a), rest);
      StartsWithMagic(a);
      PadThenMagic(buf, pos, pad, Image(a));
      FoundAfterPadding(buf, pos, pad, pos);
      SizeIsLength(buf, pos + |pad|, a);
      ScanFindsExactly(buf, pos + |pad| + |Image(a)|, parts[1..], last);
    }
  }

  lemma PadThenMagic(buf: Bytes, pos: nat, pad: Bytes, image: Bytes)
    requires At(buf, pos, pad) && At(buf, pos + |pad|, image) && |image| >= 4 && image == MAGIC + image[4..]
    ensures At(buf, pos, pad + MAGIC)
  {
    AtParts(buf, pos + |pad|, MAGIC, image[4..]);
    AtJoin(buf, pos, pad, MAGIC);
  }

  /** Scanning a whole buffer built from images and magic-free padding. */
  lemma ScanOfConcatenation(parts: seq<Part>, last: Bytes)
    requires Sound(parts) && MagicFree(last)
    ensures Images(Concatenated(parts, last), 0) == Scan(Expected(parts, 0), false)
  {
    hide *;
    Whole(Concatenated(parts, last));
    ScanFindsExactly(Concatenated(parts, last), 0, parts, last);
  }

  // ----- when the scan raises -----

  predicate InHit(hits: seq<Hit>, i: nat) {
    exists k :: 0 <= k < |hits| && hits[k].off <= i < hits[k].off + hits[k].size
  }

  /** A position that would raise, outside every image found. */
  predicate RaisesAt(buf: Bytes, pos: nat, hits: seq<Hit>, i: nat) {
    pos <= i && SpuElfSize(buf, i) == Raised && !InHit(hits, i)
  }

  lemma MagicsApart(buf: Bytes, i: nat, k: nat)
    requires i < k <= |buf| - 4 && buf[i..i + 4] == MAGIC == buf[k..k + 4]
    ensures i + 4 <= k
  {
    assert buf[k..k + 4][0] == 0x7F;
    assert buf[i..i + 4][1] != 0x7F && buf[i..i + 4][2] != 0x7F && buf[i..i + 4][3] != 0x7F;
  }

  /** The first magic from a position on: none starts before it, and none within its own three last bytes. */
  lemma {:induction false} FirstMagic(buf: Bytes, pos: nat, k: nat)
    requires IsSpuHeader(buf, k) && pos <= k
    ensures var i := FindMagic(buf, pos);
            0 <= i <= k && (i < k ==> i + 4 <= k)
    decreases |buf| - pos
  {
    hide ReadU16;
    if buf[pos..pos + 4] != MAGIC {
      FirstMagic(buf, pos + 1, k);
    } else if pos < k {
      MagicsApart(buf, pos, k);
    }
  }

  lemma RaisesIsHeader(buf: Bytes, pos: nat, hits: seq<Hit>, k: nat)
    requires RaisesAt(buf, pos, hits, k)
    ensures var i := FindMagic(buf, pos);
            0 <= i <= k && (i < k ==> i + 4 <= k)
  {
    hide SpuElfSize, IsSpuHeader, FindMagic, ShortTable;
    SizeRaisesIff(buf, k);
    FirstMagic(buf, pos, k);
  }

  /** Passing over a magic that is no image changes nothing. */
  lemma PassOver(buf: Bytes, pos: nat, i: nat, next: nat, s: Scan)
    requires pos <= i == FindMagic(buf, pos) && SpuElfSize(buf, i) != Raised && next == i + 4
    requires s.raised <==> exists k :: RaisesAt(buf, next, s.hits, k)
    ensures s.raised <==> exists k :: RaisesAt(buf, pos, s.hits, k)
  {
    hide SpuElfSize, FindMagic, InHit;
    if k :| RaisesAt(buf, next, s.hits, k) {
      assert RaisesAt(buf, pos, s.hits, k);
    }
    if k :| RaisesAt(buf, pos, s.hits, k) {
      RaisesIsHeader(buf, pos, s.hits, k);
      assert RaisesAt(buf, next, s.hits, k);
    }
  }

  lemma InFirstOrRest(h: Hit, hits: seq<Hit>, i: nat)
    ensures InHit([h] + hits, i) <==> h.off <= i < h.off + h.size || InHit(hits, i)
  {
    var all := [h] + hits;
    if h.off <= i < h.off + h.size {
      assert all[0].off <= i < all[0].off + all[0].size;
    }
    if k :| 0 <= k < |hits| && hits[k].off <= i < hits[k].off + hits[k].size {
      assert all[k + 1].off <= i < all[k + 1].off + all[k + 1].size;
    }
  }

  /** Nor does an image found: the scan goes on behind it. */
  lemma PassImage(buf: Bytes, pos: nat, i: nat, next: nat, s: Scan)
    requires pos <= i == FindMagic(buf, pos) && i < next
    requires s.raised <==> exists k :: RaisesAt(buf, next, s.hits, k)
    ensures var all := [Hit(i, next - i)] + s.hits;
            s.raised <==> exists k :: RaisesAt(buf, pos, all, k)
  {
    hide SpuElfSize, FindMagic, InHit;
    var h := Hit(i, next - i);
    if k :| RaisesAt(buf, next, s.hits, k) {
      InFirstOrRest(h, s.hits, k);
      assert RaisesAt(buf, pos, [h] + s.hits, k);
    }
    if k :| RaisesAt(buf, pos, [h] + s.hits, k) {
      RaisesIsHeader(buf, pos, [h] + s.hits, k);
      InFirstOrRest(h, s.hits, k);
      assert RaisesAt(buf, next, s.hits, k);
    }
  }

  lemma NothingFound(buf: Bytes, pos: nat)
    requires FindMagic(buf, pos) < 0
    ensures forall k :: !RaisesAt(buf, pos, [], k)
  {
    hide RaisesAt, FindMagic;
    if k :| RaisesAt(buf, pos, [], k) {
      RaisesIsHeader(buf, pos, [], k);
    }
  }

  /** The scan ends in an exception iff some header that raises lies outside every image it found. */
  lemma {:induction false} ScanRaisesIff(buf: Bytes, pos: nat)
    ensures var s := Images(buf, pos);
            s.raised <==> exists i :: RaisesAt(buf, pos, s.hits, i)
    decreases |buf| - pos
  {
    hide SpuElfSize, FindMagic, InHit, RaisesAt;
    FindMagicBounds(buf, pos);
    var i := FindMagic(buf, pos);
    if i < 0 {
      NothingFound(buf, pos);
    } else {
      match SpuElfSize(buf, i)
      case Raised =>
        RaisesHere(buf, pos, i);
      case NoImage =>
        ScanRaisesIff(buf, i + 4);
        PassOver(buf, pos, i, i + 4, Images(buf, i + 4));
      case Size(n) =>
        if n > 0 && i + n <= |buf| {
          ScanRaisesIff(buf, i + n);
          PassImage(buf, pos, i, i + n, Images(buf, i + n));
        } else {
          ScanRaisesIff(buf, i + 4);
          PassOver(buf, pos, i, i + 4, Images(buf, i + 4));
        }
    }
  }

  lemma RaisesHere(buf: Bytes, pos: nat, i: nat)
    requires pos <= i && SpuElfSize(buf, i) == Raised
    ensures RaisesAt(buf, pos, [], i)
  {
    hide SpuElfSize;
  }

  /** A big-endian SPU header of the 64-bit class, and nothing else. */
  const WIDE_HEADER: Bytes := MAGIC + [2, 2] + Zeros(12) + [0, EM_SPU] + Zeros(32)

  /** The branch meant for it cannot read it. */
  lemma WideHeaderStopsTheScan()
    ensures Images(WIDE_HEADER, 0) == Scan([], true)
  {
    hide ReadU16, ShortTable;
    assert |MAGIC| == 4 && |WIDE_HEADER| == 52 && WIDE_HEADER[0..4] == MAGIC;
    WideMachine();
    SizeRaisesIff(WIDE_HEADER, 0);
  }

  lemma DecodeHalf(b: Bytes)
    requires |b| == 2
    ensures var hi: nat, lo: nat := b[0], b[1]; Decode(b) == 256 * hi + lo
  {
    var hi := b[..1];
    assert Decode(hi) == Decode(hi[..0]) * 256 + hi[0];
  }

  lemma WideMachine()
    ensures |WIDE_HEADER| == 52 && ReadU16(WIDE_HEADER, 0x12) == EM_SPU
  {
    var half := WIDE_HEADER[0x12..0x14];
    assert half == [0, EM_SPU];
    DecodeHalf(half);
  }

  // ----- what the size is -----

  /** One of the first n program headers is a loadable segment that ends there. */
  predicate LoadsTo(buf: Bytes, wide: bool, phs: nat, size: nat, n: nat, end: nat) {
    exists i :: 0 <= i < n && Loads(buf, wide, Entry(phs, size, i), end)
  }

  predicate Loads(buf: Bytes, wide: bool, base: nat, end: nat) {
    && ExtentAt(buf, base, wide).Ok? && ExtentAt(buf, base, wide).value.kind == 1
    && ExtentAt(buf, base, wide).value.offset + ExtentAt(buf, base, wide).value.size == end
  }

  /** The walk finds the largest of its start and the ends of the loadable segments. */
  lemma {:induction false} WalkFindsLargest(buf: Bytes, wide: bool, phs: nat, size: nat, n: nat, end: nat)
    requires SegmentsEnd(buf, wide, phs, size, n, end).Ok?
    ensures var r := SegmentsEnd(buf, wide, phs, size, n, end).value;
            && r >= end && (r == end || LoadsTo(buf, wide, phs, size, n, r))
            && forall e: nat :: LoadsTo(buf, wide, phs, size, n, e) ==> e <= r
    decreases n
  {
    hide ExtentAt;
    if n > 0 {
      WalkFindsLargest(buf, wide, phs, size, n - 1, end);
      var before := SegmentsEnd(buf, wide, phs, size, n - 1, end).value;
      var r := SegmentsEnd(buf, wide, phs, size, n, end).value;
      if r != before {
        assert Loads(buf, wide, Entry(phs, size, n - 1), r);
      } else if r != end {
        var i :| 0 <= i < n - 1 && Loads(buf, wide, Entry(phs, size, i), r);
      }
      forall e: nat | LoadsTo(buf, wide, phs, size, n, e)
        ensures e <= r
      {
        var i :| 0 <= i < n && Loads(buf, wide, Entry(phs, size, i), e);
        if i < n - 1 {
          assert LoadsTo(buf, wide, phs, size, n - 1, e);
        }
      }
    }
  }

  /** Where something of a 32-bit image ends: its section headers, its program headers, or, if those fit the buffer, one
      of its loadable segments. */
  predicate IsAnEnd(buf: Bytes, off: nat, e: nat)
    requires off + 0x34 <= |buf|
  {
    || e == ReadU32(buf, off + 0x20) + ReadU16(buf, off + 0x30) * ReadU16(buf, off + 0x2E)
    || e == PhOff(buf, off) + PhNum(buf, off) * PhSize(buf, off)
    || (off + PhOff(buf, off) + PhNum(buf, off) * PhSize(buf, off) <= |buf|
        && LoadsTo(buf, false, off + PhOff(buf, off), PhSize(buf, off), PhNum(buf, off), e))
  }

  /** The size of an image is the largest of those. */
  lemma SizeIsLargestEnd(buf: Bytes, off: nat)
    requires SpuElfSize(buf, off).Size?
    ensures IsSpuHeader(buf, off)
    ensures IsAnEnd(buf, off, SpuElfSize(buf, off).n)
    ensures forall e: nat :: IsAnEnd(buf, off, e) ==> e <= SpuElfSize(buf, off).n
  {
    hide HeaderTables, SegmentsEnd, ReadU16, ReadU32, PhOff, PhSize, PhNum, LoadsTo;
    HeaderFitsIff(buf[off..off + 0x34], buf[off + 4] != 1);
    NarrowTables(buf, off);
    var t := HeaderTables(buf[off..off + 0x34], false).value;
    if off + t.phs + t.phNum * t.phSize <= |buf| {
      WalkFindsLargest(buf, false, off + t.phs, t.phSize, t.phNum, TablesEnd(t));
    }
  }
}
