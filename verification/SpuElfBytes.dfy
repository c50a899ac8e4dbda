/** What a wrapped file holds byte by byte where the readers do not look: every field of its headers, with its place,
    its value and its byte order, as the System V ABI and the SPU's own machine number have them. */
module SpuElfBytes {
  import opened Basics
  import opened BigEndian
  import opened StructPack
  import opened SpuElf
  import opened SpuElfRoundTrip

  // ----- byte order -----

  /** The most significant byte comes first. */
  lemma HalfIsBigEndian(hi: Byte, lo: Byte)
    ensures Decode([hi, lo]) == 256 * (hi as int) + lo as int
  {
    var b := [hi, lo];
    assert b[..1] == [hi] && b[..1][..0] == [];
    assert Decode([hi]) == Decode([hi][..0]) * 256 + hi as int;
  }

  lemma WordIsBigEndian(b3: Byte, b2: Byte, b1: Byte, b0: Byte)
    ensures Decode([b3, b2, b1, b0])
         == 0x100_0000 * (b3 as int) + 0x1_0000 * (b2 as int) + 0x100 * (b1 as int) + b0 as int
  {
    HalfIsBigEndian(b3, b2);
    assert [b3, b2, b1][..2] == [b3, b2] && [b3, b2, b1, b0][..3] == [b3, b2, b1];
    assert Decode([b3, b2, b1]) == Decode([b3, b2]) * 256 + b1 as int;
  }

  // ----- headers -----

  lemma EhdrEvenOffsets()
    ensures Off(EHDR, 0) == 0 && Off(EHDR, 2) == 4 && Off(EHDR, 6) == 20 && Off(EHDR, 7) == 24
  {
    NoOffset();
    EhdrOffsets();
    hide Off;
    OffStep(EHDR, 1);
    OffStep(EHDR, 5);
    OffStep(EHDR, 6);
  }

  /** The identification: magic, 32-bit, big-endian, version 1, and nine zeros; then type, machine, version, entry,
      tables, flags, sizes, counts and the index of the names. */
  lemma HeaderFields(a: Input)
    requires Packable(a)
    ensures var b := Image(a);
            && |b| >= 52 && b[..16] == [0x7F, 0x45, 0x4C, 0x46, 1, 2, 1, 0, 0, 0, 0, 0, 0, 0, 0, 0]
            && Field(b, 16, 2) == Ok(2) && Field(b, 18, 2) == Ok(23) && Field(b, 20, 4) == Ok(1)
            && Field(b, 24, 4) == Ok(EffectiveEntry(a)) && Field(b, 28, 4) == Ok(52)
            && Field(b, 32, 4) == Ok(ShdrOff(a))
            && Field(b, 36, 4) == Ok(0) && Field(b, 40, 2) == Ok(52) && Field(b, 42, 2) == Ok(32)
            && Field(b, 44, 2) == Ok(1) && Field(b, 46, 2) == Ok(40) && Field(b, 48, 2) == Ok(ShNum(a))
            && Field(b, 50, 2) == Ok(2)
  {
    hide Field, At, Packable, EffectiveEntry, ShdrOff, ShNum, Off, Image, EhdrBytes;
    var b := Image(a);
    Whole(b);
    ImageParts(b, 0, a);
    IdentBytes(b);
    EhdrOffsets();
    EhdrEvenOffsets();
    forall i | 0 <= i < 13
      ensures |EhdrRow(a)| == 13 && Field(b, 16 + Off(EHDR, i), EHDR[i]) == Ok(EhdrRow(a)[i])
    {
      EhdrField(b, 0, a, i);
    }
    HeaderIsThere(b, a);
  }

  lemma IdentBytes(b: Bytes)
    requires At(b, 0, IDENT)
    ensures |b| >= 16 && b[..16] == [0x7F, 0x45, 0x4C, 0x46, 1, 2, 1, 0, 0, 0, 0, 0, 0, 0, 0, 0]
  {
    assert b[0..16] == b[..16];
  }

  lemma HeaderIsThere(b: Bytes, a: Input)
    requires Packable(a) && At(b, 16, EhdrBytes(a))
    ensures |b| >= 52
  {
    hide Packable;
  }

  lemma PhdrOffsets()
    ensures Off(PHDR, 0) == 0 && Off(PHDR, 1) == 4 && Off(PHDR, 2) == 8 && Off(PHDR, 3) == 12
    ensures Off(PHDR, 4) == 16 && Off(PHDR, 5) == 20 && Off(PHDR, 6) == 24 && Off(PHDR, 7) == 28
  {
    assert Off(PHDR, 0) == 0;
    hide Off;
    OffStep(PHDR, 0);
    OffStep(PHDR, 1);
    OffStep(PHDR, 2);
    OffStep(PHDR, 3);
    OffStep(PHDR, 4);
    OffStep(PHDR, 5);
    OffStep(PHDR, 6);
  }

  lemma PhdrField(b: Bytes, a: Input, i: nat)
    requires Packable(a) && At(b, 52, PhdrBytes(a)) && i < 8
    ensures |PhdrRow(a)| == |PHDR| == 8
    ensures Field(b, 52 + Off(PHDR, i), PHDR[i]) == Ok(PhdrRow(a)[i])
  {
    hide *;
    EhdrInRange(a);
    HeadersAre(a);
    FieldAt(b, 52, PHDR, PhdrRow(a), i);
  }

  /** One loadable segment, readable and executable, at the base and from byte 96 of the file, as long as the code. */
  lemma SegmentFields(a: Input)
    requires Packable(a)
    ensures var b := Image(a);
            && Field(b, 52, 4) == Ok(1) && Field(b, 56, 4) == Ok(96)
            && Field(b, 60, 4) == Ok(a.base) && Field(b, 64, 4) == Ok(a.base)
            && Field(b, 68, 4) == Ok(|a.code|) && Field(b, 72, 4) == Ok(|a.code|)
            && Field(b, 76, 4) == Ok(5) && Field(b, 80, 4) == Ok(16) && At(b, 96, a.code)
  {
    hide Field, At, Packable, Off, Image, PhdrBytes, Tables, EhdrBytes;
    var b := Image(a);
    Whole(b);
    ImageParts(b, 0, a);
    PhdrOffsets();
    PhdrField(b, a, 0);
    PhdrField(b, a, 1);
    PhdrField(b, a, 2);
    PhdrField(b, a, 3);
    PhdrField(b, a, 4);
    PhdrField(b, a, 5);
    PhdrField(b, a, 6);
    PhdrField(b, a, 7);
  }

  // ----- sections and symbols -----

  predicate Spells(b: Bytes, s: string) { |b| == |s| && forall i :: 0 <= i < |b| ==> b[i] == s[i] as int }

  lemma SectionNamesSpell()
    ensures Spells(TEXT, ".text") && Spells(SHSTRTAB, ".shstrtab")
    ensures Spells(SYMTAB, ".symtab") && Spells(STRTAB, ".strtab")
  {
  }

  /** Record k of a table is k sizes behind its start. */
  lemma {:induction false} RecordAt(buf: Bytes, off: nat, ws: seq<nat>, rows: seq<Row>, k: nat)
    requires Rows(ws, rows) && At(buf, off, Records(ws, rows)) && k < |rows|
    ensures InRange(ws, rows[k]) && At(buf, off + k * Total(ws), Pack(ws, rows[k]))
    decreases |rows|
  {
    hide At, Pack, Records, Total, InRange;
    var last := |rows| - 1;
    LastRow(buf, off, ws, rows);
    if k < last {
      RecordAt(buf, off, ws, rows[..last], k);
    }
  }

  lemma ShdrOffsets()
    ensures |SHDR| == 10 && forall i :: 0 <= i < 10 ==> Off(SHDR, i) == 4 * i && SHDR[i] == 4
  {
    assert Off(SHDR, 0) == 0;
    hide Off;
    OffStep(SHDR, 0);
    OffStep(SHDR, 1);
    OffStep(SHDR, 2);
    OffStep(SHDR, 3);
    OffStep(SHDR, 4);
    OffStep(SHDR, 5);
    OffStep(SHDR, 6);
    OffStep(SHDR, 7);
    OffStep(SHDR, 8);
  }

  lemma SectionField(a: Input, k: nat, i: nat)
    requires Packable(a) && k < ShNum(a) && i < 10
    ensures |ShdrRows(a)[k]| == 10 && Field(Image(a), ShdrOff(a) + 40 * k + 4 * i, 4) == Ok(ShdrRows(a)[k][i])
  {
    hide *;
    var b := Image(a);
    Whole(b);
    ImageParts(b, 0, a);
    TableParts(b, 0, a);
    EhdrInRange(a);
    ShdrOffsets();
    ShdrSize();
    ShdrBytesAre(a);
    RowCount(a);
    RecordAt(b, ShdrOff(a), SHDR, ShdrRows(a), k);
    RowIsWide(SHDR, ShdrRows(a)[k]);
    FieldAt(b, ShdrOff(a) + k * 40, SHDR, ShdrRows(a)[k], i);
  }

  lemma RowIsWide(ws: seq<nat>, row: Row)
    requires InRange(ws, row)
    ensures |row| == |ws|
  {
  }

  lemma RowCount(a: Input)
    ensures |ShdrRows(a)| == ShNum(a)
  {
  }

  lemma ShdrBytesAre(a: Input)
    requires Packable(a)
    ensures Rows(SHDR, ShdrRows(a)) && ShdrBytes(a) == Records(SHDR, ShdrRows(a))
  {
    hide Records, ShdrRows, SymTab, InRange;
  }

  /** The section headers in full: nothing, the code, the section names, and with symbols those and their names. */
  lemma SectionsInFull(a: Input)
    ensures var rows, names := ShdrRows(a), SectionStrings(a);
            && rows[0] == [0, 0, 0, 0, 0, 0, 0, 0, 1, 0]
            && rows[1] == [names.offs[TEXT], 1, 6, a.base, 96, |a.code|, 0, 0, 16, 0]
            && rows[2] == [names.offs[SHSTRTAB], 3, 0, 0, ShStrOff(a), |names.buf|, 0, 0, 1, 0]
            && (a.symbols == [] ==> |rows| == 3)
            && (a.symbols != [] ==>
                  && |rows| == 5
                  && rows[3] == [names.offs[SYMTAB], 2, 0, 0, 96 + |a.code|, 16 * |a.symbols| + 16, 4, 1, 4, 16]
                  && rows[4] == [names.offs[STRTAB], 3, 0, 0, StrOff(a), |Strings(a).buf|, 0, 0, 1, 0])
  {
    hide SectionStrings, Strings;
  }

  /** A symbol is global, a function (0x12), of section 1. */
  lemma SymbolInFull(a: Input, k: nat)
    requires k < |a.symbols|
    ensures SymTab(a)[0] == [0, 0, 0, 0, 0, 0]
    ensures SymTab(a)[k + 1] == [Strings(a).offs[a.symbols[k].name], a.symbols[k].addr, a.symbols[k].size, 0x12, 0, 1]
  {
  }

  /** The gaps before the code and before the section headers, of at most three bytes, are zeros. */
  lemma PaddingIsZero(a: Input, i: nat)
    requires Packable(a) && (84 <= i < 96 || TablesEnd(a) <= i < ShdrOff(a))
    ensures i < |Image(a)| && Image(a)[i] == 0 && ShdrOff(a) <= TablesEnd(a) + 3 && ShdrOff(a) % 4 == 0
  {
    hide *;
    var b := Image(a);
    Whole(b);
    ImageParts(b, 0, a);
    TableParts(b, 0, a);
    HeadersAligned(a);
    if i < 96 && i >= 84 {
      ZeroAt(b, 84, 12, i);
    } else {
      ZeroAt(b, TablesEnd(a), ShdrOff(a) - TablesEnd(a), i);
    }
  }

  lemma HeadersAligned(a: Input)
    ensures ShdrOff(a) <= TablesEnd(a) + 3 && ShdrOff(a) % 4 == 0
  {
    hide TablesEnd;
  }

  lemma ZeroAt(b: Bytes, off: nat, n: nat, i: nat)
    requires At(b, off, Zeros(n)) && off <= i < off + n
    ensures i < |b| && b[i] == 0
  {
    assert b[off..off + n][i - off] == 0;
  }
}
