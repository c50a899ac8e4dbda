/** What the writer produces, the reader gives back: the text bytes, the base, the entry and every symbol. */
module SpuElfRoundTrip {
  import opened Basics
  import opened BigEndian
  import opened StructPack
  import opened SpuElf
  import opened SpuElfReader

  // ----- names -----

  /** What survives of a name stored as a C string. */
  function UpToNul(s: Bytes): Bytes { if s == [] || s[0] == 0 then [] else [s[0]] + UpToNul(s[1..]) }

  lemma {:induction false} NameSurvivesIff(s: Bytes)
    ensures UpToNul(s) == s <==> 0 !in s
  {
    if s != [] && s[0] != 0 {
      NameSurvivesIff(s[1..]);
      assert s == [s[0]] + s[1..];
      if 0 !in s[1..] {
        assert UpToNul(s) == s;
      }
      if UpToNul(s) == s {
        assert UpToNul(s)[1..] == UpToNul(s[1..]);
      }
    }
  }

  lemma {:induction false} TerminatorFound(buf: Bytes, n: nat, s: Bytes)
    requires At(buf, n, s + [0])
    ensures FindNul(buf, n) == n + |UpToNul(s)|
    ensures At(buf, n, UpToNul(s))
    decreases |s|
  {
    assert buf[n] == (s + [0])[0];
    if s != [] && s[0] != 0 {
      assert s + [0] == [s[0]] + (s[1..] + [0]);
      AtParts(buf, n, [s[0]], s[1..] + [0]);
      TerminatorFound(buf, n + 1, s[1..]);
      AtJoin(buf, n, [s[0]], UpToNul(s[1..]));
    }
  }

  lemma AtJoin(buf: Bytes, n: nat, a: Bytes, b: Bytes)
    requires At(buf, n, a) && At(buf, n + |a|, b)
    ensures At(buf, n, a + b)
  {
    assert buf[n..n + |a + b|] == buf[n..n + |a|] + buf[n + |a|..n + |a| + |b|];
  }

  lemma StringRead(t: Table, name: Bytes)
    requires Placed(t) && name in t.offs
    ensures CString(t.buf, t.offs[name]) == UpToNul(name)
  {
    assert At(t.buf, t.offs[name], name + [0]);
    TerminatorFound(t.buf, t.offs[name], name);
    NamesInside(t.buf, t.offs[name], name);
  }

  lemma NamesInside(buf: Bytes, n: nat, s: Bytes)
    requires At(buf, n, s + [0])
    ensures n < |buf|
  {
  }

  // ----- header -----

  lemma EhdrOffsets()
    ensures Off(EHDR, 1) == 2 && Off(EHDR, 3) == 8 && Off(EHDR, 4) == 12 && Off(EHDR, 5) == 16
    ensures Off(EHDR, 8) == 26 && Off(EHDR, 9) == 28 && Off(EHDR, 10) == 30 && Off(EHDR, 11) == 32
            && Off(EHDR, 12) == 34
  {
    NoOffset();
    hide Off;
    OffStep(EHDR, 0);
    OffStep(EHDR, 1);
    OffStep(EHDR, 2);
    OffStep(EHDR, 3);
    OffStep(EHDR, 4);
    OffStep(EHDR, 5);
    OffStep(EHDR, 6);
    OffStep(EHDR, 7);
    OffStep(EHDR, 8);
    OffStep(EHDR, 9);
    OffStep(EHDR, 10);
    OffStep(EHDR, 11);
  }

  lemma NoOffset()
    ensures Off(EHDR, 0) == 0
  {
  }

  lemma EhdrInRange(a: Input)
    requires Packable(a)
    ensures |EhdrRow(a)| == 13 && |EHDR| == 13 && |PhdrRow(a)| == 8 && |PHDR| == 8
    ensures InRange(EHDR, EhdrRow(a)) && InRange(PHDR, PhdrRow(a)) && Rows(SHDR, ShdrRows(a))
    ensures a.symbols != [] ==> Rows(SYM, SymTab(a))
  {
    hide InRange, Rows, SymTab, ShdrRows;
  }

  lemma EhdrField(buf: Bytes, o: nat, a: Input, i: nat)
    requires Packable(a) && At(buf, o + 16, EhdrBytes(a)) && i < 13
    ensures |EhdrRow(a)| == 13
    ensures Field(buf, o + 16 + Off(EHDR, i), EHDR[i]) == Ok(EhdrRow(a)[i])
  {
    hide *;
    EhdrInRange(a);
    HeadersAre(a);
    FieldAt(buf, o + 16, EHDR, EhdrRow(a), i);
  }

  /** Every header field the readers use, for an image anywhere in a buffer. */
  predicate HeaderReads(buf: Bytes, o: nat, a: Input) {
    o + 0x34 <= |buf| && buf[o..o + 4] == MAGIC && buf[o + 4] == 1 && buf[o + 5] == 2
    && ReadU16(buf, o + 0x12) == EM_SPU && ReadU32(buf, o + 0x18) == EffectiveEntry(a)
    && ReadU32(buf, o + 0x1C) == 52 && ReadU32(buf, o + 0x20) == ShdrOff(a)
    && ReadU16(buf, o + 0x2A) == 32 && ReadU16(buf, o + 0x2C) == 1
    && ReadU16(buf, o + 0x2E) == 40 && ReadU16(buf, o + 0x30) == ShNum(a) && ReadU16(buf, o + 0x32) == 2
  }

  lemma IdentReads(buf: Bytes, o: nat)
    requires At(buf, o, IDENT)
    ensures o + 16 <= |buf| && buf[o..o + 4] == MAGIC && buf[o + 4] == 1 && buf[o + 5] == 2
  {
    var w := buf[o..o + |IDENT|];
    assert |IDENT| == 16 && w[..4] == MAGIC;
    assert buf[o..o + 4] == w[..4];
    assert buf[o + 4] == w[4] && buf[o + 5] == w[5];
  }

  lemma WordField(buf: Bytes, off: nat, v: nat)
    requires Field(buf, off, 4) == Ok(v)
    ensures off + 4 <= |buf| && ReadU32(buf, off) == v
  {
  }

  lemma HalfField(buf: Bytes, off: nat, v: nat)
    requires Field(buf, off, 2) == Ok(v)
    ensures off + 2 <= |buf| && ReadU16(buf, off) == v
  {
  }

  lemma EhdrIs(a: Input)
    ensures var r := EhdrRow(a);
            |r| == 13 && r[1] == EM_SPU && r[3] == EffectiveEntry(a) && r[4] == 52 && r[5] == ShdrOff(a)
            && r[8] == 32 && r[9] == 1 && r[10] == 40 && r[11] == ShNum(a) && r[12] == 2
    ensures EHDR[1] == 2 && EHDR[3] == 4 && EHDR[4] == 4 && EHDR[5] == 4
    ensures EHDR[8] == 2 && EHDR[9] == 2 && EHDR[10] == 2 && EHDR[11] == 2 && EHDR[12] == 2
  {
    hide ShdrOff, EffectiveEntry, ShNum;
  }

  lemma WordsRead(buf: Bytes, o: nat, a: Input)
    requires Packable(a) && At(buf, o + 16, EhdrBytes(a))
    ensures o + 0x24 <= |buf| && ReadU16(buf, o + 0x12) == EM_SPU && ReadU32(buf, o + 0x18) == EffectiveEntry(a)
    ensures ReadU32(buf, o + 0x1C) == 52 && ReadU32(buf, o + 0x20) == ShdrOff(a)
  {
    hide *;
    EhdrIs(a);
    EhdrOffsets();
    EhdrField(buf, o, a, 1);
    HalfField(buf, o + 0x12, EM_SPU);
    EhdrField(buf, o, a, 3);
    WordField(buf, o + 0x18, EffectiveEntry(a));
    EhdrField(buf, o, a, 4);
    WordField(buf, o + 0x1C, 52);
    EhdrField(buf, o, a, 5);
    WordField(buf, o + 0x20, ShdrOff(a));
  }

  lemma CountsRead(buf: Bytes, o: nat, a: Input)
    requires Packable(a) && At(buf, o + 16, EhdrBytes(a))
    ensures o + 0x34 <= |buf| && ReadU16(buf, o + 0x2A) == 32 && ReadU16(buf, o + 0x2C) == 1
    ensures ReadU16(buf, o + 0x2E) == 40 && ReadU16(buf, o + 0x30) == ShNum(a) && ReadU16(buf, o + 0x32) == 2
  {
    hide *;
    EhdrIs(a);
    EhdrOffsets();
    EhdrField(buf, o, a, 8);
    HalfField(buf, o + 0x2A, 32);
    EhdrField(buf, o, a, 9);
    HalfField(buf, o + 0x2C, 1);
    EhdrField(buf, o, a, 10);
    HalfField(buf, o + 0x2E, 40);
    EhdrField(buf, o, a, 11);
    HalfField(buf, o + 0x30, ShNum(a));
    EhdrField(buf, o, a, 12);
    HalfField(buf, o + 0x32, 2);
  }

  lemma HeaderRead(buf: Bytes, o: nat, a: Input)
    requires Packable(a) && At(buf, o, IDENT) && At(buf, o + 16, EhdrBytes(a))
    ensures HeaderReads(buf, o, a)
  {
    hide At, Off, EhdrRow, EhdrBytes, ReadU16, ReadU32, Field, Packable, ShdrOff, EffectiveEntry, ShNum;
    IdentReads(buf, o);
    EhdrIs(a);
    WordsRead(buf, o, a);
    CountsRead(buf, o, a);
  }

  // ----- the whole file -----

  lemma PhdrsRead(buf: Bytes, o: nat, a: Input)
    requires Packable(a) && At(buf, o + 52, PhdrBytes(a))
    ensures ReadRows(PHDR, buf, o + 52, 32, 1) == Ok([PhdrRow(a)])
  {
    hide *;
    EhdrInRange(a);
    HeadersAre(a);
    PhdrSize();
    OneRow(PHDR, PhdrRow(a));
    RowsAt(buf, o + 52, PHDR, [PhdrRow(a)]);
  }

  lemma OneRow(ws: seq<nat>, row: Row)
    requires InRange(ws, row)
    ensures Rows(ws, [row]) && Records(ws, [row]) == Pack(ws, row)
  {
    hide Pack;
    assert [row][..0] == [];
    assert Records(ws, []) == [];
  }

  lemma ShdrsRead(buf: Bytes, a: Input)
    requires Packable(a) && At(buf, ShdrOff(a), ShdrBytes(a))
    ensures ReadRows(SHDR, buf, ShdrOff(a), 40, ShNum(a)) == Ok(ShdrRows(a))
  {
    hide *;
    EhdrInRange(a);
    TablesAre(a);
    ShdrSize();
    RowsAt(buf, ShdrOff(a), SHDR, ShdrRows(a));
  }

  lemma PartsAt(a: Input)
    requires Packable(a)
    ensures var buf := Image(a);
            At(buf, 0, IDENT) && At(buf, 16, EhdrBytes(a)) && At(buf, 52, PhdrBytes(a)) && At(buf, CODE_OFF, a.code)
            && At(buf, SymOff(a), SymBytes(a)) && At(buf, StrOff(a), StrBytes(a))
            && At(buf, ShStrOff(a), SectionStrings(a).buf) && At(buf, ShdrOff(a), ShdrBytes(a))
  {
    hide *;
    Whole(Image(a));
    ImageParts(Image(a), 0, a);
    TableParts(Image(a), 0, a);
  }

  lemma Whole(b: Bytes)
    ensures At(b, 0, b)
  {
  }

  lemma RowWidths(a: Input)
    ensures Wide([PhdrRow(a)], 8) && Wide(ShdrRows(a), 10)
  {
  }

  /** The reader accepts every image and sees the writer's own tables. */
  lemma ImageIsParsed(a: Input)
    requires Packable(a)
    ensures Wide([PhdrRow(a)], 8) && Wide(ShdrRows(a), 10)
    ensures Parsed(Image(a)) == Ok(Tabled(Image(a), EffectiveEntry(a), [PhdrRow(a)], ShdrRows(a), 2))
  {
    hide *;
    var buf := Image(a);
    RowWidths(a);
    PartsAt(a);
    HeaderRead(buf, 0, a);
    PhdrsRead(buf, 0, a);
    ShdrsRead(buf, a);
    ParsedFrom(buf, a, [PhdrRow(a)], ShdrRows(a));
  }

  lemma ParsedFrom(buf: Bytes, a: Input, prows: seq<Row>, srows: seq<Row>)
    requires HeaderReads(buf, 0, a) && Wide(prows, 8) && Wide(srows, 10)
    requires ReadRows(PHDR, buf, 52, 32, 1) == Ok(prows) && ReadRows(SHDR, buf, ShdrOff(a), 40, ShNum(a)) == Ok(srows)
    ensures Parsed(buf) == Ok(Tabled(buf, EffectiveEntry(a), prows, srows, 2))
  {
    hide Tabled, Wide, ReadU16, ReadU32, ReadRows, ShdrOff, EffectiveEntry, ShNum;
    assert buf[..4] == buf[0..4];
  }

  lemma SliceAt(buf: Bytes, off: nat, part: Bytes)
    requires At(buf, off, part)
    ensures Slice(buf, off, off + |part|) == part
  {
  }

  /** What a symbol becomes: its name up to the first NUL. */
  function Kept(s: Symbol): Func { Func(s.addr, s.size, UpToNul(s.name)) }

  function KeptAll(symbols: seq<Symbol>): seq<Func> {
    seq(|symbols|, (i: nat) requires i < |symbols| => Kept(symbols[i]))
  }

  lemma SectionTable(a: Input)
    requires Packable(a)
    ensures Wide(ShdrRows(a), 10)
    ensures NameTable(Image(a), ShdrRows(a), 2) == SectionStrings(a).buf
  {
    hide At, Image, ShdrOff, Packable, EhdrBytes, PhdrBytes, SectionStrings, SymBytes, StrBytes, Slice, ShStrOff,
         StrOff, SymOff;
    RowWidths(a);
    PartsAt(a);
    SliceAt(Image(a), ShStrOff(a), SectionStrings(a).buf);
  }

  predicate Named(symbols: seq<Symbol>, t: Table) {
    forall i :: 0 <= i < |symbols| ==> symbols[i].name in t.offs
  }

  lemma {:induction false} FuncsKept(symbols: seq<Symbol>, t: Table)
    requires Placed(t) && Named(symbols, t)
    ensures Wide(SymbolRows(symbols, t.offs), 6)
    ensures FuncsOf(SymbolRows(symbols, t.offs), t.buf) == KeptAll(symbols)
    decreases |symbols|
  {
    hide Placed, Kept, SymbolRows, FuncsOf, KeptAll, Wide;
    SymbolRowsWide(symbols, t);
    if symbols == [] {
      NullSymbol(SymbolRows(symbols, t.offs), t.buf);
      NothingKept(symbols);
    } else {
      var n := |symbols| - 1;
      var before := symbols[..n];
      FuncsKept(before, t);
      LastSymbol(symbols, t);
      SymbolKept(symbols[n], t);
    }
  }

  lemma LastSymbol(symbols: seq<Symbol>, t: Table)
    requires symbols != [] && Named(symbols, t)
    ensures var n := |symbols| - 1;
            Wide(SymbolRows(symbols[..n], t.offs), 6) && Wide(SymbolRows(symbols, t.offs), 6)
            && KeptAll(symbols) == KeptAll(symbols[..n]) + [Kept(symbols[n])]
    ensures var n := |symbols| - 1;
            var row := SymbolRow(symbols[n], t.offs);
            FuncsOf(SymbolRows(symbols, t.offs), t.buf)
            == FuncsOf(SymbolRows(symbols[..n], t.offs), t.buf)
               + (if row[3] % 16 == STT_FUNC then [Func(row[1], row[2], CString(t.buf, row[0]))] else [])
  {
    hide CString, Kept, SymbolRow;
    var n := |symbols| - 1;
    var rows := SymbolRows(symbols, t.offs);
    SymbolRowsWide(symbols, t);
    SymbolRowsWide(symbols[..n], t);
    assert rows[..|rows| - 1] == SymbolRows(symbols[..n], t.offs);
    assert rows[|rows| - 1] == SymbolRow(symbols[n], t.offs);
  }

  lemma SymbolRowsWide(symbols: seq<Symbol>, t: Table)
    requires Named(symbols, t)
    ensures Wide(SymbolRows(symbols, t.offs), 6)
  {
    var rows := SymbolRows(symbols, t.offs);
    forall i | 0 <= i < |rows|
      ensures |rows[i]| == 6
    {
      if i > 0 {
        assert rows[i] == SymbolRow(symbols[i - 1], t.offs);
      }
    }
  }

  lemma NullSymbol(rows: seq<Row>, strs: Bytes)
    requires rows == [[0, 0, 0, 0, 0, 0]]
    ensures Wide(rows, 6) && FuncsOf(rows, strs) == []
  {
    assert rows[..0] == [];
    assert FuncsOf([], strs) == [];
  }

  lemma SymbolKept(s: Symbol, t: Table)
    requires Placed(t) && s.name in t.offs
    ensures var row := SymbolRow(s, t.offs);
            row[3] % 16 == STT_FUNC && Func(row[1], row[2], CString(t.buf, row[0])) == Kept(s)
  {
    hide Placed, CString;
    StringRead(t, s.name);
  }

  lemma StringsPlaced(a: Input)
    ensures Placed(Strings(a)) && Named(a.symbols, Strings(a))
    ensures Placed(SectionStrings(a))
  {
    hide Placed;
    NamesPlaced(Names(a.symbols));
    NamesPlaced(SectionNames(a));
  }

  lemma SymTabRead(a: Input)
    requires Packable(a) && a.symbols != []
    ensures ReadRows(SYM, Image(a), SymOff(a), 16, |a.symbols| + 1) == Ok(SymTab(a))
  {
    hide *;
    PartsAt(a);
    EhdrInRange(a);
    TablesAre(a);
    SymEntrySize();
    SymTabRows(a);
    RowsAt(Image(a), SymOff(a), SYM, SymTab(a));
  }

  lemma SymTabRows(a: Input)
    ensures |SymTab(a)| == |a.symbols| + 1
  {
  }

  /** The parsed section headers that matter to read_symbols. */
  lemma SectionKinds(a: Input, strs: Bytes)
    ensures Wide(ShdrRows(a), 10)
    ensures var rows := ShdrRows(a);
            ToSh(rows[0], strs).kind == 0 && ToSh(rows[1], strs).kind == 1 && ToSh(rows[2], strs).kind == 3
    ensures a.symbols != [] ==>
              var sym, str := ToSh(ShdrRows(a)[3], strs), ToSh(ShdrRows(a)[4], strs);
              sym.kind == SHT_SYMTAB && sym.off == SymOff(a) && sym.size == SymSize(a) && sym.link == 4
                && sym.entsize == 16
              && str.kind == 3 && str.off == StrOff(a) && str.size == StrSize(a)
  {
    hide SymOff, SymSize, StrOff, StrSize, CString, SectionStrings, ShStrOff;
  }

  lemma SkipSection(buf: Bytes, shs: seq<Sh>, k: nat)
    requires 0 < k <= |shs| && shs[k - 1].kind != SHT_SYMTAB
    ensures SymbolsIn(buf, shs, k) == SymbolsIn(buf, shs, k - 1)
  {
    hide ReadRows;
  }

  /** One symbol section read in full. */
  lemma ReadOneSection(buf: Bytes, shs: seq<Sh>, k: nat, rows: seq<Row>)
    requires 0 < k <= |shs| && SymbolsIn(buf, shs, k - 1) == Ok([])
    requires var sh := shs[k - 1];
             sh.kind == SHT_SYMTAB && sh.entsize == 16 && Wide(rows, 6)
             && ReadRows(SYM, buf, sh.off, 16, sh.size / 16) == Ok(rows)
    ensures SymbolsIn(buf, shs, k) == Ok(FuncsOf(rows, Linked(buf, shs, shs[k - 1])))
  {
    hide ReadRows, FuncsOf, Linked;
    var fs := FuncsOf(rows, Linked(buf, shs, shs[k - 1]));
    assert [] + fs == fs;
  }

  function ParsedSections(a: Input): seq<Sh>
    requires Packable(a)
  {
    RowWidths(a);
    Tabled(Image(a), EffectiveEntry(a), [PhdrRow(a)], ShdrRows(a), 2).shs
  }

  lemma SectionsAre(a: Input)
    requires Packable(a)
    ensures var shs := ParsedSections(a);
            |shs| == ShNum(a) && shs[0].kind == 0 && shs[1].kind == 1 && shs[2].kind == 3
            && (a.symbols != [] ==>
                  shs[3].kind == SHT_SYMTAB && shs[3].off == SymOff(a) && shs[3].size == SymSize(a) && shs[3].link == 4
                  && shs[3].entsize == 16 && shs[4].kind == 3 && shs[4].off == StrOff(a) && shs[4].size == StrSize(a))
  {
    hide ToSh, ShdrRows, SymOff, SymSize, StrOff, StrSize, PhdrRow, Image, EffectiveEntry, Packable, NameTable;
    RowWidths(a);
    SectionKinds(a, NameTable(Image(a), ShdrRows(a), 2));
  }

  /** The names the symbols link to. */
  lemma LinkedStrings(a: Input)
    requires Packable(a) && a.symbols != []
    ensures |ParsedSections(a)| == 5
    ensures Linked(Image(a), ParsedSections(a), ParsedSections(a)[3]) == Strings(a).buf
  {
    hide At, Image, ShdrOff, Packable, EhdrBytes, PhdrBytes, SectionStrings, SymBytes, Slice, ShStrOff, StrOff, SymOff,
         ParsedSections, Strings, StrSize, SymSize;
    SectionsAre(a);
    PartsAt(a);
    StrBytesLength(a);
    SliceAt(Image(a), StrOff(a), StrBytes(a));
  }

  /** read_symbols gives every symbol back, in order. */
  lemma SymbolsRead(a: Input)
    requires Packable(a)
    ensures SymbolsIn(Image(a), ParsedSections(a), |ParsedSections(a)|) == Ok(KeptAll(a.symbols))
  {
    hide At, Image, Packable, SectionStrings, ParsedSections, Strings, KeptAll, ReadRows, FuncsOf, Linked, Placed,
         Named, SymbolRows,
         SymOff, StrOff, StrSize, SymbolsIn;
    var buf, shs := Image(a), ParsedSections(a);
    SectionsAre(a);
    NoSections(buf, shs);
    SkipSection(buf, shs, 1);
    SkipSection(buf, shs, 2);
    SkipSection(buf, shs, 3);
    if a.symbols != [] {
      SymTabRead(a);
      StringsPlaced(a);
      FuncsKept(a.symbols, Strings(a));
      LinkedStrings(a);
      ReadOneSection(buf, shs, 4, SymTab(a));
      SkipSection(buf, shs, 5);
    } else {
      NothingKept(a.symbols);
    }
  }

  lemma NothingKept(symbols: seq<Symbol>)
    ensures symbols == [] ==> KeptAll(symbols) == []
  {
  }

  lemma NoSections(buf: Bytes, shs: seq<Sh>)
    ensures SymbolsIn(buf, shs, 0) == Ok([])
  {
  }

  lemma TextRead(a: Input)
    requires Packable(a)
    ensures Wide([PhdrRow(a)], 8) && Wide(ShdrRows(a), 10)
    ensures var elf := Tabled(Image(a), EffectiveEntry(a), [PhdrRow(a)], ShdrRows(a), 2);
            elf.entry == EffectiveEntry(a) && elf.shs == ParsedSections(a)
            && FirstText(elf.phs) == Ok(Segment(CODE_OFF, a.base, |a.code|))
  {
    hide Image, Packable, ShdrRows, NameTable, EffectiveEntry;
    RowWidths(a);
  }

  /** The round trip: for every input the writer can pack, the reader returns its text, base, entry and symbols. */
  lemma RoundTrip(a: Input)
    requires Packable(a)
    ensures var buf := Image(a);
            var elf := Parsed(buf);
            elf.Ok?
            && elf.value.entry == EffectiveEntry(a)
            && FirstText(elf.value.phs) == Ok(Segment(CODE_OFF, a.base, |a.code|))
            && Slice(buf, CODE_OFF, CODE_OFF + |a.code|) == a.code
            && SymbolsIn(buf, elf.value.shs, |elf.value.shs|) == Ok(KeptAll(a.symbols))
  {
    hide *;
    ImageIsParsed(a);
    TextRead(a);
    SymbolsRead(a);
    PartsAt(a);
    SliceAt(Image(a), CODE_OFF, a.code);
  }

  lemma SectionName(a: Input, name: Bytes)
    requires Packable(a) && name in SectionStrings(a).offs && 0 !in name
    ensures Wide(ShdrRows(a), 10)
    ensures CString(NameTable(Image(a), ShdrRows(a), 2), SectionStrings(a).offs[name]) == name
  {
    hide *;
    SectionTable(a);
    StringsPlaced(a);
    StringRead(SectionStrings(a), name);
    NameSurvivesIff(name);
  }

  lemma SectionNameOffsets(a: Input)
    ensures Wide(ShdrRows(a), 10)
    ensures var rows, offs := ShdrRows(a), SectionStrings(a).offs;
            rows[1][0] == offs[TEXT] && rows[2][0] == offs[SHSTRTAB]
            && (a.symbols != [] ==> rows[3][0] == offs[SYMTAB] && rows[4][0] == offs[STRTAB])
  {
    hide SectionStrings, SymOff, SymSize, StrOff, StrSize, ShStrOff;
  }

  lemma SectionNamesHaveNoNul()
    ensures 0 !in TEXT && 0 !in SHSTRTAB && 0 !in SYMTAB && 0 !in STRTAB
  {
  }

  /** The section names come back too. */
  lemma SectionNamesRead(a: Input)
    requires Packable(a)
    ensures var shs := ParsedSections(a);
            |shs| == ShNum(a) && shs[1].name == TEXT && shs[2].name == SHSTRTAB
            && (a.symbols != [] ==> shs[3].name == SYMTAB && shs[4].name == STRTAB)
  {
    hide CString, ShdrRows, PhdrRow, Image, EffectiveEntry, Packable, NameTable, SectionStrings;
    SectionNamesHaveNoNul();
    SectionNameOffsets(a);
    SectionName(a, TEXT);
    SectionName(a, SHSTRTAB);
    if a.symbols != [] {
      SectionName(a, SYMTAB);
      SectionName(a, STRTAB);
    }
  }

  /** The entry comes back as given unless it is zero with a nonzero base, which the writer takes as "the base". */
  lemma EntrySurvivesIff(a: Input)
    ensures EffectiveEntry(a) == a.entry <==> a.entry != 0 || a.base == 0
  {
  }

  /** A symbol comes back as given iff its name holds no NUL. */
  lemma SymbolSurvivesIff(s: Symbol)
    ensures Kept(s) == Func(s.addr, s.size, s.name) <==> 0 !in s.name
  {
    NameSurvivesIff(s.name);
  }

  // ----- what the writer can pack -----

  lemma Widths()
    ensures Pow256(1) == 256 && Pow256(2) == 0x1_0000 && Pow256(4) == M32
  {
    assert Pow256(0) == 1;
    assert Pow256(3) == 0x100_0000;
  }

  lemma EhdrFits(a: Input)
    ensures InRange(EHDR, EhdrRow(a)) <==> EffectiveEntry(a) < M32 && ShdrOff(a) < M32
  {
    hide EffectiveEntry, ShdrOff, Pow256;
    Widths();
    var r := EhdrRow(a);
    assert |r| == 13 && |EHDR| == 13;
    assert EHDR[3] == 4 && EHDR[5] == 4;
  }

  predicate Words(r: Row) { forall i :: 0 <= i < |r| ==> r[i] < M32 }

  lemma WordRow(ws: seq<nat>, r: Row)
    requires |ws| == |r| && forall i :: 0 <= i < |ws| ==> ws[i] == 4
    ensures InRange(ws, r) <==> Words(r)
  {
    hide Pow256;
    Widths();
    if InRange(ws, r) {
      forall i | 0 <= i < |r|
        ensures r[i] < M32
      {
        assert r[i] < Pow256(ws[i]);
      }
    }
  }

  lemma PhdrFits(a: Input)
    ensures InRange(PHDR, PhdrRow(a)) <==> a.base < M32 && |a.code| < M32
  {
    hide InRange;
    WordRow(PHDR, PhdrRow(a));
    var r := PhdrRow(a);
    assert r[2] == a.base && r[4] == |a.code|;
  }

  lemma BelowEnd(a: Input)
    ensures |a.code| <= ShdrOff(a) && SymOff(a) <= ShdrOff(a) && SymSize(a) <= ShdrOff(a) && StrOff(a) <= ShdrOff(a)
    ensures StrSize(a) <= ShdrOff(a) && ShStrOff(a) <= ShdrOff(a) && |SectionStrings(a).buf| <= ShdrOff(a)
  {
    hide SectionStrings, Strings;
  }

  lemma NameOffset(t: Table, name: Bytes)
    requires Placed(t) && name in t.offs
    ensures t.offs[name] < |t.buf|
  {
    assert At(t.buf, t.offs[name], name + [0]);
  }

  lemma ShdrsFit(a: Input)
    requires a.base < M32 && ShdrOff(a) < M32
    ensures Rows(SHDR, ShdrRows(a))
  {
    hide InRange, Words, Placed, ShdrOff, SymOff, SymSize, StrOff, StrSize, ShStrOff, SectionStrings;
    BelowEnd(a);
    StringsPlaced(a);
    var t, rows := SectionStrings(a), ShdrRows(a);
    NameOffset(t, TEXT);
    NameOffset(t, SHSTRTAB);
    WordShdr(rows[0]);
    WordShdr(rows[1]);
    WordShdr(rows[2]);
    if a.symbols != [] {
      NameOffset(t, SYMTAB);
      NameOffset(t, STRTAB);
      WordShdr(rows[3]);
      WordShdr(rows[4]);
    }
  }

  lemma WordShdr(r: Row)
    requires |r| == 10 && r[0] < M32 && r[1] < M32 && r[2] < M32 && r[3] < M32 && r[4] < M32 && r[5] < M32
    requires r[6] < M32 && r[7] < M32 && r[8] < M32 && r[9] < M32
    ensures InRange(SHDR, r)
  {
    WordRow(SHDR, r);
  }

  predicate SmallSymbols(a: Input) {
    forall i :: 0 <= i < |a.symbols| ==> a.symbols[i].addr < M32 && a.symbols[i].size < M32
  }

  lemma SymbolRowFits(r: Row)
    requires |r| == 6 && r[3] < 256 && r[4] == 0 && r[5] < 2
    ensures InRange(SYM, r) <==> r[0] < M32 && r[1] < M32 && r[2] < M32
  {
    hide Pow256;
    Widths();
    assert SYM[0] == 4 && SYM[1] == 4 && SYM[2] == 4 && SYM[3] == 1 && SYM[4] == 1 && SYM[5] == 2;
  }

  lemma SymbolsFitIff(a: Input)
    requires ShdrOff(a) < M32
    ensures SymbolsFit(a) <==> SmallSymbols(a)
  {
    hide InRange, Placed, ShdrOff, SectionStrings, Strings, StrSize;
    BelowEnd(a);
    StringsPlaced(a);
    StrBytesLength(a);
    var rows := SymTab(a);
    forall i | 0 <= i < |a.symbols|
      ensures InRange(SYM, rows[i + 1]) <==> a.symbols[i].addr < M32 && a.symbols[i].size < M32
    {
      assert rows[i + 1] == SymbolRow(a.symbols[i], Strings(a).offs);
      NameOffset(Strings(a), a.symbols[i].name);
      SymbolRowFits(rows[i + 1]);
    }
    SymbolRowFits(rows[0]);
    if SymbolsFit(a) {
      forall i | 0 <= i < |a.symbols|
        ensures a.symbols[i].addr < M32 && a.symbols[i].size < M32
      {
        assert InRange(SYM, rows[i + 1]);
      }
    }
  }

  lemma AsciiNames(a: Input)
    ensures NamesEncode(a) <==> forall i :: 0 <= i < |a.symbols| ==> forall c :: c in a.symbols[i].name ==> c <= 127
  {
    if NamesEncode(a) {
      forall i | 0 <= i < |a.symbols|
        ensures forall c :: c in a.symbols[i].name ==> c <= 127
      {
        assert Ascii(a.symbols[i].name);
      }
    }
    if forall i :: 0 <= i < |a.symbols| ==> forall c :: c in a.symbols[i].name ==> c <= 127 {
      forall i | 0 <= i < |a.symbols|
        ensures Ascii(a.symbols[i].name)
      {
        assert forall k :: 0 <= k < |a.symbols[i].name| ==> a.symbols[i].name[k] in a.symbols[i].name;
      }
    }
  }

  /** When wrap succeeds: ASCII names and every number, and the offset of the section headers, within 32 bits. */
  lemma PackableIff(a: Input)
    ensures Packable(a) <==>
              NamesEncode(a) && a.base < M32 && a.entry < M32 && ShdrOff(a) < M32 && SmallSymbols(a)
    ensures NamesEncode(a) <==> forall i :: 0 <= i < |a.symbols| ==> forall c :: c in a.symbols[i].name ==> c <= 127
  {
    AsciiNames(a);
    hide InRange, Rows, ShdrOff, SymbolsFit, SmallSymbols, NamesEncode, Packable;
    PackableMeans(a);
    EhdrFits(a);
    PhdrFits(a);
    BelowEnd(a);
    if a.base < M32 && ShdrOff(a) < M32 {
      ShdrsFit(a);
      SymbolsFitIff(a);
    }
  }
}
