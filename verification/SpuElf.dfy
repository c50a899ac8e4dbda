/** The SPU ELF writer (tools/wrap_spu_elf.py): one loadable segment, an optional symbol table, and the section
    headers, laid out as chapters 4 and 5 of the System V ABI describe. */
module SpuElf {
  import opened BigEndian
  import opened StructPack

  datatype Symbol = Symbol(name: Bytes, addr: nat, size: nat)
  datatype Input = Input(code: Bytes, base: nat, entry: nat, symbols: seq<Symbol>)

  const IDENT: Bytes := [0x7F, 0x45, 0x4C, 0x46, 1, 2, 1, 0, 0, 0, 0, 0, 0, 0, 0, 0]
  const EHDR: seq<nat> := [2, 2, 4, 4, 4, 4, 4, 2, 2, 2, 2, 2, 2]
  const PHDR: seq<nat> := [4, 4, 4, 4, 4, 4, 4, 4]
  const SHDR: seq<nat> := [4, 4, 4, 4, 4, 4, 4, 4, 4, 4]
  const SYM: seq<nat> := [4, 4, 4, 1, 1, 2]

  const EM_SPU := 23
  const CODE_OFF := 96
  const TEXT: Bytes := [0x2E, 0x74, 0x65, 0x78, 0x74]
  const SHSTRTAB: Bytes := [0x2E, 0x73, 0x68, 0x73, 0x74, 0x72, 0x74, 0x61, 0x62]
  const SYMTAB: Bytes := [0x2E, 0x73, 0x79, 0x6D, 0x74, 0x61, 0x62]
  const STRTAB: Bytes := [0x2E, 0x73, 0x74, 0x72, 0x74, 0x61, 0x62]

  function Zeros(n: nat): (z: Bytes)
    ensures |z| == n
  {
    seq(n, _ => 0)
  }

  // ----- string tables -----

  datatype Table = Table(buf: Bytes, offs: map<Bytes, nat>)

  /** A name already present is shared. */
  function AddName(t: Table, s: Bytes): Table {
    if s in t.offs then t else Table(t.buf + s + [0], t.offs[s := |t.buf|])
  }

  function StrTab(names: seq<Bytes>): Table
    decreases |names|
  {
    if names == [] then Table([0], map[[] := 0]) else AddName(StrTab(names[..|names| - 1]), names[|names| - 1])
  }

  method BuildStrTab(names: seq<Bytes>) returns (t: Table)
    ensures t == StrTab(names)
  {
    var buf: Bytes := [0];
    var offs: map<Bytes, nat> := map[[] := 0];
    var i := 0;
    while i < |names|
      invariant 0 <= i <= |names|
      invariant Table(buf, offs) == StrTab(names[..i])
    {
      assert names[..i + 1][..i] == names[..i];
      if names[i] !in offs {
        offs := offs[names[i] := |buf|];
        buf := buf + names[i];
        buf := buf + [0];
      }
      i := i + 1;
    }
    assert names[..i] == names;
    t := Table(buf, offs);
  }

  /** Every name is where the table says, ended by a NUL. */
  predicate Placed(t: Table) { forall s :: s in t.offs ==> At(t.buf, t.offs[s], s + [0]) }

  lemma AtPrefix(buf: Bytes, more: Bytes, off: nat, part: Bytes)
    requires At(buf, off, part)
    ensures At(buf + more, off, part)
  {
    assert (buf + more)[off..off + |part|] == buf[off..off + |part|];
  }

  lemma AtEnd(buf: Bytes, part: Bytes)
    ensures At(buf + part, |buf|, part)
  {
  }

  predicate Contains(t: Table, names: seq<Bytes>) { forall i :: 0 <= i < |names| ==> names[i] in t.offs }

  lemma {:induction false} NamesPlaced(names: seq<Bytes>)
    ensures Placed(StrTab(names))
    ensures [] in StrTab(names).offs
    ensures Contains(StrTab(names), names)
    decreases |names|
  {
    hide Placed, AddName, Contains;
    if names == [] {
      EmptyPlaced();
    } else {
      var n := |names| - 1;
      NamesPlaced(names[..n]);
      NamePlaced(StrTab(names[..n]), names[n]);
      ContainsMore(StrTab(names[..n]), StrTab(names), names);
    }
  }

  lemma EmptyPlaced()
    ensures Placed(StrTab([])) && Contains(StrTab([]), [])
  {
  }

  lemma ContainsMore(t: Table, u: Table, names: seq<Bytes>)
    requires names != [] && Contains(t, names[..|names| - 1]) && t.offs.Keys <= u.offs.Keys
             && names[|names| - 1] in u.offs
    ensures Contains(u, names)
  {
    forall i | 0 <= i < |names|
      ensures names[i] in u.offs
    {
      if i < |names| - 1 {
        assert names[i] == names[..|names| - 1][i];
        assert names[i] in t.offs.Keys;
      }
    }
  }

  lemma NamePlaced(t: Table, name: Bytes)
    requires Placed(t)
    ensures Placed(AddName(t, name)) && name in AddName(t, name).offs
    ensures t.offs.Keys <= AddName(t, name).offs.Keys
  {
    hide At;
    if name !in t.offs {
      var n := AddName(t, name);
      assert n.buf == t.buf + (name + [0]);
      AtEnd(t.buf, name + [0]);
      forall s | s in n.offs
        ensures At(n.buf, n.offs[s], s + [0])
      {
        if s != name {
          AtPrefix(t.buf, name + [0], t.offs[s], s + [0]);
        }
      }
    }
  }

  // ----- layout -----

  function Names(symbols: seq<Symbol>): (ns: seq<Bytes>)
    ensures |ns| == |symbols|
  {
    seq(|symbols|, (i: nat) requires i < |symbols| => symbols[i].name)
  }

  /** An entry of zero means the base. */
  function EffectiveEntry(a: Input): nat { if a.entry == 0 && a.base != 0 then a.base else a.entry }

  function SymbolRow(s: Symbol, offs: map<Bytes, nat>): (r: Row)
    requires s.name in offs
    ensures |r| == 6
  {
    [offs[s.name], s.addr, s.size, 18, 0, 1]
  }

  function SymbolRows(symbols: seq<Symbol>, offs: map<Bytes, nat>): (rows: seq<Row>)
    requires forall i :: 0 <= i < |symbols| ==> symbols[i].name in offs
    ensures |rows| == |symbols| + 1 && rows[0] == [0, 0, 0, 0, 0, 0]
    ensures forall i :: 0 <= i < |symbols| ==> rows[i + 1] == SymbolRow(symbols[i], offs)
  {
    [[0, 0, 0, 0, 0, 0]] + seq(|symbols|, (i: nat) requires i < |symbols| => SymbolRow(symbols[i], offs))
  }

  function Strings(a: Input): (t: Table)
    ensures forall i :: 0 <= i < |a.symbols| ==> a.symbols[i].name in t.offs
  {
    NamesPlaced(Names(a.symbols));
    assert forall i :: 0 <= i < |a.symbols| ==> Names(a.symbols)[i] == a.symbols[i].name;
    StrTab(Names(a.symbols))
  }

  function SymTab(a: Input): seq<Row> { SymbolRows(a.symbols, Strings(a).offs) }

  function SectionNames(a: Input): seq<Bytes> {
    if a.symbols == [] then [TEXT, SHSTRTAB] else [TEXT, SHSTRTAB, SYMTAB, STRTAB]
  }

  function SectionStrings(a: Input): (t: Table)
    ensures TEXT in t.offs && SHSTRTAB in t.offs && (a.symbols != [] ==> SYMTAB in t.offs && STRTAB in t.offs)
  {
    var ns := SectionNames(a);
    NamesPlaced(ns);
    assert ns[0] == TEXT && ns[1] == SHSTRTAB && (a.symbols != [] ==> ns[2] == SYMTAB && ns[3] == STRTAB);
    StrTab(ns)
  }

  function SymSize(a: Input): nat { if a.symbols == [] then 0 else 16 * (|a.symbols| + 1) }
  function StrSize(a: Input): nat { if a.symbols == [] then 0 else |Strings(a).buf| }
  function SymOff(a: Input): nat { CODE_OFF + |a.code| }
  function StrOff(a: Input): nat { SymOff(a) + SymSize(a) }
  function ShStrOff(a: Input): nat { StrOff(a) + StrSize(a) }
  function TablesEnd(a: Input): nat { ShStrOff(a) + |SectionStrings(a).buf| }

  /** `(cursor + 3) & ~3`. */
  function ShdrOff(a: Input): nat { TablesEnd(a) + 3 - (TablesEnd(a) + 3) % 4 }

  function ShNum(a: Input): nat { if a.symbols == [] then 3 else 5 }

  function EhdrRow(a: Input): Row { [2, EM_SPU, 1, EffectiveEntry(a), 52, ShdrOff(a), 0, 52, 32, 1, 40, ShNum(a), 2] }

  function PhdrRow(a: Input): Row { [1, CODE_OFF, a.base, a.base, |a.code|, |a.code|, 5, 16] }

  function BaseShdrRows(a: Input): seq<Row> {
    var offs := SectionStrings(a).offs;
    [[0, 0, 0, 0, 0, 0, 0, 0, 1, 0],
     [offs[TEXT], 1, 6, a.base, CODE_OFF, |a.code|, 0, 0, 16, 0],
     [offs[SHSTRTAB], 3, 0, 0, ShStrOff(a), |SectionStrings(a).buf|, 0, 0, 1, 0]]
  }

  function ShdrRows(a: Input): (rows: seq<Row>)
    ensures |rows| == ShNum(a)
  {
    var offs := SectionStrings(a).offs;
    if a.symbols == [] then BaseShdrRows(a)
    else
      BaseShdrRows(a)
      + [[offs[SYMTAB], 2, 0, 0, SymOff(a), SymSize(a), 4, 1, 4, 16],
         [offs[STRTAB], 3, 0, 0, StrOff(a), StrSize(a), 0, 0, 1, 0]]
  }

  predicate Ascii(s: Bytes) { forall i :: 0 <= i < |s| ==> s[i] < 128 }

  /** Nothing raises: names encode and every packed value fits its field. */
  predicate Packable(a: Input) {
    (forall i :: 0 <= i < |a.symbols| ==> Ascii(a.symbols[i].name))
    && InRange(EHDR, EhdrRow(a)) && InRange(PHDR, PhdrRow(a))
    && (a.symbols != [] ==> Rows(SYM, SymTab(a)))
    && Rows(SHDR, ShdrRows(a))
  }

  function SymBytes(a: Input): Bytes
    requires Packable(a)
  {
    if a.symbols == [] then [] else Records(SYM, SymTab(a))
  }

  function StrBytes(a: Input): Bytes { if a.symbols == [] then [] else Strings(a).buf }

  function EhdrBytes(a: Input): (b: Bytes)
    requires Packable(a)
    ensures |b| == 36
  {
    EhdrSize();
    Pack(EHDR, EhdrRow(a))
  }

  function PhdrBytes(a: Input): (b: Bytes)
    requires Packable(a)
    ensures |b| == 32
  {
    PhdrSize();
    Pack(PHDR, PhdrRow(a))
  }

  function ShdrBytes(a: Input): (b: Bytes)
    requires Packable(a)
    ensures |b| == 40 * ShNum(a)
  {
    ShdrSize();
    RecordsLength(SHDR, ShdrRows(a));
    Records(SHDR, ShdrRows(a))
  }

  lemma EhdrSize() ensures Total(EHDR) == 36 {}
  lemma PhdrSize() ensures Total(PHDR) == 32 {}
  lemma ShdrSize() ensures Total(SHDR) == 40 {}
  lemma SymEntrySize() ensures Total(SYM) == 16 {}

  function Image(a: Input): Bytes
    requires Packable(a)
  {
    IDENT + (EhdrBytes(a) + (PhdrBytes(a) + (Zeros(12) + (a.code + Tables(a)))))
  }

  function Tables(a: Input): Bytes
    requires Packable(a)
  {
    SymBytes(a) + (StrBytes(a) + (SectionStrings(a).buf + (Zeros(ShdrOff(a) - TablesEnd(a)) + ShdrBytes(a))))
  }

  // ----- the writer -----

  /** The symbol loop: one packed entry after another. */
  method PackRows(ws: seq<nat>, rows: seq<Row>) returns (r: Result<Bytes>)
    ensures r == if Rows(ws, rows) then Ok(Records(ws, rows)) else Err
  {
    var out: Bytes := [];
    var i := 0;
    while i < |rows|
      invariant 0 <= i <= |rows|
      invariant Rows(ws, rows[..i]) && out == Records(ws, rows[..i])
    {
      if !(|ws| == |rows[i]| && forall k :: 0 <= k < |ws| ==> rows[i][k] < Pow256(ws[k])) {
        return Err;
      }
      assert rows[..i + 1][..i] == rows[..i];
      out := out + Pack(ws, rows[i]);
      i := i + 1;
    }
    assert rows[..i] == rows;
    return Ok(out);
  }

  lemma SymBytesLength(a: Input)
    requires Packable(a)
    ensures |SymBytes(a)| == SymSize(a)
  {
    SymEntrySize();
    if a.symbols != [] {
      RecordsLength(SYM, SymTab(a));
    }
  }

  lemma StrBytesLength(a: Input)
    ensures |StrBytes(a)| == StrSize(a)
  {
  }

  /** Where each part of an image lies. */
  lemma ImageParts(buf: Bytes, o: nat, a: Input)
    requires Packable(a) && At(buf, o, Image(a))
    ensures At(buf, o, IDENT)
    ensures At(buf, o + 16, EhdrBytes(a))
    ensures At(buf, o + 52, PhdrBytes(a))
    ensures At(buf, o + 84, Zeros(12))
    ensures At(buf, o + CODE_OFF, a.code)
    ensures At(buf, o + SymOff(a), Tables(a))
  {
    hide At, Packable, Tables, EhdrBytes, PhdrBytes, Zeros;
    var t4 := a.code + Tables(a);
    var t3 := Zeros(12) + t4;
    var t2 := PhdrBytes(a) + t3;
    var t1 := EhdrBytes(a) + t2;
    assert |IDENT| == 16;
    AtParts(buf, o, IDENT, t1);
    AtParts(buf, o + 16, EhdrBytes(a), t2);
    AtParts(buf, o + 52, PhdrBytes(a), t3);
    AtParts(buf, o + 84, Zeros(12), t4);
    AtParts(buf, o + 96, a.code, Tables(a));
  }

  lemma TableParts(buf: Bytes, o: nat, a: Input)
    requires Packable(a) && At(buf, o + SymOff(a), Tables(a))
    ensures At(buf, o + SymOff(a), SymBytes(a))
    ensures At(buf, o + StrOff(a), StrBytes(a))
    ensures At(buf, o + ShStrOff(a), SectionStrings(a).buf)
    ensures ShdrOff(a) >= TablesEnd(a) && At(buf, o + TablesEnd(a), Zeros(ShdrOff(a) - TablesEnd(a)))
    ensures At(buf, o + ShdrOff(a), ShdrBytes(a))
  {
    hide At, Packable, SymBytes, SymOff, ShdrBytes, SectionStrings, Strings, SymSize, StrBytes, StrSize, ShdrOff;
    SymBytesLength(a);
    StrBytesLength(a);
    PadIsNat(a);
    var t8 := Zeros(ShdrOff(a) - TablesEnd(a)) + ShdrBytes(a);
    var t7 := SectionStrings(a).buf + t8;
    var t6 := StrBytes(a) + t7;
    AtParts(buf, o + SymOff(a), SymBytes(a), t6);
    AtParts(buf, o + StrOff(a), StrBytes(a), t7);
    AtParts(buf, o + ShStrOff(a), SectionStrings(a).buf, t8);
    AtParts(buf, o + TablesEnd(a), Zeros(ShdrOff(a) - TablesEnd(a)), ShdrBytes(a));
  }

  /** The image ends with its section headers. */
  lemma ImageLength(a: Input)
    requires Packable(a)
    ensures |Image(a)| == ShdrOff(a) + 40 * ShNum(a)
  {
    hide Packable, SymBytes, ShdrBytes, SectionStrings, Strings, SymSize, EhdrBytes, PhdrBytes;
    SymBytesLength(a);
  }

  /** The layout part of `wrap`: a moving cursor over the file, and the section rows that record it. */
  method LayOut(a: Input, strs: Table, shstrs: Table) returns (rows: seq<Row>, shdrOff: nat, pad: nat)
    requires strs == Strings(a) && shstrs == SectionStrings(a)
    ensures rows == ShdrRows(a) && shdrOff == ShdrOff(a) && pad == ShdrOff(a) - TablesEnd(a)
  {
    hide Strings, SectionStrings;
    var codeOff := 84 + 15 - (84 + 15) % 16;
    var cursor := codeOff + |a.code|;
    var symtabOff, strtabOff, symSize := 0, 0, 0;
    if a.symbols != [] {
      symtabOff := cursor;
      symSize := 16 * (|a.symbols| + 1);
      cursor := cursor + symSize;
      strtabOff := cursor;
      cursor := cursor + |strs.buf|;
    }
    var shstrtabOff := cursor;
    cursor := cursor + |shstrs.buf|;
    shdrOff := cursor + 3 - (cursor + 3) % 4;
    pad := shdrOff - cursor;
    rows := [[0, 0, 0, 0, 0, 0, 0, 0, 1, 0],
             [shstrs.offs[TEXT], 1, 6, a.base, codeOff, |a.code|, 0, 0, 16, 0],
             [shstrs.offs[SHSTRTAB], 3, 0, 0, shstrtabOff, |shstrs.buf|, 0, 0, 1, 0]];
    if a.symbols != [] {
      rows := rows + [[shstrs.offs[SYMTAB], 2, 0, 0, symtabOff, symSize, 4, 1, 4, 16],
                      [shstrs.offs[STRTAB], 3, 0, 0, strtabOff, |strs.buf|, 0, 0, 1, 0]];
    }
  }

  predicate HeadersFit(a: Input) { InRange(EHDR, EhdrRow(a)) && InRange(PHDR, PhdrRow(a)) }

  method PackHeaders(a: Input, shdrOff: nat) returns (r: Result<Bytes>)
    requires shdrOff == ShdrOff(a)
    ensures r == if HeadersFit(a) then Ok(IDENT + (Pack(EHDR, EhdrRow(a)) + Pack(PHDR, PhdrRow(a)))) else Err
  {
    hide InRange, ShdrOff, Pack;
    var entry := if a.entry == 0 && a.base != 0 then a.base else a.entry;
    var e := [2, EM_SPU, 1, entry, 52, shdrOff, 0, 52, 32, 1, 40, if a.symbols == [] then 3 else 5, 2];
    var p := [1, CODE_OFF, a.base, a.base, |a.code|, |a.code|, 5, 16];
    assert e == EhdrRow(a) && p == PhdrRow(a);
    var ehdr := PackRow(EHDR, e);
    var phdr := PackRow(PHDR, p);
    if ehdr.Err? || phdr.Err? { return Err; }
    return Ok(IDENT + (ehdr.value + phdr.value));
  }

  predicate NamesEncode(a: Input) { forall i :: 0 <= i < |a.symbols| ==> Ascii(a.symbols[i].name) }

  method PackSymbols(a: Input, strs: Table) returns (r: Result<Bytes>)
    requires strs == Strings(a)
    ensures r == if !SymbolsFit(a) then Err else Ok(if a.symbols == [] then [] else Records(SYM, SymTab(a)))
  {
    hide Rows, Strings, Records, SymbolRows, NamesEncode;
    if a.symbols == [] { return Ok([]); }
    r := PackRows(SYM, SymbolRows(a.symbols, strs.offs));
  }

  predicate SymbolsFit(a: Input) { a.symbols != [] ==> Rows(SYM, SymTab(a)) }

  /** `wrap`: lay the parts out, pack the tables, then append everything in file order. */
  method Wrap(a: Input) returns (r: Result<Bytes>)
    ensures r == if Packable(a) then Ok(Image(a)) else Err
  {
    hide *;
    PackableMeans(a);
    if !AllAscii(Names(a.symbols)) {
      NamesEncodeMeans(a);
      return Err;
    }
    NamesEncodeMeans(a);
    var strs := BuildStrTab(Names(a.symbols));
    StringsAre(a);
    var shstrs := BuildStrTab(SectionNames(a));
    SectionStringsAre(a);
    var rows, shdrOff, pad := LayOut(a, strs, shstrs);
    var sym := PackSymbols(a, strs);
    var shdrs := PackRows(SHDR, rows);
    var headers := PackHeaders(a, shdrOff);
    if sym.Err? || shdrs.Err? || headers.Err? { return Err; }
    ImageIs(a);
    r := Ok(headers.value + Zeros(12) + a.code + sym.value + (if a.symbols == [] then [] else strs.buf) + shstrs.buf
            + Zeros(pad) + shdrs.value);
  }

  predicate AllAscii(names: seq<Bytes>) { forall i :: 0 <= i < |names| ==> Ascii(names[i]) }

  lemma NamesEncodeMeans(a: Input)
    ensures NamesEncode(a) <==> AllAscii(Names(a.symbols))
  {
    if AllAscii(Names(a.symbols)) {
      forall i | 0 <= i < |a.symbols|
        ensures Ascii(a.symbols[i].name)
      {
        assert a.symbols[i].name == Names(a.symbols)[i];
      }
    }
  }

  lemma ImageIs(a: Input)
    requires Packable(a)
    ensures |EHDR| == |EhdrRow(a)| && |PHDR| == |PhdrRow(a)| && Rows(SHDR, ShdrRows(a)) && SymbolsFit(a)
    ensures ShdrOff(a) >= TablesEnd(a)
    ensures Image(a) == IDENT + (Pack(EHDR, EhdrRow(a)) + Pack(PHDR, PhdrRow(a))) + Zeros(12) + a.code
                        + (if a.symbols == [] then [] else Records(SYM, SymTab(a)))
                        + (if a.symbols == [] then [] else Strings(a).buf) + SectionStrings(a).buf
                        + Zeros(ShdrOff(a) - TablesEnd(a)) + Records(SHDR, ShdrRows(a))
  {
    hide *;
    PadIsNat(a);
    HeadersAre(a);
    TablesAre(a);
    ImageFlat(a);
  }

  lemma HeadersAre(a: Input)
    requires Packable(a)
    ensures |EHDR| == |EhdrRow(a)| && |PHDR| == |PhdrRow(a)|
    ensures EhdrBytes(a) == Pack(EHDR, EhdrRow(a)) && PhdrBytes(a) == Pack(PHDR, PhdrRow(a))
  {
    hide Pack, ShdrRows, SymTab, Rows;
  }

  lemma TablesAre(a: Input)
    requires Packable(a)
    ensures Rows(SHDR, ShdrRows(a)) && SymbolsFit(a)
    ensures ShdrBytes(a) == Records(SHDR, ShdrRows(a))
    ensures SymBytes(a) == if a.symbols == [] then [] else Records(SYM, SymTab(a))
    ensures StrBytes(a) == if a.symbols == [] then [] else Strings(a).buf
  {
    hide Pack, ShdrRows, SymTab, Rows, EhdrRow, PhdrRow, Records, Strings, InRange;
  }

  lemma ImageFlat(a: Input)
    requires Packable(a)
    ensures ShdrOff(a) >= TablesEnd(a)
    ensures Image(a) == IDENT + (EhdrBytes(a) + PhdrBytes(a)) + Zeros(12) + a.code + SymBytes(a) + StrBytes(a)
                        + SectionStrings(a).buf + Zeros(ShdrOff(a) - TablesEnd(a)) + ShdrBytes(a)
  {
    hide Packable, EhdrBytes, PhdrBytes, SymBytes, StrBytes, SectionStrings, ShdrBytes, ShdrOff, TablesEnd, Zeros;
    PadIsNat(a);
    Regroup(IDENT, EhdrBytes(a), PhdrBytes(a), Zeros(12), a.code, SymBytes(a), StrBytes(a), SectionStrings(a).buf,
            Zeros(ShdrOff(a) - TablesEnd(a)), ShdrBytes(a));
  }

  lemma PadIsNat(a: Input)
    ensures ShdrOff(a) >= TablesEnd(a)
  {
  }

  lemma Regroup(a: Bytes, b: Bytes, c: Bytes, d: Bytes, e: Bytes, f: Bytes, g: Bytes, h: Bytes, i: Bytes, j: Bytes)
    ensures a + (b + (c + (d + (e + (f + (g + (h + (i + j)))))))) == a + (b + c) + d + e + f + g + h + i + j
  {
  }

  method PackRow(ws: seq<nat>, row: Row) returns (r: Result<Bytes>)
    requires |ws| == |row|
    ensures r == if InRange(ws, row) then Ok(Pack(ws, row)) else Err
  {
    if exists k :: 0 <= k < |ws| && row[k] >= Pow256(ws[k]) { return Err; }
    return Ok(Pack(ws, row));
  }

  lemma PackableMeans(a: Input)
    ensures Packable(a) <==> NamesEncode(a) && HeadersFit(a) && SymbolsFit(a) && Rows(SHDR, ShdrRows(a))
  {
  }

  lemma StringsAre(a: Input)
    ensures Strings(a) == StrTab(Names(a.symbols))
  {
  }

  lemma SectionStringsAre(a: Input)
    ensures SectionStrings(a) == StrTab(SectionNames(a))
  {
  }
}
