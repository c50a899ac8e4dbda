/** The SPU ELF reader (tools/find_spu_functions.py: `parse_elf`, `read_symbols`, `pick_text`). Every exception is one
    error value; names are kept as bytes. */
module SpuElfReader {
  import opened BigEndian
  import opened StructPack
  import opened SpuElf

  const MAGIC: Bytes := [0x7F, 0x45, 0x4C, 0x46]
  const SHT_SYMTAB := 2
  const STT_FUNC := 2
  const PT_LOAD := 1

  datatype Ph = Ph(kind: nat, off: nat, vaddr: nat, filesz: nat, memsz: nat, flags: nat)
  datatype Sh = Sh(name: Bytes, kind: nat, flags: nat, addr: nat, off: nat, size: nat, link: nat, info: nat,
                   entsize: nat)
  datatype Elf = Elf(entry: nat, phs: seq<Ph>, shs: seq<Sh>)
  datatype Func = Func(addr: nat, size: nat, name: Bytes)
  datatype Segment = Segment(off: nat, vaddr: nat, size: nat)

  /** Python's buf[a:b]. */
  function Slice(buf: Bytes, a: nat, b: nat): Bytes {
    var lo := if a <= |buf| then a else |buf|;
    var hi := if b <= |buf| then b else |buf|;
    if lo <= hi then buf[lo..hi] else []
  }

  /** buf.find(b"\0", from): -1 when there is none. */
  function FindNul(s: Bytes, from: nat): int
    decreases |s| - from
  {
    if from >= |s| then -1 else if s[from] == 0 then from else FindNul(s, from + 1)
  }

  lemma {:induction false} FindNulBounds(s: Bytes, from: nat)
    ensures FindNul(s, from) == -1 || from <= FindNul(s, from) < |s|
    decreases |s| - from
  {
    if from < |s| && s[from] != 0 {
      FindNulBounds(s, from + 1);
    }
  }

  /** The string at an offset; a missing terminator makes Python drop the last byte. */
  function CString(s: Bytes, n: nat): Bytes {
    if n >= |s| then []
    else
      var e := FindNul(s, n);
      FindNulBounds(s, n);
      if e == -1 then Slice(s, n, |s| - 1) else s[n..e]
  }

  function ReadU16(buf: Bytes, off: nat): nat
    requires off + 2 <= |buf|
  {
    Decode(buf[off..off + 2])
  }

  function ReadU32(buf: Bytes, off: nat): nat
    requires off + 4 <= |buf|
  {
    Decode(buf[off..off + 4])
  }

  // ----- parse_elf -----

  function ToPh(r: Row): Ph
    requires |r| == 8
  {
    Ph(r[0], r[1], r[2], r[4], r[5], r[6])
  }

  function ToSh(r: Row, strs: Bytes): Sh
    requires |r| == 10
  {
    Sh(CString(strs, r[0]), r[1], r[2], r[3], r[4], r[5], r[6], r[7], r[9])
  }

  predicate Wide(rows: seq<Row>, n: nat) { forall i :: 0 <= i < |rows| ==> |rows[i]| == n }

  lemma {:induction false} RowsAreWide(ws: seq<nat>, buf: Bytes, off: nat, size: nat, n: nat)
    ensures var r := ReadRows(ws, buf, off, size, n);
            r.Ok? ==> |r.value| == n && Wide(r.value, |ws|)
    decreases n
  {
    if n > 0 {
      RowsAreWide(ws, buf, off, size, n - 1);
    }
  }

  /** The section-name table: the bytes of section e_shstrndx, or nothing. */
  function NameTable(buf: Bytes, rows: seq<Row>, index: nat): Bytes
    requires Wide(rows, 10)
  {
    if index < |rows| then Slice(buf, rows[index][4], rows[index][4] + rows[index][5]) else []
  }

  function Tabled(buf: Bytes, entry: nat, prows: seq<Row>, srows: seq<Row>, index: nat): Elf
    requires Wide(prows, 8) && Wide(srows, 10)
  {
    Elf(entry, seq(|prows|, (i: nat) requires i < |prows| => ToPh(prows[i])),
        seq(|srows|, (i: nat) requires i < |srows| => ToSh(srows[i], NameTable(buf, srows, index))))
  }

  predicate HeaderAccepted(buf: Bytes) {
    |buf| >= 0x34 && buf[..4] == MAGIC && buf[5] == 2 && ReadU16(buf, 0x12) == EM_SPU
  }

  /** The header checks, then both tables. */
  function Parsed(buf: Bytes): Result<Elf> {
    if !HeaderAccepted(buf) then Err
    else
      var prows := ReadRows(PHDR, buf, ReadU32(buf, 0x1C), ReadU16(buf, 0x2A), ReadU16(buf, 0x2C));
      var srows := ReadRows(SHDR, buf, ReadU32(buf, 0x20), ReadU16(buf, 0x2E), ReadU16(buf, 0x30));
      RowsAreWide(PHDR, buf, ReadU32(buf, 0x1C), ReadU16(buf, 0x2A), ReadU16(buf, 0x2C));
      RowsAreWide(SHDR, buf, ReadU32(buf, 0x20), ReadU16(buf, 0x2E), ReadU16(buf, 0x30));
      if prows.Err? || srows.Err? then Err
      else Ok(Tabled(buf, ReadU32(buf, 0x18), prows.value, srows.value, ReadU16(buf, 0x32)))
  }

  method ParseElf(buf: Bytes) returns (r: Result<Elf>)
    ensures r == Parsed(buf)
  {
    hide Tabled, ReadRows;
    if |buf| < 4 || buf[..4] != MAGIC { return Err; }
    if |buf| < 6 || buf[5] != 2 { return Err; }
    if |buf| < 0x14 || ReadU16(buf, 0x12) != EM_SPU { return Err; }
    if |buf| < 0x34 { return Err; }
    RowsAreWide(PHDR, buf, ReadU32(buf, 0x1C), ReadU16(buf, 0x2A), ReadU16(buf, 0x2C));
    RowsAreWide(SHDR, buf, ReadU32(buf, 0x20), ReadU16(buf, 0x2E), ReadU16(buf, 0x30));
    var prows := UnpackTable(PHDR, buf, ReadU32(buf, 0x1C), ReadU16(buf, 0x2A), ReadU16(buf, 0x2C));
    if prows.Err? { return Err; }
    var srows := UnpackTable(SHDR, buf, ReadU32(buf, 0x20), ReadU16(buf, 0x2E), ReadU16(buf, 0x30));
    if srows.Err? { return Err; }
    return Ok(Tabled(buf, ReadU32(buf, 0x18), prows.value, srows.value, ReadU16(buf, 0x32)));
  }

  // ----- pick_text -----

  predicate IsText(ph: Ph) { ph.kind == PT_LOAD && ph.flags % 2 == 1 }

  /** The first executable loadable segment. */
  function FirstText(phs: seq<Ph>): Result<Segment> {
    if phs == [] then Err
    else if IsText(phs[0]) then Ok(Segment(phs[0].off, phs[0].vaddr, phs[0].filesz))
    else FirstText(phs[1..])
  }

  method PickText(phs: seq<Ph>) returns (r: Result<Segment>)
    ensures r == FirstText(phs)
  {
    var i := 0;
    while i < |phs|
      invariant 0 <= i <= |phs| && FirstText(phs) == FirstText(phs[i..])
    {
      if IsText(phs[i]) { return Ok(Segment(phs[i].off, phs[i].vaddr, phs[i].filesz)); }
      i := i + 1;
    }
    return Err;
  }

  // ----- read_symbols -----

  /** The function symbols among rows, in order. */
  function FuncsOf(rows: seq<Row>, strs: Bytes): seq<Func>
    requires Wide(rows, 6)
    decreases |rows|
  {
    if rows == [] then []
    else
      var last := rows[|rows| - 1];
      FuncsOf(rows[..|rows| - 1], strs)
      + (if last[3] % 16 == STT_FUNC then [Func(last[1], last[2], CString(strs, last[0]))] else [])
  }

  function Linked(buf: Bytes, shs: seq<Sh>, sh: Sh): Bytes {
    if sh.link < |shs| then Slice(buf, shs[sh.link].off, shs[sh.link].off + shs[sh.link].size) else []
  }

  /** The symbols of the first k sections. */
  function SymbolsIn(buf: Bytes, shs: seq<Sh>, k: nat): Result<seq<Func>>
    requires k <= |shs|
  {
    if k == 0 then Ok([])
    else
      var sh := shs[k - 1];
      match SymbolsIn(buf, shs, k - 1)
      case Err => Err
      case Ok(before) =>
        if sh.kind != SHT_SYMTAB then Ok(before)
        else if sh.entsize == 0 then Err
        else
          var rows := ReadRows(SYM, buf, sh.off, sh.entsize, sh.size / sh.entsize);
          RowsAreWide(SYM, buf, sh.off, sh.entsize, sh.size / sh.entsize);
          if rows.Err? then Err else Ok(before + FuncsOf(rows.value, Linked(buf, shs, sh)))
  }

  lemma {:induction false} SymbolErrorStays(buf: Bytes, shs: seq<Sh>, i: nat, k: nat)
    requires i <= k <= |shs| && SymbolsIn(buf, shs, i) == Err
    ensures SymbolsIn(buf, shs, k) == Err
  {
    if i < k {
      SymbolErrorStays(buf, shs, i, k - 1);
    }
  }

  method ReadSymbols(buf: Bytes, shs: seq<Sh>) returns (r: Result<seq<Func>>)
    ensures r == SymbolsIn(buf, shs, |shs|)
  {
    var funcs: seq<Func> := [];
    var k := 0;
    while k < |shs|
      invariant 0 <= k <= |shs|
      invariant SymbolsIn(buf, shs, k) == Ok(funcs)
    {
      var sh := shs[k];
      if sh.kind == SHT_SYMTAB {
        if sh.entsize == 0 {
          SymbolErrorStays(buf, shs, k + 1, |shs|);
          return Err;
        }
        var more := ReadSection(buf, sh, Linked(buf, shs, sh));
        if more.Err? {
          SymbolErrorStays(buf, shs, k + 1, |shs|);
          return Err;
        }
        funcs := funcs + more.value;
      }
      k := k + 1;
    }
    return Ok(funcs);
  }

  function SectionFuncs(buf: Bytes, sh: Sh, strs: Bytes): Result<seq<Func>>
    requires sh.entsize != 0
  {
    var rows := ReadRows(SYM, buf, sh.off, sh.entsize, sh.size / sh.entsize);
    RowsAreWide(SYM, buf, sh.off, sh.entsize, sh.size / sh.entsize);
    if rows.Err? then Err else Ok(FuncsOf(rows.value, strs))
  }

  method ReadSection(buf: Bytes, sh: Sh, strs: Bytes) returns (r: Result<seq<Func>>)
    requires sh.entsize != 0
    ensures r == SectionFuncs(buf, sh, strs)
  {
    hide ReadRows;
    var rows := UnpackTable(SYM, buf, sh.off, sh.entsize, sh.size / sh.entsize);
    RowsAreWide(SYM, buf, sh.off, sh.entsize, sh.size / sh.entsize);
    if rows.Err? { return Err; }
    var funcs: seq<Func> := [];
    var i := 0;
    while i < |rows.value|
      invariant 0 <= i <= |rows.value|
      invariant funcs == FuncsOf(rows.value[..i], strs)
    {
      assert rows.value[..i + 1][..i] == rows.value[..i];
      var row := rows.value[i];
      if row[3] % 16 == STT_FUNC {
        funcs := funcs + [Func(row[1], row[2], CString(strs, row[0]))];
      }
      i := i + 1;
    }
    assert rows.value[..i] == rows.value;
    return Ok(funcs);
  }
}
