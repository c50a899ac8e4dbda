/** What the SPU ELF reader reports of any file, well formed or not: each value is the big-endian field at its place in
    the file, the text segment is the first loadable executable one, and the symbols are the function entries. */
module SpuElfFields {
  import opened BigEndian
  import opened StructPack
  import opened SpuElf
  import opened SpuElfReader
  import opened SpuElfRoundTrip
  import opened SpuElfBytes

  // ----- rows -----

  lemma {:induction false} UnpackedField(ws: seq<nat>, b: Bytes, i: nat)
    requires |b| == Total(ws) && i < |ws|
    ensures Off(ws, i) + ws[i] <= |b| && Unpack(ws, b)[i] == Decode(b[Off(ws, i)..Off(ws, i) + ws[i]])
    decreases |ws|
  {
    hide Decode;
    if i > 0 {
      UnpackedField(ws[1..], b[ws[0]..], i - 1);
      TailSlice(b, ws[0], Off(ws[1..], i - 1), ws[i]);
    }
  }

  lemma TailSlice(b: Bytes, n: nat, at: nat, m: nat)
    requires n + at + m <= |b|
    ensures b[n..][at..at + m] == b[n + at..n + at + m]
  {
    SliceOfSlice(b, n, |b| - n, at, m);
    assert b[n..] == b[n..n + (|b| - n)];
  }

  lemma UnpackFromIs(ws: seq<nat>, buf: Bytes, off: nat, row: Row)
    requires UnpackFrom(ws, buf, off) == Ok(row)
    ensures off + Total(ws) <= |buf| && row == Unpack(ws, buf[off..off + Total(ws)]) && |row| == |ws|
  {
    hide Unpack, Total;
  }

  lemma FieldOfRow(ws: seq<nat>, buf: Bytes, off: nat, row: Row, i: nat)
    requires UnpackFrom(ws, buf, off) == Ok(row) && i < |ws|
    ensures |row| == |ws| && Field(buf, off + Off(ws, i), ws[i]) == Ok(row[i])
  {
    hide Decode, Unpack, Off, UnpackFrom, Total;
    UnpackFromIs(ws, buf, off, row);
    UnpackedField(ws, buf[off..off + Total(ws)], i);
    SliceOfSlice(buf, off, Total(ws), Off(ws, i), ws[i]);
  }

  lemma SliceOfSlice(buf: Bytes, off: nat, n: nat, at: nat, m: nat)
    requires off + n <= |buf| && at + m <= n
    ensures buf[off..off + n][at..at + m] == buf[off + at..off + at + m]
  {
    var part, whole := buf[off..off + n][at..at + m], buf[off + at..off + at + m];
    forall k | 0 <= k < m
      ensures part[k] == whole[k]
    {
    }
  }

  lemma {:induction false} RowIsRead(ws: seq<nat>, buf: Bytes, off: nat, size: nat, n: nat, k: nat)
    requires ReadRows(ws, buf, off, size, n).Ok? && k < n
    ensures |ReadRows(ws, buf, off, size, n).value| == n
    ensures UnpackFrom(ws, buf, off + k * size) == Ok(ReadRows(ws, buf, off, size, n).value[k])
    decreases n
  {
    hide UnpackFrom;
    RowsAreWide(ws, buf, off, size, n);
    RowsAreWide(ws, buf, off, size, n - 1);
    if k < n - 1 {
      RowIsRead(ws, buf, off, size, n - 1, k);
    }
  }

  // ----- headers -----

  lemma ParsedTables(buf: Bytes, e: Elf)
    requires Parsed(buf) == Ok(e)
    ensures |buf| >= 0x34
    ensures var r := ReadRows(PHDR, buf, ReadU32(buf, 0x1C), ReadU16(buf, 0x2A), ReadU16(buf, 0x2C));
            r.Ok? && |e.phs| == |r.value| == ReadU16(buf, 0x2C)
            && forall k :: 0 <= k < |e.phs| ==> |r.value[k]| == 8 && e.phs[k] == ToPh(r.value[k])
    ensures var r := ReadRows(SHDR, buf, ReadU32(buf, 0x20), ReadU16(buf, 0x2E), ReadU16(buf, 0x30));
            r.Ok? && |e.shs| == |r.value| == ReadU16(buf, 0x30)
            && Wide(r.value, 10) && forall k :: 0 <= k < |e.shs| ==>
                 |r.value[k]| == 10 && e.shs[k] == ToSh(r.value[k], NameTable(buf, r.value, ReadU16(buf, 0x32)))
  {
    hide ReadRows, ReadU16, ReadU32, ToPh, ToSh, NameTable;
    RowsAreWide(PHDR, buf, ReadU32(buf, 0x1C), ReadU16(buf, 0x2A), ReadU16(buf, 0x2C));
    RowsAreWide(SHDR, buf, ReadU32(buf, 0x20), ReadU16(buf, 0x2E), ReadU16(buf, 0x30));
  }

  /** Where program header and section header k lie. */
  function PhBase(buf: Bytes, k: nat): nat
    requires |buf| >= 0x34
  {
    ReadU32(buf, 0x1C) + k * ReadU16(buf, 0x2A)
  }

  function ShBase(buf: Bytes, k: nat): nat
    requires |buf| >= 0x34
  {
    ReadU32(buf, 0x20) + k * ReadU16(buf, 0x2E)
  }

  /** Program header k of a parsed file. */
  lemma SegmentIsRead(buf: Bytes, e: Elf, k: nat)
    requires |buf| >= 0x34 && Parsed(buf) == Ok(e) && k < |e.phs|
    ensures |e.phs| == ReadU16(buf, 0x2C)
    ensures var ph, base := e.phs[k], PhBase(buf, k);
            && Field(buf, base, 4) == Ok(ph.kind) && Field(buf, base + 4, 4) == Ok(ph.off)
            && Field(buf, base + 8, 4) == Ok(ph.vaddr) && Field(buf, base + 16, 4) == Ok(ph.filesz)
            && Field(buf, base + 20, 4) == Ok(ph.memsz) && Field(buf, base + 24, 4) == Ok(ph.flags)
  {
    hide ReadRows, ReadU16, ReadU32, Field, UnpackFrom, Parsed;
    var off, size, n := ReadU32(buf, 0x1C), ReadU16(buf, 0x2A), ReadU16(buf, 0x2C);
    ParsedTables(buf, e);
    RowIsRead(PHDR, buf, off, size, n, k);
    RowFields8(buf, off + k * size, ReadRows(PHDR, buf, off, size, n).value[k]);
  }

  lemma RowFields8(buf: Bytes, base: nat, row: Row)
    requires UnpackFrom(PHDR, buf, base) == Ok(row)
    ensures |row| == 8 && forall i :: 0 <= i < 8 ==> Field(buf, base + 4 * i, 4) == Ok(row[i])
  {
    hide UnpackFrom, Field, Off;
    PhdrOffsets();
    assert |PHDR| == 8 && forall i :: 0 <= i < 8 ==> PHDR[i] == 4;
    forall i | 0 <= i < 8
      ensures |row| == 8 && Field(buf, base + 4 * i, 4) == Ok(row[i])
    {
      FieldOfRow(PHDR, buf, base, row, i);
      assert Off(PHDR, i) == 4 * i;
    }
  }

  lemma RowFields10(buf: Bytes, base: nat, row: Row)
    requires UnpackFrom(SHDR, buf, base) == Ok(row)
    ensures |row| == 10 && forall i :: 0 <= i < 10 ==> Field(buf, base + 4 * i, 4) == Ok(row[i])
  {
    hide UnpackFrom, Field, Off;
    ShdrOffsets();
    forall i | 0 <= i < 10
      ensures |row| == 10 && Field(buf, base + 4 * i, 4) == Ok(row[i])
    {
      FieldOfRow(SHDR, buf, base, row, i);
    }
  }

  /** Section header k. */
  lemma SectionIsRead(buf: Bytes, e: Elf, k: nat)
    requires |buf| >= 0x34 && Parsed(buf) == Ok(e) && k < |e.shs|
    ensures |e.shs| == ReadU16(buf, 0x30)
    ensures var sh, base := e.shs[k], ShBase(buf, k);
            && Field(buf, base + 4, 4) == Ok(sh.kind) && Field(buf, base + 8, 4) == Ok(sh.flags)
            && Field(buf, base + 12, 4) == Ok(sh.addr) && Field(buf, base + 16, 4) == Ok(sh.off)
            && Field(buf, base + 20, 4) == Ok(sh.size) && Field(buf, base + 24, 4) == Ok(sh.link)
            && Field(buf, base + 28, 4) == Ok(sh.info) && Field(buf, base + 36, 4) == Ok(sh.entsize)
  {
    hide ReadRows, ReadU16, ReadU32, Field, UnpackFrom, Parsed, CString;
    var off, size, n := ReadU32(buf, 0x20), ReadU16(buf, 0x2E), ReadU16(buf, 0x30);
    ParsedTables(buf, e);
    RowIsRead(SHDR, buf, off, size, n, k);
    RowFields10(buf, off + k * size, ReadRows(SHDR, buf, off, size, n).value[k]);
  }

  // ----- segments, names, symbols -----

  /** The text segment is the first loadable one with the execute flag. */
  lemma {:induction false} TextIsFirst(phs: seq<Ph>, k: nat)
    requires k <= |phs| && forall i :: 0 <= i < k ==> phs[i].kind != 1 || phs[i].flags % 2 == 0
    ensures k < |phs| && phs[k].kind == 1 && phs[k].flags % 2 == 1 ==>
              FirstText(phs) == Ok(Segment(phs[k].off, phs[k].vaddr, phs[k].filesz))
    ensures k == |phs| ==> FirstText(phs) == Err
    decreases k
  {
    if k > 0 {
      TextIsFirst(phs[1..], k - 1);
    }
  }

  /** A name runs to the first NUL at or after its offset; without one its last byte is lost. */
  lemma {:induction false} NameEnds(s: Bytes, n: nat, e: nat)
    requires n <= e <= |s| && n < |s| && (forall i :: n <= i < e ==> s[i] != 0) && (e < |s| ==> s[e] == 0)
    ensures CString(s, n) == if e < |s| then s[n..e] else s[n..|s| - 1]
  {
    NulIsAt(s, n, e);
  }

  lemma {:induction false} NulIsAt(s: Bytes, n: nat, e: nat)
    requires n <= e <= |s| && (forall i :: n <= i < e ==> s[i] != 0) && (e < |s| ==> s[e] == 0)
    ensures FindNul(s, n) == if e < |s| then e else -1
    decreases e - n
  {
    if n < e {
      NulIsAt(s, n + 1, e);
    }
  }

  /** The symbols of a section are its entries of function type, in order. */
  lemma {:induction false} FunctionsInOrder(rows: seq<Row>, strs: Bytes, row: Row)
    requires Wide(rows, 6) && |row| == 6
    ensures Wide(rows + [row], 6)
    ensures FuncsOf([], strs) == []
    ensures FuncsOf(rows + [row], strs)
         == FuncsOf(rows, strs) + (if row[3] % 16 == 2 then [Func(row[1], row[2], CString(strs, row[0]))] else [])
  {
    hide CString;
    assert (rows + [row])[..|rows + [row]| - 1] == rows;
  }
}
