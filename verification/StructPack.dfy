/** Python's `struct.pack` and `struct.unpack_from` for big-endian unsigned fields, and tables of packed rows. */
module StructPack {
  import opened BigEndian

  datatype Result<T> = Ok(value: T) | Err

  function Total(ws: seq<nat>): nat { if ws == [] then 0 else ws[0] + Total(ws[1..]) }

  /** Where field i starts. */
  function Off(ws: seq<nat>, i: nat): nat
    requires i <= |ws|
  {
    if i == 0 then 0 else ws[0] + Off(ws[1..], i - 1)
  }

  lemma {:induction false} OffStep(ws: seq<nat>, i: nat)
    requires i < |ws|
    ensures Off(ws, i + 1) == Off(ws, i) + ws[i]
  {
    if i > 0 {
      OffStep(ws[1..], i - 1);
    }
  }

  /** struct.pack raises when a value does not fit its field. */
  predicate InRange(ws: seq<nat>, vs: seq<nat>) {
    |ws| == |vs| && forall i :: 0 <= i < |ws| ==> vs[i] < Pow256(ws[i])
  }

  function Pack(ws: seq<nat>, vs: seq<nat>): (b: Bytes)
    requires |ws| == |vs|
    ensures |b| == Total(ws)
  {
    if ws == [] then [] else Encode(vs[0], ws[0]) + Pack(ws[1..], vs[1..])
  }

  function Unpack(ws: seq<nat>, b: Bytes): (vs: seq<nat>)
    requires |b| == Total(ws)
    ensures |vs| == |ws|
  {
    if ws == [] then [] else [Decode(b[..ws[0]])] + Unpack(ws[1..], b[ws[0]..])
  }

  /** struct.unpack_from: an error when the buffer is too short. */
  function UnpackFrom(ws: seq<nat>, buf: Bytes, off: nat): (r: Result<seq<nat>>)
    ensures r.Ok? ==> |r.value| == |ws|
  {
    if off + Total(ws) <= |buf| then Ok(Unpack(ws, buf[off..off + Total(ws)])) else Err
  }

  /** One field: be_u16 and be_u32. */
  function Field(buf: Bytes, off: nat, n: nat): Result<nat> {
    if off + n <= |buf| then Ok(Decode(buf[off..off + n])) else Err
  }

  /** `part` lies in the buffer at an offset. */
  predicate At(buf: Bytes, off: nat, part: Bytes) { off + |part| <= |buf| && buf[off..off + |part|] == part }

  lemma {:induction false} UnpackPack(ws: seq<nat>, vs: seq<nat>)
    requires InRange(ws, vs)
    ensures Unpack(ws, Pack(ws, vs)) == vs
  {
    if ws != [] {
      var b := Pack(ws, vs);
      assert b[..ws[0]] == Encode(vs[0], ws[0]) && b[ws[0]..] == Pack(ws[1..], vs[1..]);
      DecodeEncode(vs[0], ws[0]);
      UnpackPack(ws[1..], vs[1..]);
    }
  }

  lemma UnpackAt(buf: Bytes, off: nat, ws: seq<nat>, vs: seq<nat>)
    requires InRange(ws, vs) && At(buf, off, Pack(ws, vs))
    ensures UnpackFrom(ws, buf, off) == Ok(vs)
  {
    UnpackPack(ws, vs);
  }

  lemma AtParts(buf: Bytes, off: nat, a: Bytes, b: Bytes)
    requires At(buf, off, a + b)
    ensures At(buf, off, a) && At(buf, off + |a|, b)
  {
    var whole := buf[off..off + |a + b|];
    assert buf[off..off + |a|] == whole[..|a|] == a;
    assert buf[off + |a|..off + |a| + |b|] == whole[|a|..] == b;
  }

  lemma FieldEncoded(buf: Bytes, off: nat, v: nat, n: nat)
    requires v < Pow256(n) && At(buf, off, Encode(v, n))
    ensures Field(buf, off, n) == Ok(v)
  {
    DecodeEncode(v, n);
  }

  lemma {:induction false} FieldAt(buf: Bytes, off: nat, ws: seq<nat>, vs: seq<nat>, i: nat)
    requires InRange(ws, vs) && At(buf, off, Pack(ws, vs)) && i < |ws|
    ensures Field(buf, off + Off(ws, i), ws[i]) == Ok(vs[i])
    decreases |ws|
  {
    hide At;
    AtParts(buf, off, Encode(vs[0], ws[0]), Pack(ws[1..], vs[1..]));
    if i == 0 {
      FieldEncoded(buf, off, vs[0], ws[0]);
    } else {
      FieldAt(buf, off + ws[0], ws[1..], vs[1..], i - 1);
    }
  }

  // ----- tables -----

  type Row = seq<nat>

  predicate Rows(ws: seq<nat>, rows: seq<Row>) { forall i :: 0 <= i < |rows| ==> InRange(ws, rows[i]) }

  function Records(ws: seq<nat>, rows: seq<Row>): Bytes
    requires Rows(ws, rows)
    decreases |rows|
  {
    if rows == [] then [] else Records(ws, rows[..|rows| - 1]) + Pack(ws, rows[|rows| - 1])
  }

  /** The reading loop: row i is unpacked at off + i * size. */
  function ReadRows(ws: seq<nat>, buf: Bytes, off: nat, size: nat, n: nat): Result<seq<Row>>
    decreases n
  {
    if n == 0 then Ok([])
    else
      match ReadRows(ws, buf, off, size, n - 1)
      case Err => Err
      case Ok(rows) =>
        match UnpackFrom(ws, buf, off + (n - 1) * size)
        case Err => Err
        case Ok(row) => Ok(rows + [row])
  }

  method UnpackTable(ws: seq<nat>, buf: Bytes, off: nat, size: nat, n: nat) returns (r: Result<seq<Row>>)
    ensures r == ReadRows(ws, buf, off, size, n)
  {
    var rows: seq<Row> := [];
    var i := 0;
    while i < n
      invariant 0 <= i <= n
      invariant ReadRows(ws, buf, off, size, i) == Ok(rows)
    {
      var row := UnpackFrom(ws, buf, off + i * size);
      if row.Err? {
        ErrorStays(ws, buf, off, size, i + 1, n);
        return Err;
      }
      rows := rows + [row.value];
      i := i + 1;
    }
    return Ok(rows);
  }

  lemma {:induction false} ErrorStays(ws: seq<nat>, buf: Bytes, off: nat, size: nat, i: nat, n: nat)
    requires i <= n && ReadRows(ws, buf, off, size, i) == Err
    ensures ReadRows(ws, buf, off, size, n) == Err
  {
    if i < n {
      ErrorStays(ws, buf, off, size, i, n - 1);
    }
  }

  lemma {:induction false} RecordsLength(ws: seq<nat>, rows: seq<Row>)
    requires Rows(ws, rows)
    ensures |Records(ws, rows)| == |rows| * Total(ws)
  {
    if rows != [] {
      RecordsLength(ws, rows[..|rows| - 1]);
      OneMore(|rows| - 1, Total(ws));
    }
  }

  lemma OneMore(n: nat, size: nat)
    ensures n * size + size == (n + 1) * size
  {
  }

  lemma RowsPrefix(ws: seq<nat>, rows: seq<Row>)
    requires Rows(ws, rows)
    ensures rows != [] ==> Rows(ws, rows[..|rows| - 1]) && InRange(ws, rows[|rows| - 1])
    ensures rows != [] ==> |ws| == |rows[|rows| - 1]|
  {
  }

  lemma RecordsSplit(ws: seq<nat>, rows: seq<Row>)
    requires rows != [] && Rows(ws, rows) && Rows(ws, rows[..|rows| - 1]) && |ws| == |rows[|rows| - 1]|
    ensures Records(ws, rows) == Records(ws, rows[..|rows| - 1]) + Pack(ws, rows[|rows| - 1])
  {
  }

  lemma LastRow(buf: Bytes, off: nat, ws: seq<nat>, rows: seq<Row>)
    requires rows != [] && Rows(ws, rows) && At(buf, off, Records(ws, rows))
    ensures var last := |rows| - 1;
            Rows(ws, rows[..last]) && At(buf, off, Records(ws, rows[..last]))
            && At(buf, off + last * Total(ws), Pack(ws, rows[last]))
  {
    hide At, Pack, Total, Rows, InRange, Records;
    RowsPrefix(ws, rows);
    RecordsSplit(ws, rows);
    var last := |rows| - 1;
    var before := Records(ws, rows[..last]);
    AtParts(buf, off, before, Pack(ws, rows[last]));
    RecordsLength(ws, rows[..last]);
    assert |before| == last * Total(ws);
  }

  /** Reading a table gives back the rows it was written from. */
  lemma {:induction false} RowsAt(buf: Bytes, off: nat, ws: seq<nat>, rows: seq<Row>)
    requires Rows(ws, rows) && At(buf, off, Records(ws, rows))
    ensures ReadRows(ws, buf, off, Total(ws), |rows|) == Ok(rows)
  {
    hide At, UnpackFrom, Pack, Records, Total, Rows;
    RowsPrefix(ws, rows);
    if rows != [] {
      var last := |rows| - 1;
      LastRow(buf, off, ws, rows);
      RowsAt(buf, off, ws, rows[..last]);
      UnpackAt(buf, off + last * Total(ws), ws, rows[last]);
      assert rows == rows[..last] + [rows[last]];
    }
  }
}
