/**
 The remote-table frame "BRS1": how the server writes a table of cells, how the client reads one
 back, and the proof that reading and writing are exact inverses.
 */
module RemoteFrame {
  import opened Machine

  const MAX_BYTES: nat := 8 * 1024 * 1024
  const MAX_ROWS: nat := 4096
  const MAX_COLUMNS: nat := 256
  const HEADER_BYTES: nat := 12

  // ---------------------------------------------------------------- words

  function Le32(n: u32): (bytes: seq<byte>)
    ensures |bytes| == 4
  {
    LittleEndian(n, 4)
  }

  function Le64(n: u64): (bytes: seq<byte>)
    ensures |bytes| == 8
  {
    LittleEndian(n, 8)
  }

  /** `read32`: four bytes, least significant first; the shifted bytes do not overlap. */
  function Read32(data: seq<byte>, at: nat): u32
    requires at + 4 <= |data|
  {
    FromLittleEndianInverts(data[at..at + 4]);
    WordBounds();
    FromLittleEndian(data[at..at + 4])
  }

  function Read64(data: seq<byte>, at: nat): u64
    requires at + 8 <= |data|
  {
    FromLittleEndianInverts(data[at..at + 8]);
    WordBounds();
    FromLittleEndian(data[at..at + 8])
  }

  /** `read32` is its four bytes, each shifted by eight bits more than the one before. */
  lemma Read32Bytes(data: seq<byte>, at: nat)
    requires at + 4 <= |data|
    ensures var b0: int, b1: int, b2: int, b3: int := data[at], data[at + 1], data[at + 2], data[at + 3];
            Read32(data, at) == b0 + 256 * b1 + 65536 * b2 + 16777216 * b3
  {
    var w0 := data[at..at + 4];
    var w1, w2, w3 := w0[1..], w0[2..], w0[3..];
    assert w1[1..] == w2 && w2[1..] == w3 && w3[1..] == [];
    assert FromLittleEndian(w3) == w3[0];
    assert FromLittleEndian(w2) == w2[0] + 256 * FromLittleEndian(w3);
    assert FromLittleEndian(w1) == w1[0] + 256 * FromLittleEndian(w2);
    assert FromLittleEndian(w0) == w0[0] + 256 * FromLittleEndian(w1);
  }

  /** `read64` is the two `read32` halves, low word first. */
  lemma Read64Halves(data: seq<byte>, at: nat)
    requires at + 8 <= |data|
    ensures Read64(data, at) == Read32(data, at) + 0x1_0000_0000 * Read32(data, at + 4)
  {
    WordBounds();
    assert data[at..at + 8] == data[at..at + 4] + data[at + 4..at + 8];
    FromLittleEndianConcat(data[at..at + 4], data[at + 4..at + 8]);
  }

  lemma Read32Exact(data: seq<byte>, at: nat, n: u32)
    requires at + 4 <= |data|
    ensures data[at..at + 4] == Le32(n) <==> Read32(data, at) == n
  {
    WordBounds();
    LittleEndianInverts(n, 4);
    FromLittleEndianInverts(data[at..at + 4]);
  }

  lemma Read64Exact(data: seq<byte>, at: nat, n: u64)
    requires at + 8 <= |data|
    ensures data[at..at + 8] == Le64(n) <==> Read64(data, at) == n
  {
    WordBounds();
    LittleEndianInverts(n, 8);
    FromLittleEndianInverts(data[at..at + 8]);
  }

  /** The signed reading of 64 bits, as the C `memcpy` into a signed integer gives it. */
  function Signed(bits: u64): i64 {
    if bits < 0x8000_0000_0000_0000 then bits else bits - 0x1_0000_0000_0000_0000
  }

  function Unsigned(n: i64): u64 {
    TwosComplement(n, 0x1_0000_0000_0000_0000)
  }

  // ---------------------------------------------------------------- cells

  datatype Cell =
    | NullCell
    | IntegerCell(integer: i64)
    | RealCell(bits: u64)
    | TextCell(text: seq<byte>)
    | BlobCell(blob: seq<byte>)

  /** A length has to fit the 32-bit count in front of the payload. */
  predicate Representable(c: Cell) {
    match c
    case TextCell(text) => |text| < 0x1_0000_0000
    case BlobCell(blob) => |blob| < 0x1_0000_0000
    case _ => true
  }

  function EncodeCell(c: Cell): (bytes: seq<byte>)
    requires Representable(c)
    ensures |bytes| > 0
  {
    match c
    case NullCell => [0]
    case IntegerCell(n) => [1] + Le64(Unsigned(n))
    case RealCell(bits) => [2] + Le64(bits)
    case TextCell(text) => [3] + Le32(|text|) + text
    case BlobCell(blob) => [4] + Le32(|blob|) + blob
  }

  /** The cell at an offset and the offset behind it, if the bytes there are a whole cell. */
  function ReadCell(data: seq<byte>, at: nat): Option<(Cell, nat)> {
    if at >= |data| then None
    else if data[at] == 0 then Some((NullCell, at + 1))
    else if data[at] == 1 || data[at] == 2 then
      if |data| - at < 9 then None
      else if data[at] == 1 then Some((IntegerCell(Signed(Read64(data, at + 1))), at + 9))
      else Some((RealCell(Read64(data, at + 1)), at + 9))
    else if data[at] == 3 || data[at] == 4 then
      if |data| - at < 5 || Read32(data, at + 1) > |data| - at - 5 then None
      else
        var length := Read32(data, at + 1);
        var payload := data[at + 5..at + 5 + length];
        Some((if data[at] == 3 then TextCell(payload) else BlobCell(payload), at + 5 + length))
    else None
  }

  /** Reading accepts exactly the encodings of cells, and yields the cell encoded there. */
  lemma ReadCellExact(data: seq<byte>, at: nat, c: Cell, next: nat)
    ensures ReadCell(data, at) == Some((c, next))
            <==> at < next <= |data| && Representable(c) && data[at..next] == EncodeCell(c)
  {
    if at < |data| {
      if ReadCell(data, at) == Some((c, next)) {
        ReadCellEncodes(data, at, c, next);
      }
      if at < next <= |data| && Representable(c) && data[at..next] == EncodeCell(c) {
        ReadCellDecodes(data, at, c, next);
      }
    }
  }

  lemma ReadCellEncodes(data: seq<byte>, at: nat, c: Cell, next: nat)
    requires ReadCell(data, at) == Some((c, next))
    ensures at < next <= |data| && Representable(c) && data[at..next] == EncodeCell(c)
  {
    assert data[at..next] == [data[at]] + data[at + 1..next];
    match c
    case NullCell =>
    case IntegerCell(n) => Read64Exact(data, at + 1, Unsigned(n));
    case RealCell(bits) => Read64Exact(data, at + 1, bits);
    case TextCell(text) => PayloadEncodes(data, at, next, text);
    case BlobCell(blob) => PayloadEncodes(data, at, next, blob);
  }

  lemma PayloadEncodes(data: seq<byte>, at: nat, next: nat, payload: seq<byte>)
    requires at + 5 <= next <= |data| && payload == data[at + 5..next] && Read32(data, at + 1) == next - at - 5
    ensures |payload| < 0x1_0000_0000 && data[at..next] == [data[at]] + Le32(|payload|) + payload
  {
    Read32Exact(data, at + 1, |payload|);
    assert data[at..next] == [data[at]] + data[at + 1..at + 5] + data[at + 5..next];
  }

  lemma ReadCellDecodes(data: seq<byte>, at: nat, c: Cell, next: nat)
    requires at < next <= |data| && Representable(c) && data[at..next] == EncodeCell(c)
    ensures ReadCell(data, at) == Some((c, next))
  {
    var bytes := data[at..next];
    assert data[at] == bytes[0];
    match c
    case NullCell =>
    case IntegerCell(n) =>
      assert data[at + 1..at + 9] == bytes[1..] == Le64(Unsigned(n));
      Read64Exact(data, at + 1, Unsigned(n));
    case RealCell(bits) =>
      assert data[at + 1..at + 9] == bytes[1..] == Le64(bits);
      Read64Exact(data, at + 1, bits);
    case TextCell(text) => PayloadDecodes(data, at, 3, text, next);
    case BlobCell(blob) => PayloadDecodes(data, at, 4, blob, next);
  }

  lemma PayloadDecodes(data: seq<byte>, at: nat, tag: byte, payload: seq<byte>, next: nat)
    requires at < next <= |data| && |payload| < 0x1_0000_0000
    requires data[at..next] == [tag] + Le32(|payload|) + payload
    ensures next == at + 5 + |payload| && Read32(data, at + 1) == |payload| && data[at + 5..next] == payload
  {
    var bytes := data[at..next];
    var count := Le32(|payload|);
    assert |bytes| == 5 + |payload|;
    assert data[at + 1..at + 5] == count by {
      assert forall i | 0 <= i < 4 :: data[at + 1..at + 5][i] == bytes[1 + i] == count[i];
    }
    assert data[at + 5..next] == payload by {
      assert forall i | 0 <= i < |payload| :: data[at + 5..next][i] == bytes[5 + i] == payload[i];
    }
    Read32Exact(data, at + 1, |payload|);
  }

  // ---------------------------------------------------------------- rows and tables

  type Row = seq<Cell>

  predicate RowOk(row: Row) {
    row != [] ==> RowOk(row[..|row| - 1]) && Representable(row[|row| - 1])
  }

  predicate TableOk(rows: seq<Row>, columns: nat) {
    rows != [] ==>
      var last := rows[|rows| - 1];
      TableOk(rows[..|rows| - 1], columns) && |last| == columns && RowOk(last)
  }

  ghost function EncodeRow(row: Row): seq<byte>
    requires RowOk(row)
  {
    if row == [] then [] else EncodeRow(row[..|row| - 1]) + EncodeCell(row[|row| - 1])
  }

  ghost function EncodeRows(rows: seq<Row>, columns: nat): seq<byte>
    requires TableOk(rows, columns)
  {
    if rows == [] then [] else EncodeRows(rows[..|rows| - 1], columns) + EncodeRow(rows[|rows| - 1])
  }

  const MAGIC: seq<byte> := [0x42, 0x52, 0x53, 0x31]

  ghost function EncodeFrame(rows: seq<Row>, columns: nat): seq<byte>
    requires TableOk(rows, columns) && columns <= MAX_COLUMNS && |rows| <= MAX_ROWS
  {
    MAGIC + Le32(columns) + Le32(|rows|) + EncodeRows(rows, columns)
  }

  /** The first `n` cells from an offset, and the offset behind them. */
  ghost function ReadRow(data: seq<byte>, at: nat, n: nat): Option<(Row, nat)> {
    if n == 0 then Some(([], at))
    else
      match ReadRow(data, at, n - 1)
      case None => None
      case Some((row, next)) =>
        match ReadCell(data, next)
        case None => None
        case Some((cell, end)) => Some((row + [cell], end))
  }

  ghost function ReadRows(data: seq<byte>, at: nat, columns: nat, n: nat): Option<(seq<Row>, nat)> {
    if n == 0 then Some(([], at))
    else
      match ReadRows(data, at, columns, n - 1)
      case None => None
      case Some((rows, next)) =>
        match ReadRow(data, next, columns)
        case None => None
        case Some((row, end)) => Some((rows + [row], end))
  }

  /** The one table a frame holds: right magic, column count and row bound, and no byte left over. */
  ghost function ReadFrame(data: seq<byte>, columns: nat): Option<seq<Row>> {
    if |data| < HEADER_BYTES || data[..4] != MAGIC || Read32(data, 4) != columns || Read32(data, 8) > MAX_ROWS then None
    else
      match ReadRows(data, HEADER_BYTES, columns, Read32(data, 8))
      case None => None
      case Some((rows, end)) => if end == |data| then Some(rows) else None
  }

  lemma EncodeRowSnoc(front: Row, cell: Cell)
    requires RowOk(front) && Representable(cell)
    ensures RowOk(front + [cell]) && EncodeRow(front + [cell]) == EncodeRow(front) + EncodeCell(cell)
  {
    assert (front + [cell])[..|front|] == front;
  }

  lemma EncodeRowsSnoc(front: seq<Row>, row: Row, columns: nat)
    requires TableOk(front, columns) && RowOk(row) && |row| == columns
    ensures TableOk(front + [row], columns)
    ensures EncodeRows(front + [row], columns) == EncodeRows(front, columns) + EncodeRow(row)
  {
    assert (front + [row])[..|front|] == front;
  }

  lemma Join(data: seq<byte>, at: nat, next: nat, end: nat)
    requires at <= next <= end <= |data|
    ensures data[at..end] == data[at..next] + data[next..end]
  {
  }

  lemma SplitAt(data: seq<byte>, at: nat, next: nat, end: nat, a: seq<byte>, b: seq<byte>)
    requires at <= end <= |data| && data[at..end] == a + b && next == at + |a|
    ensures next <= end && data[at..next] == a && data[next..end] == b
  {
    assert data[at..next] == data[at..end][..|a|];
    assert data[next..end] == data[at..end][|a|..];
  }

  lemma {:induction false} ReadRowEncodes(data: seq<byte>, at: nat, n: nat, row: Row, end: nat)
    requires at <= |data| && ReadRow(data, at, n) == Some((row, end))
    ensures |row| == n && RowOk(row) && at <= end <= |data| && data[at..end] == EncodeRow(row)
  {
    if n > 0 {
      var (front, next) := ReadRow(data, at, n - 1).value;
      var cell := ReadCell(data, next).value.0;
      ReadRowEncodes(data, at, n - 1, front, next);
      ReadCellEncodes(data, next, cell, end);
      EncodeRowSnoc(front, cell);
      Join(data, at, next, end);
    }
  }

  lemma {:induction false} ReadRowDecodes(data: seq<byte>, at: nat, n: nat, row: Row, end: nat)
    requires |row| == n && RowOk(row) && at <= end <= |data| && data[at..end] == EncodeRow(row)
    ensures ReadRow(data, at, n) == Some((row, end))
  {
    if n > 0 {
      var front, cell := row[..n - 1], row[n - 1];
      var head, tail := EncodeRow(front), EncodeCell(cell);
      assert EncodeRow(row) == head + tail;
      SplitLast(row);
      var next := at + |head|;
      SplitAt(data, at, next, end, head, tail);
      ReadRowDecodes(data, at, n - 1, front, next);
      ReadCellDecodes(data, next, cell, end);
    }
  }

  lemma {:induction false} ReadRowsEncodes(data: seq<byte>, at: nat, columns: nat, n: nat, rows: seq<Row>, end: nat)
    requires at <= |data| && ReadRows(data, at, columns, n) == Some((rows, end))
    ensures |rows| == n && TableOk(rows, columns) && at <= end <= |data|
    ensures data[at..end] == EncodeRows(rows, columns)
  {
    if n > 0 {
      var (front, next) := ReadRows(data, at, columns, n - 1).value;
      var row := ReadRow(data, next, columns).value.0;
      ReadRowsEncodes(data, at, columns, n - 1, front, next);
      ReadRowEncodes(data, next, columns, row, end);
      EncodeRowsSnoc(front, row, columns);
      Join(data, at, next, end);
    }
  }

  lemma {:induction false} ReadRowsDecodes(data: seq<byte>, at: nat, columns: nat, n: nat, rows: seq<Row>, end: nat)
    requires |rows| == n && TableOk(rows, columns) && at <= end <= |data| && data[at..end] == EncodeRows(rows, columns)
    ensures ReadRows(data, at, columns, n) == Some((rows, end))
  {
    if n > 0 {
      var front, row := rows[..n - 1], rows[n - 1];
      var head, tail := EncodeRows(front, columns), EncodeRow(row);
      assert EncodeRows(rows, columns) == head + tail;
      SplitLast(rows);
      var next := at + |head|;
      SplitAt(data, at, next, end, head, tail);
      ReadRowsDecodes(data, at, columns, n - 1, front, next);
      ReadRowDecodes(data, next, columns, row, end);
    }
  }

  lemma FrameParts(rows: seq<Row>, columns: nat)
    requires TableOk(rows, columns) && columns <= MAX_COLUMNS && |rows| <= MAX_ROWS
    ensures var frame := EncodeFrame(rows, columns);
            && |frame| == HEADER_BYTES + |EncodeRows(rows, columns)|
            && frame[..4] == MAGIC && frame[4..8] == Le32(columns) && frame[8..12] == Le32(|rows|)
            && frame[12..] == EncodeRows(rows, columns)
  {
  }

  lemma HeaderJoin(data: seq<byte>)
    requires |data| >= HEADER_BYTES
    ensures data == data[..4] + data[4..8] + data[8..12] + data[12..|data|]
  {
  }

  /** A byte string is a frame of a table exactly when it is that table's encoding. */
  lemma ReadFrameExact(data: seq<byte>, columns: nat, rows: seq<Row>)
    requires columns <= MAX_COLUMNS
    ensures ReadFrame(data, columns) == Some(rows)
            <==> TableOk(rows, columns) && |rows| <= MAX_ROWS && data == EncodeFrame(rows, columns)
  {
    if ReadFrame(data, columns) == Some(rows) {
      ReadRowsEncodes(data, HEADER_BYTES, columns, Read32(data, 8), rows, |data|);
      Read32Exact(data, 4, columns);
      Read32Exact(data, 8, |rows|);
      HeaderJoin(data);
    }
    if TableOk(rows, columns) && |rows| <= MAX_ROWS && data == EncodeFrame(rows, columns) {
      FrameParts(rows, columns);
      Read32Exact(data, 4, columns);
      Read32Exact(data, 8, |rows|);
      assert data[12..|data|] == data[12..];
      ReadRowsDecodes(data, HEADER_BYTES, columns, |rows|, rows, |data|);
    }
  }
}
