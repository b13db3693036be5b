/**
 The server side of a remote scan: engine values become frame cells, or the scan is refused when
 SQLite could not hold one of them losslessly or a limit is exceeded.
 */
module RemoteServer {
  import opened Machine
  import opened RemoteFrame
  import opened RemoteCursor

  datatype EngineValue =
    | NullValue
    | BooleanValue(truth: bool)
    | Int64Value(integer: i64)
    | UInt64Value(natural: u64)
    | Float64Value(bits: u64)
    | DecimalValue
    | TextValue(text: seq<byte>)
    | InvalidTextValue
    | BinaryValue(binary: seq<byte>)

  type EngineRow = seq<EngineValue>

  datatype ScanFailure = Unrepresentable | FrameLimit | ResultLimit

  /** IEEE 754 binary64: all exponent bits set and a nonzero fraction. */
  predicate IsNaN(bits: u64) {
    bits / 0x10_0000_0000_0000 % 2048 == 2047 && bits % 0x10_0000_0000_0000 != 0
  }

  /** The SQLite cell that holds a value losslessly, if there is one. */
  function Lossless(v: EngineValue): Option<Cell> {
    match v
    case NullValue => Some(NullCell)
    case BooleanValue(truth) => Some(IntegerCell(if truth then 1 else 0))
    case Int64Value(n) => Some(IntegerCell(n))
    case UInt64Value(n) => if n < 0x8000_0000_0000_0000 then Some(IntegerCell(n)) else None
    case Float64Value(bits) => if IsNaN(bits) then None else Some(RealCell(bits))
    case TextValue(text) => Some(TextCell(text))
    case BinaryValue(binary) => Some(BlobCell(binary))
    case DecimalValue | InvalidTextValue => None
  }

  /** Nothing is lost: among values of one type the cell determines the value. */
  lemma LosslessDetermines(v: EngineValue, w: EngineValue)
    requires Lossless(v).Some? && Lossless(v) == Lossless(w)
    requires (v.BooleanValue? <==> w.BooleanValue?) && (v.UInt64Value? <==> w.UInt64Value?)
    ensures v == w
  {
  }

  /** The number a value stands for, where it is an integer or a truth value. */
  function NumberOf(v: EngineValue): Option<int> {
    match v
    case BooleanValue(truth) => if truth then Some(1) else Some(0)
    case Int64Value(n) => Some(n)
    case UInt64Value(n) => Some(n)
    case _ => None
  }

  /** The cell stands for the value: the same number, bits or bytes in the type SQLite has for them. */
  predicate StandsFor(c: Cell, v: EngineValue) {
    match c
    case NullCell => v.NullValue?
    case IntegerCell(n) => NumberOf(v) == Some(n)
    case RealCell(bits) => v == Float64Value(bits) && !IsNaN(bits)
    case TextCell(text) => v == TextValue(text)
    case BlobCell(blob) => v == BinaryValue(blob)
  }

  /** The lossless cell is the one that stands for the value; a value without one is sent as no cell at all. */
  lemma LosslessMeaning(v: EngineValue, c: Cell)
    ensures Lossless(v) == Some(c) <==> StandsFor(c, v)
    ensures Lossless(v).Some? ==> StandsFor(Lossless(v).value, v)
  {
  }

  ghost function CellsOf(values: EngineRow): (row: Option<Row>)
    ensures row.Some? ==> |row.value| == |values| && RowOk(row.value)
  {
    if values == [] then Some([])
    else
      match (CellsOf(values[..|values| - 1]), Lossless(values[|values| - 1]))
      case (Some(front), Some(cell)) =>
        if Representable(cell) then EncodeRowSnoc(front, cell); Some(front + [cell]) else None
      case _ => None
  }

  /** The table SQLite should see: the lossless cell of every value, if all values have one. */
  ghost function TableOf(table: seq<EngineRow>, columns: nat): (rows: Option<seq<Row>>)
    ensures rows.Some? ==> |rows.value| == |table| && TableOk(rows.value, columns)
  {
    if table == [] then Some([])
    else
      match (TableOf(table[..|table| - 1], columns), CellsOf(table[|table| - 1]))
      case (Some(front), Some(row)) =>
        if |row| == columns then EncodeRowsSnoc(front, row, columns); Some(front + [row]) else None
      case _ => None
  }

  /** SQLite can hold the value, and its length fits the frame's 32-bit count. */
  predicate Sendable(v: EngineValue) {
    Lossless(v).Some? && Representable(Lossless(v).value)
  }

  predicate AllSendable(values: EngineRow) {
    forall i | 0 <= i < |values| :: Sendable(values[i])
  }

  lemma {:induction false} RowSendable(values: EngineRow)
    ensures CellsOf(values).Some? <==> AllSendable(values)
  {
    if values != [] {
      var n := |values| - 1;
      RowSendable(values[..n]);
      AllSendableNext(values, n);
    }
  }

  lemma AllSendableNext(values: EngineRow, n: nat)
    requires |values| == n + 1
    ensures AllSendable(values) <==> AllSendable(values[..n]) && Sendable(values[n])
  {
    assert forall i | 0 <= i < n :: values[..n][i] == values[i];
  }

  lemma {:induction false} CellsOfAt(values: EngineRow, i: nat)
    requires i < |values| && CellsOf(values).Some?
    ensures Lossless(values[i]) == Some(CellsOf(values).value[i]) && Representable(CellsOf(values).value[i])
  {
    var n := |values| - 1;
    if i < n {
      CellsOfAt(values[..n], i);
    }
  }

  predicate IsLosslessRow(values: EngineRow, row: Row) {
    |row| == |values| && forall i | 0 <= i < |row| :: Lossless(values[i]) == Some(row[i]) && Representable(row[i])
  }

  lemma CellsAreLossless(values: EngineRow)
    requires CellsOf(values).Some?
    ensures IsLosslessRow(values, CellsOf(values).value)
  {
    forall i | 0 <= i < |values|
      ensures Lossless(values[i]) == Some(CellsOf(values).value[i]) && Representable(CellsOf(values).value[i])
    {
      CellsOfAt(values, i);
    }
  }

  lemma LosslessRowIsUnique(values: EngineRow, row: Row, other: Row)
    requires IsLosslessRow(values, row) && IsLosslessRow(values, other)
    ensures row == other
  {
    forall i | 0 <= i < |row| ensures row[i] == other[i] {
      assert Some(row[i]) == Lossless(values[i]) == Some(other[i]);
    }
  }

  /** The cells of a row are the lossless cell of each value, if all values have one. */
  lemma CellsOfMeaning(values: EngineRow, row: Row)
    ensures CellsOf(values) == Some(row) <==> IsLosslessRow(values, row)
  {
    if CellsOf(values).Some? {
      CellsAreLossless(values);
    }
    if IsLosslessRow(values, row) {
      RowSendable(values);
      CellsAreLossless(values);
      LosslessRowIsUnique(values, CellsOf(values).value, row);
    }
  }

  lemma {:induction false} TableOfAt(table: seq<EngineRow>, columns: nat, i: nat)
    requires i < |table| && TableOf(table, columns).Some?
    ensures CellsOf(table[i]) == Some(TableOf(table, columns).value[i]) && |TableOf(table, columns).value[i]| == columns
  {
    var n := |table| - 1;
    if i < n {
      TableOfAt(table[..n], columns, i);
    }
  }

  lemma {:induction false} TableOfTotal(table: seq<EngineRow>, columns: nat)
    requires forall i | 0 <= i < |table| :: |table[i]| == columns && CellsOf(table[i]).Some?
    ensures TableOf(table, columns).Some?
  {
    if table != [] {
      var n := |table| - 1;
      TableOfTotal(table[..n], columns);
    }
  }

  predicate TableSendable(table: seq<EngineRow>) {
    forall i | 0 <= i < |table| :: AllSendable(table[i])
  }

  /** A table has a lossless form exactly if every one of its values has one. */
  lemma TableOfDefined(table: seq<EngineRow>, columns: nat)
    requires forall i | 0 <= i < |table| :: |table[i]| == columns
    ensures TableOf(table, columns).Some? <==> TableSendable(table)
  {
    forall i | 0 <= i < |table| ensures CellsOf(table[i]).Some? <==> AllSendable(table[i]) {
      RowSendable(table[i]);
    }
    if TableOf(table, columns).Some? {
      forall i | 0 <= i < |table| ensures AllSendable(table[i]) {
        TableOfAt(table, columns, i);
      }
    }
    if TableSendable(table) {
      TableOfTotal(table, columns);
    }
  }

  ghost predicate RowFits(values: EngineRow, room: int) {
    CellsOf(values).Some? && |EncodeRow(CellsOf(values).value)| <= room
  }

  ghost predicate TableFits(table: seq<EngineRow>, columns: nat, room: int) {
    TableOf(table, columns).Some? && |EncodeRows(TableOf(table, columns).value, columns)| <= room
  }

  lemma {:induction false} RowPrefixFits(values: EngineRow, n: nat, room: int)
    requires n <= |values| && RowFits(values, room)
    ensures RowFits(values[..n], room)
  {
    if n == |values| {
      assert values[..n] == values;
    } else {
      var front := values[..|values| - 1];
      RowGrows(values);
      assert front[..n] == values[..n];
      RowPrefixFits(front, n, room);
    }
  }

  /** Dropping the last value drops its cell from the encoding. */
  lemma RowGrows(values: EngineRow)
    requires values != [] && CellsOf(values).Some?
    ensures var front := values[..|values| - 1];
            var last := Lossless(values[|values| - 1]);
            && CellsOf(front).Some? && last.Some? && Representable(last.value)
            && EncodeRow(CellsOf(values).value) == EncodeRow(CellsOf(front).value) + EncodeCell(last.value)
  {
    EncodeRowSnoc(CellsOf(values[..|values| - 1]).value, Lossless(values[|values| - 1]).value);
  }

  lemma {:induction false} TablePrefixFits(table: seq<EngineRow>, columns: nat, n: nat, room: int)
    requires n <= |table| && TableFits(table, columns, room)
    ensures TableFits(table[..n], columns, room)
  {
    if n == |table| {
      assert table[..n] == table;
    } else {
      var front := table[..|table| - 1];
      TableGrows(table, columns);
      assert front[..n] == table[..n];
      TablePrefixFits(front, columns, n, room);
    }
  }

  lemma TableGrows(table: seq<EngineRow>, columns: nat)
    requires table != [] && TableOf(table, columns).Some?
    ensures var front := table[..|table| - 1];
            var last := CellsOf(table[|table| - 1]);
            && TableOf(front, columns).Some? && last.Some? && |last.value| == columns
            && EncodeRows(TableOf(table, columns).value, columns)
               == EncodeRows(TableOf(front, columns).value, columns) + EncodeRow(last.value)
  {
    EncodeRowsSnoc(TableOf(table[..|table| - 1], columns).value, CellsOf(table[|table| - 1]).value, columns);
  }

  /** `encode`: the cell appended, unless it has no lossless form or the frame gets too long. */
  method AppendValue(frame: seq<byte>, v: EngineValue) returns (r: Result<seq<byte>, ScanFailure>)
    requires |frame| <= MAX_BYTES
    ensures r.Ok? <==> Lossless(v).Some? && Representable(Lossless(v).value)
                       && |frame| + |EncodeCell(Lossless(v).value)| <= MAX_BYTES
    ensures r.Ok? ==> r.value == frame + EncodeCell(Lossless(v).value)
  {
    var cell: seq<byte>;
    match v {
      case NullValue => cell := [0];
      case BooleanValue(truth) => cell := [1] + Le64(if truth then 1 else 0);
      case Int64Value(n) => cell := [1] + Le64(Unsigned(n));
      case UInt64Value(n) =>
        if n >= 0x8000_0000_0000_0000 {
          return Err(Unrepresentable);
        }
        cell := [1] + Le64(n);
      case Float64Value(bits) =>
        if IsNaN(bits) {
          return Err(Unrepresentable);
        }
        cell := [2] + Le64(bits);
      case TextValue(text) =>
        if |text| > MAX_BYTES {
          return Err(FrameLimit);
        }
        cell := [3] + Le32(|text|) + text;
      case BinaryValue(binary) =>
        if |binary| > MAX_BYTES {
          return Err(FrameLimit);
        }
        cell := [4] + Le32(|binary|) + binary;
      case DecimalValue => return Err(Unrepresentable);
      case InvalidTextValue => return Err(Unrepresentable);
    }
    var out := frame + cell;
    if |out| > MAX_BYTES {
      return Err(FrameLimit);
    }
    return Ok(out);
  }

  lemma Regroup(a: seq<byte>, b: seq<byte>, c: seq<byte>)
    ensures (a + b) + c == a + (b + c)
  {
  }

  /** One more value: either the row cannot fit, or the frame so far grows by the value's cell. */
  lemma RowStep(frame: seq<byte>, out: seq<byte>, values: EngineRow, i: nat, fits: bool)
    requires i < |values| && CellsOf(values[..i]).Some? && out == frame + EncodeRow(CellsOf(values[..i]).value)
    requires fits <==> Lossless(values[i]).Some? && Representable(Lossless(values[i]).value)
                       && |out| + |EncodeCell(Lossless(values[i]).value)| <= MAX_BYTES
    ensures fits ==> CellsOf(values[..i + 1]).Some?
                     && out + EncodeCell(Lossless(values[i]).value) == frame + EncodeRow(CellsOf(values[..i + 1]).value)
    ensures !fits ==> !RowFits(values, MAX_BYTES - |frame|)
  {
    assert values[..i + 1][..i] == values[..i];
    if fits {
      RowGrows(values[..i + 1]);
      Regroup(frame, EncodeRow(CellsOf(values[..i]).value), EncodeCell(Lossless(values[i]).value));
    } else if RowFits(values, MAX_BYTES - |frame|) {
      RowPrefixFits(values, i + 1, MAX_BYTES - |frame|);
      RowGrows(values[..i + 1]);
    }
  }

  method AppendRow(frame: seq<byte>, values: EngineRow) returns (r: Result<seq<byte>, ScanFailure>)
    requires |frame| <= MAX_BYTES
    ensures r.Ok? <==> RowFits(values, MAX_BYTES - |frame|)
    ensures r.Ok? ==> r.value == frame + EncodeRow(CellsOf(values).value)
  {
    var out := frame;
    for i := 0 to |values|
      invariant CellsOf(values[..i]).Some?
      invariant out == frame + EncodeRow(CellsOf(values[..i]).value) && |out| <= MAX_BYTES
    {
      var next := AppendValue(out, values[i]);
      RowStep(frame, out, values, i, next.Ok?);
      if next.Err? {
        return Err(next.error);
      }
      out := next.value;
    }
    assert values[..|values|] == values;
    return Ok(out);
  }

  lemma TableStep(header: seq<byte>, frame: seq<byte>, table: seq<EngineRow>, columns: nat, i: nat, fits: bool)
    requires i < |table| && |table[i]| == columns && TableOf(table[..i], columns).Some?
    requires frame == header + EncodeRows(TableOf(table[..i], columns).value, columns)
    requires fits <==> RowFits(table[i], MAX_BYTES - |frame|)
    ensures fits ==> TableOf(table[..i + 1], columns).Some?
                     && frame + EncodeRow(CellsOf(table[i]).value)
                        == header + EncodeRows(TableOf(table[..i + 1], columns).value, columns)
    ensures !fits ==> !TableFits(table, columns, MAX_BYTES - |header|)
  {
    if fits {
      TableExtends(table, columns, i);
      Regroup(header, EncodeRows(TableOf(table[..i], columns).value, columns), EncodeRow(CellsOf(table[i]).value));
    } else if TableFits(table, columns, MAX_BYTES - |header|) {
      TablePrefixFits(table, columns, i + 1, MAX_BYTES - |header|);
      TableExtends(table, columns, i);
    }
  }

  /** The encoding with one more row is the encoding so far and the row's. */
  lemma TableExtends(table: seq<EngineRow>, columns: nat, i: nat)
    requires i < |table| && |table[i]| == columns && TableOf(table[..i], columns).Some?
    ensures TableOf(table[..i + 1], columns).Some? <==> CellsOf(table[i]).Some?
    ensures CellsOf(table[i]).Some? ==>
              EncodeRows(TableOf(table[..i + 1], columns).value, columns)
              == EncodeRows(TableOf(table[..i], columns).value, columns) + EncodeRow(CellsOf(table[i]).value)
  {
    assert table[..i + 1][..i] == table[..i];
    if CellsOf(table[i]).Some? {
      TableGrows(table[..i + 1], columns);
    }
  }

  method AppendTable(header: seq<byte>, columns: nat, table: seq<EngineRow>) returns (r: Result<seq<byte>, ScanFailure>)
    requires |header| <= MAX_BYTES && forall i | 0 <= i < |table| :: |table[i]| == columns
    ensures r.Ok? <==> TableFits(table, columns, MAX_BYTES - |header|)
    ensures r.Ok? ==> r.value == header + EncodeRows(TableOf(table, columns).value, columns)
  {
    var frame := header;
    for i := 0 to |table|
      invariant TableOf(table[..i], columns).Some?
      invariant frame == header + EncodeRows(TableOf(table[..i], columns).value, columns) && |frame| <= MAX_BYTES
    {
      var next := AppendRow(frame, table[i]);
      TableStep(header, frame, table, columns, i, next.Ok?);
      if next.Err? {
        return Err(next.error);
      }
      frame := next.value;
    }
    assert table[..|table|] == table;
    return Ok(frame);
  }

  /** The reply of a scan: the frame of the lossless table, or a refusal exactly when there is none. */
  method BuildFrame(columns: nat, table: seq<EngineRow>) returns (r: Result<seq<byte>, ScanFailure>)
    requires forall i | 0 <= i < |table| :: |table[i]| == columns
    ensures r.Ok? <==> 1 <= columns <= MAX_COLUMNS && |table| <= MAX_ROWS
                       && TableFits(table, columns, MAX_BYTES - HEADER_BYTES)
    ensures r.Err? && 1 <= columns <= MAX_COLUMNS && |table| <= MAX_ROWS && TableSendable(table) ==>
              TableOf(table, columns).Some? && |EncodeFrame(TableOf(table, columns).value, columns)| > MAX_BYTES
    ensures r.Ok? ==> |r.value| <= MAX_BYTES && IsFrame(r.value, columns, TableOf(table, columns).value)
  {
    if columns == 0 || columns > MAX_COLUMNS || |table| > MAX_ROWS {
      return Err(ResultLimit);
    }
    TableOfDefined(table, columns);
    r := AppendTable(MAGIC + Le32(columns) + Le32(|table|), columns, table);
  }

  /** From the engine's rows through the wire to the host's rows: refused, or returned exactly. */
  method RemoteScan(columns: nat, table: seq<EngineRow>) returns (r: Result<seq<Row>, ScanFailure>)
    requires forall i | 0 <= i < |table| :: |table[i]| == columns
    ensures r.Ok? <==> 1 <= columns <= MAX_COLUMNS && |table| <= MAX_ROWS
                       && TableFits(table, columns, MAX_BYTES - HEADER_BYTES)
    ensures r.Ok? ==> |r.value| == |table|
    ensures r.Ok? ==> forall i | 0 <= i < |table| :: |r.value[i]| == columns
    ensures r.Ok? ==> forall i, j | 0 <= i < |table| && 0 <= j < columns :: Lossless(table[i][j]) == Some(r.value[i][j])
    ensures r.Ok? ==> forall i, j | 0 <= i < |table| && 0 <= j < columns :: StandsFor(r.value[i][j], table[i][j])
  {
    var frame := BuildFrame(columns, table);
    if frame.Err? {
      return Err(frame.error);
    }
    ghost var sent := TableOf(table, columns).value;
    var scanned := Scan(frame.value, columns);
    ReadFrameExact(frame.value, columns, sent);
    ReadFrameExact(frame.value, columns, scanned.value);
    CellsStand(table, columns, sent);
    return Ok(scanned.value);
  }

  /** Cell by cell the table stands for the engine's values. */
  lemma CellsStand(table: seq<EngineRow>, columns: nat, sent: seq<Row>)
    requires TableOf(table, columns) == Some(sent) && forall i | 0 <= i < |table| :: |table[i]| == columns
    ensures forall i | 0 <= i < |table| :: |sent[i]| == columns
    ensures forall i, j | 0 <= i < |table| && 0 <= j < columns ::
              Lossless(table[i][j]) == Some(sent[i][j]) && StandsFor(sent[i][j], table[i][j])
  {
    forall i | 0 <= i < |table| ensures |sent[i]| == columns {
      TableOfAt(table, columns, i);
    }
    forall i, j | 0 <= i < |table| && 0 <= j < columns
      ensures Lossless(table[i][j]) == Some(sent[i][j]) && StandsFor(sent[i][j], table[i][j])
    {
      TableOfAt(table, columns, i);
      CellsOfMeaning(table[i], sent[i]);
      LosslessMeaning(table[i][j], sent[i][j]);
    }
  }
}
