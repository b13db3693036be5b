/**
 The client side of a remote table: `filter` validates a frame once, then `column` and `next`
 serve its cells by offset arithmetic alone. The buffer is replaced, never written into, so it
 is a sequence here; every index into it is proved to be inside it.
 */
module RemoteCursor {
  import opened Machine
  import opened RemoteFrame

  const ERROR_TAG: byte := 0x45
  const MAX_ERROR_TEXT: nat := 255

  /** What the callback returned: nothing, a value that is not a blob, or a blob. */
  datatype Reply = CallbackFailed | NotABlob | Blob(bytes: seq<byte>)

  datatype Status =
    | Done
    | CallbackError | InvalidFrame | RemoteError(text: seq<byte>) | InvalidHeader | InvalidCell | TrailingData
    | InvalidCursor | Misuse

  /** The bytes in front of the first NUL, as a C string ends there. */
  function CString(bytes: seq<byte>): seq<byte> {
    if bytes == [] || bytes[0] == 0 then [] else [bytes[0]] + CString(bytes[1..])
  }

  /** The error text of an 'E' frame: bounded, and only what follows the tag. */
  function ErrorText(bytes: seq<byte>): (text: seq<byte>)
    requires bytes != []
    ensures |text| <= MAX_ERROR_TEXT
  {
    var shown := bytes[1..if |bytes| < MAX_ERROR_TEXT + 1 then |bytes| else MAX_ERROR_TEXT + 1];
    CStringBounded(shown);
    CString(shown)
  }

  lemma CStringBounded(bytes: seq<byte>)
    ensures |CString(bytes)| <= |bytes|
  {
  }

  /** `skip_cell`: the offset behind the cell, every length checked by subtraction first. */
  method SkipCell(data: seq<byte>, at: nat) returns (ok: bool, offset: nat)
    ensures ok <==> ReadCell(data, at).Some?
    ensures ok ==> offset == ReadCell(data, at).value.1
  {
    offset := at;
    if offset >= |data| {
      return false, offset;
    }
    var tag := data[offset];
    offset := offset + 1;
    var length: nat := 0;
    if tag == 1 || tag == 2 {
      length := 8;
    } else if tag == 3 || tag == 4 {
      if |data| - offset < 4 {
        return false, offset;
      }
      length := Read32(data, offset);
      offset := offset + 4;
    } else if tag != 0 {
      return false, offset;
    }
    if length > |data| - offset {
      return false, offset;
    }
    return true, offset + length;
  }

  // ---------------------------------------------------------------- prefixes of a read

  /** A read that stops early stops every longer read. */
  lemma {:induction false} RowStuck(data: seq<byte>, at: nat, k: nat, n: nat)
    requires k <= n && ReadRow(data, at, k).None?
    ensures ReadRow(data, at, n).None?
    decreases n
  {
    if k < n {
      RowStuck(data, at, k, n - 1);
    }
  }

  lemma {:induction false} RowsStuck(data: seq<byte>, at: nat, columns: nat, k: nat, n: nat)
    requires k <= n && ReadRows(data, at, columns, k).None?
    ensures ReadRows(data, at, columns, n).None?
    decreases n
  {
    if k < n {
      RowsStuck(data, at, columns, k, n - 1);
    }
  }

  lemma {:induction false} RowPrefix(data: seq<byte>, at: nat, k: nat, n: nat)
    requires k <= n && ReadRow(data, at, n).Some?
    ensures |ReadRow(data, at, n).value.0| == n
    ensures ReadRow(data, at, k).Some? && ReadRow(data, at, k).value.0 == ReadRow(data, at, n).value.0[..k]
    decreases n
  {
    if n > 0 {
      RowPrefix(data, at, if k < n then k else n - 1, n - 1);
    }
  }

  lemma {:induction false} RowsPrefix(data: seq<byte>, at: nat, columns: nat, k: nat, n: nat)
    requires k <= n && ReadRows(data, at, columns, n).Some?
    ensures |ReadRows(data, at, columns, n).value.0| == n
    ensures ReadRows(data, at, columns, k).Some?
    ensures ReadRows(data, at, columns, k).value.0 == ReadRows(data, at, columns, n).value.0[..k]
    decreases n
  {
    if n > 0 {
      RowsPrefix(data, at, columns, if k < n then k else n - 1, n - 1);
    }
  }

  /** A whole row passes through each of its cells. */
  lemma CellAt(data: seq<byte>, start: nat, columns: nat, row: Row, end: nat, col: nat, at: nat) returns (next: nat)
    requires ReadRow(data, start, columns) == Some((row, end)) && col < columns == |row|
    requires ReadRow(data, start, col) == Some((row[..col], at))
    ensures ReadCell(data, at) == Some((row[col], next))
    ensures ReadRow(data, start, col + 1) == Some((row[..col + 1], next))
  {
    RowPrefix(data, start, col + 1, columns);
    var (cells, after) := ReadRow(data, start, col + 1).value;
    assert cells[col] == row[col];
    next := after;
  }

  /** A whole table passes through each of its rows. */
  lemma RowAt(data: seq<byte>, columns: nat, table: seq<Row>, k: nat, at: nat) returns (next: nat)
    requires ReadRows(data, HEADER_BYTES, columns, |table|) == Some((table, |data|)) && k < |table|
    requires ReadRows(data, HEADER_BYTES, columns, k) == Some((table[..k], at))
    ensures ReadRow(data, at, columns) == Some((table[k], next)) && |table[k]| == columns
    ensures ReadRows(data, HEADER_BYTES, columns, k + 1) == Some((table[..k + 1], next))
  {
    RowsPrefix(data, HEADER_BYTES, columns, k + 1, |table|);
    var (rows, after) := ReadRows(data, HEADER_BYTES, columns, k + 1).value;
    assert rows[k] == table[k];
    RowPrefix(data, at, columns, columns);
    next := after;
  }

  /** The tail of `column`: the value of the cell at a valid offset, by its tag. */
  method DecodeCell(data: seq<byte>, offset: nat) returns (value: Cell)
    requires ReadCell(data, offset).Some?
    ensures value == ReadCell(data, offset).value.0
  {
    var tag, at := data[offset], offset + 1;
    if tag == 0 {
      return NullCell;
    } else if tag == 1 {
      return IntegerCell(Signed(Read64(data, at)));
    } else if tag == 2 {
      return RealCell(Read64(data, at));
    } else if tag == 3 {
      return TextCell(data[at + 4..at + 4 + Read32(data, at)]);
    } else {
      return BlobCell(data[at + 4..at + 4 + Read32(data, at)]);
    }
  }

  /** The loop of `next`: cell by cell over one whole row. */
  method SkipRow(data: seq<byte>, start: nat, columns: nat, ghost cells: Row, ghost end: nat)
    returns (ok: bool, offset: nat)
    requires ReadRow(data, start, columns) == Some((cells, end)) && |cells| == columns
    ensures ok && offset == end
  {
    offset := start;
    for col := 0 to columns
      invariant ReadRow(data, start, col) == Some((cells[..col], offset))
    {
      ghost var after := CellAt(data, start, columns, cells, end, col, offset);
      var fits, next := SkipCell(data, offset);
      if !fits {
        return false, offset;
      }
      offset := next;
    }
    return true, offset;
  }

  // ---------------------------------------------------------------- the cursor

  class Cursor {
    const columns: nat
    var data: seq<byte>
    var offset: nat
    var rows: nat
    var row: nat
    /** The table being served. */
    ghost var table: seq<Row>

    /** The offset is the start of the current row of the table that the buffer holds. */
    ghost predicate Valid()
      reads this
    {
      && 1 <= columns <= MAX_COLUMNS && rows == |table| && row <= rows
      && (rows > 0 ==>
            && ReadRows(data, HEADER_BYTES, columns, rows) == Some((table, |data|))
            && ReadRows(data, HEADER_BYTES, columns, row) == Some((table[..row], offset)))
    }

    /** `open_cursor`: everything zero, so at end of file. */
    constructor (columns: nat)
      requires 1 <= columns <= MAX_COLUMNS
      ensures Valid() && this.columns == columns && table == [] && row == 0
    {
      this.columns := columns;
      data, offset, rows, row, table := [], 0, 0, 0, [];
    }

    /**
     `filter`: accepts exactly the frames of at most 8 MiB and then stands on the first row of
     their table; anything else leaves an empty cursor at end of file.
     */
    method Filter(reply: Reply) returns (status: Status)
      requires Valid()
      modifies this
      ensures Valid() && row == 0
      ensures status.Done? <==> reply.Blob? && |reply.bytes| <= MAX_BYTES && ReadFrame(reply.bytes, columns).Some?
      ensures status.Done? ==> table == ReadFrame(reply.bytes, columns).value
      ensures !status.Done? ==> table == [] && data == []
    {
      data, rows, row, table := [], 0, 0, [];
      if reply.CallbackFailed? {
        return CallbackError;
      }
      if !reply.Blob? || |reply.bytes| < 1 || |reply.bytes| > MAX_BYTES {
        return InvalidFrame;
      }
      var bytes := reply.bytes;
      if bytes[0] == ERROR_TAG {
        assert bytes[0] != MAGIC[0];
        return RemoteError(ErrorText(bytes));
      }
      if |bytes| < HEADER_BYTES || bytes[..4] != MAGIC || Read32(bytes, 4) != columns || Read32(bytes, 8) > MAX_ROWS {
        return InvalidHeader;
      }
      var count := Read32(bytes, 8);
      var end;
      status, end := SkipTable(bytes, count);
      if !status.Done? {
        return;
      }
      if end != |bytes| {
        return TrailingData;
      }
      data, rows, offset := bytes, count, HEADER_BYTES;
      table := ReadFrame(bytes, columns).value;
      RowsPrefix(bytes, HEADER_BYTES, columns, 0, count);
    }

    /** The validating loops of `filter`: one pass over every cell of every row. */
    method SkipTable(bytes: seq<byte>, count: nat) returns (status: Status, end: nat)
      ensures status == if ReadRows(bytes, HEADER_BYTES, columns, count).Some? then Done else InvalidCell
      ensures status.Done? ==> end == ReadRows(bytes, HEADER_BYTES, columns, count).value.1
    {
      end := HEADER_BYTES;
      for i := 0 to count
        invariant ReadRows(bytes, HEADER_BYTES, columns, i).Some?
        invariant end == ReadRows(bytes, HEADER_BYTES, columns, i).value.1
      {
        ghost var start := end;
        for col := 0 to columns
          invariant ReadRow(bytes, start, col).Some? && end == ReadRow(bytes, start, col).value.1
        {
          var ok, next := SkipCell(bytes, end);
          if !ok {
            RowStuck(bytes, start, col + 1, columns);
            RowsStuck(bytes, HEADER_BYTES, columns, i + 1, count);
            return InvalidCell, end;
          }
          end := next;
        }
      }
      return Done, end;
    }

    /** `next`: never fails on a valid cursor, and stays put at end of file. */
    method Next() returns (status: Status)
      requires Valid()
      modifies `offset, `row
      ensures Valid() && status.Done?
      ensures row == if old(row) < rows then old(row) + 1 else old(row)
    {
      if row < rows {
        ghost var end := RowAt(data, columns, table, row, offset);
        var ok, next := SkipRow(data, offset, columns, table[row], end);
        if !ok {
          return InvalidCursor;
        }
        offset, row := next, row + 1;
      }
      return Done;
    }

    method Eof() returns (atEnd: bool)
      requires Valid()
      ensures atEnd <==> row == |table|
    {
      return row >= rows;
    }

    /** `column`: the addressed cell of the current row, or an error exactly when there is none. */
    method Column(col: int) returns (status: Status, value: Cell)
      requires Valid()
      ensures status == if 0 <= col < columns && row < |table| then Done else Misuse
      ensures status.Done? ==> |table[row]| == columns && value == table[row][col]
    {
      if col < 0 || col >= columns || row >= rows {
        return Misuse, NullCell;
      }
      ghost var cells := table[row];
      ghost var end := RowAt(data, columns, table, row, offset);
      var at := offset;
      for n := 0 to col
        invariant ReadRow(data, offset, n) == Some((cells[..n], at))
      {
        ghost var after := CellAt(data, offset, columns, cells, end, n, at);
        var ok, next := SkipCell(data, at);
        if !ok {
          return Misuse, NullCell;
        }
        at := next;
      }
      ghost var after := CellAt(data, offset, columns, cells, end, col, at);
      value := DecodeCell(data, at);
      return Done, value;
    }
  }

  /** The bytes are the frame of a table within the limits, for the declared number of columns. */
  ghost predicate IsFrame(bytes: seq<byte>, columns: nat, rows: seq<Row>) {
    && columns <= MAX_COLUMNS && TableOk(rows, columns) && |rows| <= MAX_ROWS
    && bytes == EncodeFrame(rows, columns)
  }

  /**
   A full table scan as the host runs it: `filter`, then `column` for every column and `next`
   until `eof`. It succeeds exactly on encodings of tables, and returns the encoded table.
   */
  method Scan(bytes: seq<byte>, columns: nat) returns (result: Option<seq<Row>>)
    requires 1 <= columns <= MAX_COLUMNS
    ensures result.Some? <==> |bytes| <= MAX_BYTES && exists rows :: IsFrame(bytes, columns, rows)
    ensures result.Some? ==> IsFrame(bytes, columns, result.value)
  {
    var cursor := new Cursor(columns);
    var status := cursor.Filter(Blob(bytes));
    forall rows ensures ReadFrame(bytes, columns) == Some(rows) <==> IsFrame(bytes, columns, rows) {
      ReadFrameExact(bytes, columns, rows);
    }
    if !status.Done? {
      return None;
    }
    var rows := ScanRows(cursor);
    return Some(rows);
  }

  /** Row by row until `eof`, from the first row. */
  method ScanRows(cursor: Cursor) returns (rows: seq<Row>)
    requires cursor.Valid() && cursor.row == 0
    modifies cursor
    ensures rows == old(cursor.table)
  {
    ghost var table := cursor.table;
    rows := [];
    var atEnd := cursor.Eof();
    while !atEnd
      invariant cursor.Valid() && cursor.table == table
      invariant rows == table[..cursor.row] && (atEnd <==> cursor.row == |table|)
      decreases |table| - cursor.row
    {
      var row := ScanRow(cursor);
      SplitLast(table[..cursor.row + 1]);
      rows := rows + [row];
      var status := cursor.Next();
      atEnd := cursor.Eof();
    }
  }

  /** Every column of the current row, in order. */
  method ScanRow(cursor: Cursor) returns (row: Row)
    requires cursor.Valid() && cursor.row < |cursor.table|
    ensures row == cursor.table[cursor.row]
  {
    row := [];
    for col := 0 to cursor.columns
      invariant |cursor.table[cursor.row]| == cursor.columns || col == 0
      invariant col <= |cursor.table[cursor.row]| && row == cursor.table[cursor.row][..col]
    {
      var status, value := cursor.Column(col);
      SplitLast(cursor.table[cursor.row][..col + 1]);
      row := row + [value];
    }
  }
}
