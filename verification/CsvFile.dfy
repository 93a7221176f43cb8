/** The CSV writer and batch reader, and exactly which tables they carry unchanged. */
module CsvFile {
  import opened Words
  import opened Csv

  // ------------------------------------------------------------- whole files

  // The last line of a file that ends in a newline is the empty one after it.
  predicate IsPhantom(r: RowRead) {
    r.eof && r.cells == [[]]
  }

  // Up to `limit` rows: what was read, whether the end was met, and the bytes left.
  datatype Chunk = Chunk(rows: seq<Cells>, done: bool, rest: Bytes)

  // None: a quote left open, or a row with fewer fields than columns, which the reader indexes past its end.
  function ReadSome(bs: Bytes, columns: nat, limit: nat): (r: Option<Chunk>)
    ensures r.Some? ==> |r.value.rows| <= limit && |r.value.rest| <= |bs|
    ensures r.Some? && !r.value.done && limit > 0 ==> |r.value.rows| == limit && |r.value.rest| < |bs|
    ensures r.Some? ==> forall i :: 0 <= i < |r.value.rows| ==> |r.value.rows[i]| == columns
    decreases limit
  {
    if limit == 0 then Some(Chunk([], false, bs))
    else
      match ParseRow(bs, false, [])
      case None => None
      case Some(r) =>
        if IsPhantom(r) then Some(Chunk([], true, []))
        else if |r.cells| < columns then None
        else if r.eof then Some(Chunk([r.cells[..columns]], true, []))
        else
          match ReadSome(r.rest, columns, limit - 1)
          case None => None
          case Some(c) => Some(c.(rows := [r.cells[..columns]] + c.rows))
  }

  // All rows of a file.
  function ReadRows(bs: Bytes, columns: nat): Option<seq<Cells>>
    decreases |bs|
  {
    match ParseRow(bs, false, [])
    case None => None
    case Some(r) =>
      if IsPhantom(r) then Some([])
      else if |r.cells| < columns then None
      else if r.eof then Some([r.cells[..columns]])
      else
        match ReadRows(r.rest, columns)
        case None => None
        case Some(others) => Some([r.cells[..columns]] + others)
  }

  // Rows of the file from a chunk on.
  function RowsFrom(c: Chunk, columns: nat): Option<seq<Cells>> {
    if c.done then Some([]) else ReadRows(c.rest, columns)
  }

  function Joined(a: seq<Cells>, b: Option<seq<Cells>>): Option<seq<Cells>> {
    if b.None? then None else Some(a + b.value)
  }

  // Reading a chunk and then the rest is reading the file, whatever the chunk's size.
  lemma {:induction false} ReadInChunks(bs: Bytes, columns: nat, limit: nat)
    ensures var c := ReadSome(bs, columns, limit);
            ReadRows(bs, columns) == if c.None? then None else Joined(c.value.rows, RowsFrom(c.value, columns))
    decreases limit
  {
    var none: seq<Cells> := [];
    if limit == 0 {
      assert ReadRows(bs, columns).Some? ==> none + ReadRows(bs, columns).value == ReadRows(bs, columns).value;
    } else {
      var r := ParseRow(bs, false, []);
      assert none + none == none;
      assert r.Some? && |r.value.cells| >= columns ==> [r.value.cells[..columns]] + none == [r.value.cells[..columns]];
      if r.Some? && !IsPhantom(r.value) && |r.value.cells| >= columns && !r.value.eof {
        ReadInChunks(r.value.rest, columns, limit - 1);
        var first, c := r.value.cells[..columns], ReadSome(r.value.rest, columns, limit - 1);
        if c.Some? && RowsFrom(c.value, columns).Some? {
          ConcatAssociates([first], c.value.rows, RowsFrom(c.value, columns).value);
        }
      }
    }
  }

  predicate PlainTable(rows: seq<Cells>) {
    forall i :: 0 <= i < |rows| ==> PlainRow(rows[i])
  }

  predicate Rectangular(rows: seq<Cells>, columns: nat) {
    forall i :: 0 <= i < |rows| ==> |rows[i]| == columns
  }

  // A written table is read back exactly when every field is plain.
  lemma {:induction false} TableReadBackExactly(rows: seq<Cells>, columns: nat)
    requires columns > 0 && Rectangular(rows, columns)
    ensures ReadRows(TableBytes(rows), columns) == Some(rows) <==> PlainTable(rows)
    ensures PlainTable(rows) <==>
      forall i, c :: 0 <= i < |rows| && 0 <= c < columns ==>
        34 !in rows[i][c] && (10 in rows[i][c] ==> 44 in rows[i][c])
  {
    hide RowBytes, Plain;
    PlainTableIs(rows, columns);
    if |rows| > 0 {
      var rest := TableBytes(rows[1..]);
      if PlainRow(rows[0]) {
        RowReadBack(rows[0], rest);
        TableReadBackExactly(rows[1..], columns);
        assert rows == [rows[0]] + rows[1..];
        assert rows[0][..columns] == rows[0];
        assert PlainTable(rows) <==> PlainTable(rows[1..]);
      } else {
        RowNotReadBack(rows[0], rest, columns);
        HeadDiffers(rows, columns);
      }
    }
  }

  lemma PlainTableIs(rows: seq<Cells>, columns: nat)
    requires Rectangular(rows, columns)
    ensures PlainTable(rows) <==>
      forall i, c :: 0 <= i < |rows| && 0 <= c < columns ==>
        34 !in rows[i][c] && (10 in rows[i][c] ==> 44 in rows[i][c])
  {
    forall i, c | 0 <= i < |rows| && 0 <= c < columns
      ensures Plain(rows[i][c]) <==> 34 !in rows[i][c] && (10 in rows[i][c] ==> 44 in rows[i][c])
    {
    }
    if forall i, c :: 0 <= i < |rows| && 0 <= c < columns ==>
        34 !in rows[i][c] && (10 in rows[i][c] ==> 44 in rows[i][c]) {
      forall i | 0 <= i < |rows|
        ensures PlainRow(rows[i])
      {
      }
    }
  }

  lemma HeadDiffers(rows: seq<Cells>, columns: nat)
    requires |rows| > 0 && |rows[0]| == columns
    requires var r := ParseRow(TableBytes(rows), false, []);
             r.Some? ==> |r.value.cells| < columns || r.value.cells[..columns] != rows[0]
    ensures ReadRows(TableBytes(rows), columns) != Some(rows)
  {
  }

  // The bytes of a table without the newline of its last row.
  function Unended(rows: seq<Cells>): Bytes
    requires |rows| > 0
  {
    var bs := TableBytes(rows);
    TableEnds(rows);
    bs[..|bs| - 1]
  }

  lemma {:induction false} TableEnds(rows: seq<Cells>)
    requires |rows| > 0
    ensures var bs := TableBytes(rows); |bs| > 0 && bs[..|bs| - 1] + [NEWLINE] == bs
  {
    RowEnds(rows[0]);
    if |rows| > 1 {
      TableEnds(rows[1..]);
      var others := TableBytes(rows[1..]);
      assert TableBytes(rows) == (RowBytes(rows[0]) + others[..|others| - 1]) + [NEWLINE];
    } else {
      assert TableBytes(rows) == RowBytes(rows[0]) + [];
    }
  }

  lemma UnendedNext(rows: seq<Cells>)
    requires |rows| > 1
    ensures Unended(rows) == RowBytes(rows[0]) + Unended(rows[1..])
  {
    TableEnds(rows[1..]);
  }

  // A plain table whose last row ends with the file is read, too, unless this row is one empty field, of which nothing
  // is left in the file.
  lemma {:induction false} UnendedReadBackExactly(rows: seq<Cells>, columns: nat)
    requires |rows| > 0 && columns > 0 && Rectangular(rows, columns) && PlainTable(rows)
    ensures ReadRows(Unended(rows), columns) == Some(rows) <==> rows[|rows| - 1] != [[]]
    ensures rows[|rows| - 1] == [[]] ==> ReadRows(Unended(rows), columns) == Some(rows[..|rows| - 1])
  {
    hide RowBytes, Plain, ParseRow;
    var row := rows[0];
    assert row[..columns] == row;
    if |rows| == 1 {
      RowEnds(row);
      assert TableBytes(rows) == RowBytes(row) + [];
      LastRowReadBack(row, Unended(rows));
      assert rows == [row] && rows[..0] == [];
    } else {
      UnendedNext(rows);
      RowReadBack(row, Unended(rows[1..]));
      UnendedReadBackExactly(rows[1..], columns);
      assert rows == [row] + rows[1..];
      assert rows[..|rows| - 1] == [row] + rows[1..][..|rows| - 2];
    }
  }

  predicate AllWide(rows: seq<Cells>, columns: nat) {
    forall i :: 0 <= i < |rows| ==> |rows[i]| >= columns
  }

  // The first `columns` fields of every row are read; a row with fewer ends in an exception or worse.
  lemma {:induction false} RowsAreCut(rows: seq<Cells>, columns: nat) returns (read: seq<Cells>)
    requires columns > 0 && PlainTable(rows) && forall i :: 0 <= i < |rows| ==> |rows[i]| > 0
    ensures !AllWide(rows, columns) ==> ReadRows(TableBytes(rows), columns) == None
    ensures AllWide(rows, columns) ==>
      && ReadRows(TableBytes(rows), columns) == Some(read) && |read| == |rows|
      && forall i :: 0 <= i < |rows| ==> read[i] == rows[i][..columns]
  {
    hide RowBytes, Plain, ParseRow;
    read := [];
    if |rows| == 0 {
      assert rows == [];
      NothingToRead(columns);
    } else {
      RowReadBack(rows[0], TableBytes(rows[1..]));
      read := RowsAreCut(rows[1..], columns);
      assert AllWide(rows, columns) <==> |rows[0]| >= columns && AllWide(rows[1..], columns);
      if AllWide(rows, columns) {
        read := [rows[0][..columns]] + read;
      }
    }
  }

  lemma NothingToRead(columns: nat)
    ensures ReadRows(TableBytes([]), columns) == Some([])
  {
  }

  // ------------------------------------------------------------------ columns

  // The batch of these rows, column by column.
  function ColumnsOf(rows: seq<Cells>, columns: nat): (cs: seq<seq<Bytes>>)
    requires Rectangular(rows, columns)
    ensures |cs| == columns
  {
    seq(columns, c requires 0 <= c < columns => seq(|rows|, i requires 0 <= i < |rows| => rows[i][c]))
  }

  class ReaderCsv {
    const file: Bytes
    const columnsNumber: nat
    var position: nat
    var done: bool

    ghost predicate Valid()
      reads this
    {
      position <= |file|
    }

    // The rows not read yet.
    ghost function Left(): Option<seq<Cells>>
      requires Valid()
      reads this
    {
      if done then Some([]) else ReadRows(file[position..], columnsNumber)
    }

    constructor (file: Bytes, columnsNumber: nat)
      ensures Valid() && this.file == file && this.columnsNumber == columnsNumber && !done
      ensures Left() == ReadRows(file, columnsNumber)
    {
      this.file := file;
      this.columnsNumber := columnsNumber;
      position, done := 0, false;
      new;
      assert file[0..] == file;
    }

    // None is the exception.
    method ReadRowFromCsv() returns (r: Option<(Cells, bool)>)
      requires Valid()
      modifies `position
      ensures Valid()
      ensures var parsed := ParseRow(file[old(position)..], false, []);
        && (r.None? <==> parsed.None?)
        && (r.Some? ==>
              && r.value.0 == parsed.value.cells && r.value.1 == parsed.value.eof
              && file[position..] == parsed.value.rest)
    {
      var row: Cells := [];
      var quoted := false;
      var s: Bytes := [];
      ghost var parsed := ParseRow(file[position..], false, []);
      while true
        invariant Valid()
        invariant var left := ParseRow(file[position..], quoted, s);
          && (left.None? <==> parsed.None?)
          && (left.Some? ==> parsed.value == left.value.(cells := row + left.value.cells))
        decreases |file| - position
      {
        if position == |file| {
          if quoted {
            return None;
          }
          return Some((row + [s], true));
        }
        var c := file[position];
        assert file[position..][1..] == file[position + 1..];
        ghost var here, wasQuoted, was := file[position..], quoted, s;
        position := position + 1;
        if quoted {
          if c == QUOTE {
            quoted := false;
          } else {
            s := s + [c];
          }
        } else if c == QUOTE {
          quoted := true;
        } else if c == COMMA {
          ghost var left := ParseRow(here[1..], false, []);
          if left.Some? {
            ConcatAssociates(row, [s], left.value.cells);
          }
          row := row + [s];
          s := [];
        } else if c == NEWLINE {
          return Some((row + [s], false));
        } else {
          s := s + [c];
        }
      }
    }

    // At most `limit` rows, as columns of strings; None is the exception or the read past a short row.
    method ReadRowsStrings(limit: nat) returns (r: Option<seq<seq<Bytes>>>, ghost rows: seq<Cells>)
      requires Valid() && !done
      modifies this
      ensures Valid()
      ensures var chunk := ReadSome(file[old(position)..], columnsNumber, limit);
        && (r.None? <==> chunk.None?)
        && (r.Some? ==>
              && rows == chunk.value.rows && r.value == ColumnsOf(rows, columnsNumber)
              && done == chunk.value.done && (!done ==> file[position..] == chunk.value.rest))
    {
      hide ParseRow, ColumnsOf;
      ghost var whole := ReadSome(file[position..], columnsNumber, limit);
      var columns: seq<seq<Bytes>> := seq(columnsNumber, _ => []);
      rows := [];
      NoRows(columns, columnsNumber);
      assert whole.Some? ==> rows + whole.value.rows == whole.value.rows;
      var rowIndex := 0;
      while rowIndex < limit && !done
        invariant Valid() && rowIndex <= limit && Rectangular(rows, columnsNumber)
        invariant columns == ColumnsOf(rows, columnsNumber)
        invariant !done ==> Follows(whole, rows, ReadSome(file[position..], columnsNumber, limit - rowIndex))
        invariant done ==> whole == Some(Chunk(rows, true, []))
        decreases limit - rowIndex, !done
      {
        var read := ReadRowFromCsv();
        if read.None? {
          return None, rows;
        }
        var (row, eof) := read.value;
        if eof && row == [[]] {
          done := true;
          assert rows + [] == rows;
        } else {
          if |row| < columnsNumber {
            return None, rows;
          }
          OneMoreRow(rows, row, columnsNumber);
          ghost var left := if eof then None else ReadSome(file[position..], columnsNumber, limit - rowIndex - 1);
          if left.Some? {
            ConcatAssociates(rows, [row[..columnsNumber]], left.value.rows);
          }
          columns := seq(columnsNumber, c requires 0 <= c < columnsNumber => columns[c] + [row[c]]);
          rows := rows + [row[..columnsNumber]];
          rowIndex := rowIndex + 1;
          done := eof;
        }
      }
      if !done {
        assert rows + [] == rows;
      }
      r := Some(columns);
    }

    // None: the exception; Some(None): the null pointer, after the end; otherwise a batch of 1 to limit rows.
    method ReadBatch(limit: nat) returns (r: Option<Option<seq<seq<Bytes>>>>, ghost rows: seq<Cells>)
      requires Valid() && limit > 0 && columnsNumber > 0
      modifies this
      ensures Valid()
      ensures r.None? ==> old(Left()) == None
      ensures r.Some? ==> Rectangular(rows, columnsNumber) && old(Left()) == Joined(rows, Left())
      ensures r == Some(None) ==> rows == [] && done
      ensures r.Some? && r.value.Some? ==> r.value.value == ColumnsOf(rows, columnsNumber) && 0 < |rows| <= limit
      ensures r.Some? && r.value.Some? ==>
        && |r.value.value| == columnsNumber
        && forall c, i :: 0 <= c < columnsNumber && 0 <= i < |rows| ==>
             i < |r.value.value[c]| && r.value.value[c][i] == rows[i][c]
      ensures r.Some? && r.value.Some? ==> done || |file| - position < old(|file| - position)
    {
      rows := [];
      assert rows + rows == rows;
      if done {
        return Some(None), [];
      }
      ReadInChunks(file[position..], columnsNumber, limit);
      ghost var chunk := ReadSome(file[position..], columnsNumber, limit);
      var columns;
      columns, rows := ReadRowsStrings(limit);
      if columns.None? {
        return None, [];
      }
      if |columns.value[0]| == 0 {
        return Some(None), [];
      }
      r := Some(columns);
    }
  }

  // The whole chunk is the rows read so far and then what is left of it.
  ghost predicate Follows(whole: Option<Chunk>, rows: seq<Cells>, left: Option<Chunk>) {
    if left.None? then whole.None? else whole == Some(left.value.(rows := rows + left.value.rows))
  }

  lemma OneMoreRow(rows: seq<Cells>, row: Cells, columns: nat)
    requires Rectangular(rows, columns) && |row| >= columns
    ensures Rectangular(rows + [row[..columns]], columns)
    ensures ColumnsOf(rows + [row[..columns]], columns)
         == seq(columns, c requires 0 <= c < columns => ColumnsOf(rows, columns)[c] + [row[c]])
  {
    forall c | 0 <= c < columns
      ensures ColumnsOf(rows + [row[..columns]], columns)[c] == ColumnsOf(rows, columns)[c] + [row[c]]
    {
    }
  }

  lemma NoRows(cs: seq<seq<Bytes>>, columns: nat)
    requires |cs| == columns && forall c :: 0 <= c < columns ==> cs[c] == []
    ensures cs == ColumnsOf([], columns)
  {
    forall c | 0 <= c < columns
      ensures cs[c] == ColumnsOf([], columns)[c]
    {
    }
  }

  // ------------------------------------------------------------ the whole file

  // Batch after batch until the null pointer. None: an exception or a short row.
  method ReadAll(reader: ReaderCsv, limit: nat) returns (r: Option<seq<seq<seq<Bytes>>>>, ghost parts: seq<seq<Cells>>)
    requires reader.Valid() && limit > 0 && reader.columnsNumber > 0
    modifies reader
    ensures r.None? <==> old(reader.Left()) == None
    ensures r.Some? ==> Some(Flatten(parts)) == old(reader.Left()) && |r.value| == |parts|
    ensures r.Some? ==> forall i :: 0 <= i < |parts| ==>
      && 0 < |parts[i]| <= limit && Rectangular(parts[i], reader.columnsNumber)
      && r.value[i] == ColumnsOf(parts[i], reader.columnsNumber)
  {
    hide ReadRows, ColumnsOf;
    var batches: seq<seq<seq<Bytes>>> := [];
    parts := [];
    ghost var goal := reader.Left();
    assert goal.Some? ==> Flatten(parts) + goal.value == goal.value;
    while true
      invariant reader.Valid() && |batches| == |parts|
      invariant goal == Joined(Flatten(parts), reader.Left())
      invariant forall i :: 0 <= i < |parts| ==>
        && 0 < |parts[i]| <= limit && Rectangular(parts[i], reader.columnsNumber)
        && batches[i] == ColumnsOf(parts[i], reader.columnsNumber)
      decreases !reader.done, |reader.file| - reader.position
    {
      var batch, rows := reader.ReadBatch(limit);
      if batch.None? {
        return None, parts;
      }
      FlattenNext(parts, rows, reader.Left());
      if batch.value.None? {
        return Some(batches), parts;
      }
      batches := batches + [batch.value.value];
      parts := parts + [rows];
    }
  }

  function Flatten(parts: seq<seq<Cells>>): seq<Cells> {
    if |parts| == 0 then [] else Flatten(parts[..|parts| - 1]) + parts[|parts| - 1]
  }

  lemma FlattenNext(parts: seq<seq<Cells>>, rows: seq<Cells>, left: Option<seq<Cells>>)
    ensures Flatten(parts + [rows]) == Flatten(parts) + rows
    ensures Joined(Flatten(parts), Joined(rows, left)) == Joined(Flatten(parts) + rows, left)
    ensures rows == [] && left == Some([]) ==> Joined(Flatten(parts) + rows, left) == Some(Flatten(parts))
  {
    assert (parts + [rows])[..|parts|] == parts;
    if left.Some? {
      ConcatAssociates(Flatten(parts), rows, left.value);
    }
    assert rows == [] ==> Flatten(parts) + rows + [] == Flatten(parts);
  }

  class WriterCsv {
    var output: Bytes

    constructor ()
      ensures output == []
    {
      output := [];
    }

    // A batch of strings, column by column, is written row by row.
    method WriteBatch(columns: seq<seq<Bytes>>, ghost rows: seq<Cells>, count: nat)
      requires |rows| == count && Rectangular(rows, |columns|) && columns == ColumnsOf(rows, |columns|)
      modifies this
      ensures output == old(output) + TableBytes(rows)
    {
      hide TableBytes, ColumnsOf;
      NoTable();
      assert old(output) + [] == old(output);
      for row := 0 to count
        invariant output == old(output) + TableBytes(rows[..row])
      {
        var line: Bytes := WriteRow(columns, rows, row);
        ConcatAssociates(old(output), TableBytes(rows[..row]), line);
        TableSnoc(rows, row);
        output := output + line;
      }
      assert rows[..count] == rows;
    }
  }

  lemma NoTable()
    ensures TableBytes([]) == []
  {
  }

  lemma {:induction false} TableConcat(a: seq<Cells>, b: seq<Cells>)
    ensures TableBytes(a + b) == TableBytes(a) + TableBytes(b)
  {
    if |a| == 0 {
      assert a + b == b;
    } else {
      assert (a + b)[0] == a[0] && (a + b)[1..] == a[1..] + b;
      TableConcat(a[1..], b);
      ConcatAssociates(RowBytes(a[0]), TableBytes(a[1..]), TableBytes(b));
    }
  }

  lemma TableSnoc(rows: seq<Cells>, n: nat)
    requires n < |rows|
    ensures TableBytes(rows[..n + 1]) == TableBytes(rows[..n]) + RowBytes(rows[n])
  {
    assert rows[..n + 1] == rows[..n] + [rows[n]];
    var last := [rows[n]];
    TableConcat(rows[..n], last);
    assert TableBytes(last[1..]) == [];
    assert TableBytes(last) == RowBytes(rows[n]) + [];
  }

  // One row of the file, field by field.
  method WriteRow(columns: seq<seq<Bytes>>, ghost rows: seq<Cells>, row: nat) returns (line: Bytes)
    requires row < |rows| && Rectangular(rows, |columns|) && columns == ColumnsOf(rows, |columns|)
    ensures line == RowBytes(rows[row])
  {
    line := [];
    ghost var cells := rows[row];
    var cols := |columns|;
    for col := 0 to cols
      invariant col < cols || cols == 0 ==> line + RowBytes(cells[col..]) == RowBytes(cells)
      invariant 0 < cols == col ==> line + [NEWLINE] == RowBytes(cells)
    {
      var val := columns[col][row];
      assert val == cells[col] == cells[col..][0] && cells[col..][1..] == cells[col + 1..];
      ghost var before := line;
      if COMMA in val {
        line := line + ([QUOTE] + val + [QUOTE]);
      } else {
        line := line + val;
      }
      assert line == before + FieldBytes(val);
      if col + 1 < cols {
        ConcatAssociates(before, FieldBytes(val), [COMMA] + RowBytes(cells[col + 1..]));
        ConcatAssociates(before + FieldBytes(val), [COMMA], RowBytes(cells[col + 1..]));
        line := line + [COMMA];
      } else {
        ConcatAssociates(before, FieldBytes(val), [NEWLINE]);
      }
    }
    line := line + [NEWLINE];
  }

  // ---------------------------------------------------------------- round trip

  // Each batch has its rows column by column.
  predicate Columnwise(batches: seq<seq<seq<Bytes>>>, parts: seq<seq<Cells>>, columns: nat) {
    && |batches| == |parts|
    && forall i :: 0 <= i < |parts| ==>
         Rectangular(parts[i], columns) && batches[i] == ColumnsOf(parts[i], columns)
  }

  // All values of a column, batch after batch.
  function ColumnOver(batches: seq<seq<seq<Bytes>>>, c: nat): seq<Bytes>
    requires forall i :: 0 <= i < |batches| ==> c < |batches[i]|
  {
    if |batches| == 0 then []
    else ColumnOver(batches[..|batches| - 1], c) + batches[|batches| - 1][c]
  }

  lemma {:induction false} ColumnOverFlattened(batches: seq<seq<seq<Bytes>>>, parts: seq<seq<Cells>>,
      columns: nat, c: nat)
    requires c < columns && forall i :: 0 <= i < |batches| ==> |batches[i]| == columns
    requires Columnwise(batches, parts, columns)
    ensures Rectangular(Flatten(parts), columns) && ColumnOver(batches, c) == ColumnsOf(Flatten(parts), columns)[c]
  {
    if |parts| > 0 {
      var n := |parts| - 1;
      ColumnOverFlattened(batches[..n], parts[..n], columns, c);
    }
  }

  lemma ColumnsTellRows(a: seq<Cells>, b: seq<Cells>, columns: nat)
    requires columns > 0 && Rectangular(a, columns) && Rectangular(b, columns)
    requires forall c :: 0 <= c < columns ==> ColumnsOf(a, columns)[c] == ColumnsOf(b, columns)[c]
    ensures a == b
  {
    assert |ColumnsOf(a, columns)[0]| == |a| && |ColumnsOf(b, columns)[0]| == |b|;
    forall i | 0 <= i < |a|
      ensures a[i] == b[i]
    {
      forall c | 0 <= c < columns
        ensures a[i][c] == b[i][c]
      {
        assert ColumnsOf(a, columns)[c][i] == ColumnsOf(b, columns)[c][i];
      }
    }
  }

  // The batches carry exactly these columns.
  predicate Carries(batches: seq<seq<seq<Bytes>>>, columns: seq<seq<Bytes>>) {
    forall c :: 0 <= c < |columns| ==>
      (forall i :: 0 <= i < |batches| ==> c < |batches[i]|) && ColumnOver(batches, c) == columns[c]
  }

  lemma CarriesRows(batches: seq<seq<seq<Bytes>>>, parts: seq<seq<Cells>>, rows: seq<Cells>, columns: nat)
    requires columns > 0 && Rectangular(rows, columns) && Columnwise(batches, parts, columns)
    ensures Carries(batches, ColumnsOf(rows, columns)) <==> Flatten(parts) == rows
  {
    hide ColumnsOf;
    assert forall i :: 0 <= i < |batches| ==> |batches[i]| == |ColumnsOf(parts[i], columns)|;
    forall c | 0 <= c < columns
      ensures Rectangular(Flatten(parts), columns)
      ensures ColumnOver(batches, c) == ColumnsOf(Flatten(parts), columns)[c]
    {
      ColumnOverFlattened(batches, parts, columns, c);
    }
    assert Rectangular(Flatten(parts), columns) by {
      ColumnOverFlattened(batches, parts, columns, 0);
    }
    if Carries(batches, ColumnsOf(rows, columns)) {
      ColumnsTellRows(Flatten(parts), rows, columns);
    }
  }

  // Writing a table and reading it in batches of any positive size restores it exactly when every field is plain.
  method WriteThenRead(columns: seq<seq<Bytes>>, ghost rows: seq<Cells>, count: nat, limit: nat)
    returns (r: Option<seq<seq<seq<Bytes>>>>)
    requires |columns| > 0 && limit > 0
    requires |rows| == count && Rectangular(rows, |columns|) && columns == ColumnsOf(rows, |columns|)
    ensures r.Some? && Carries(r.value, columns) <==> PlainTable(rows)
    ensures r.Some? ==> forall i :: 0 <= i < |r.value| ==>
      |r.value[i]| == |columns| && 0 < |r.value[i][0]| <= limit
  {
    hide PlainTable, ReadRows, TableBytes, ColumnsOf, Carries;
    var writer := new WriterCsv();
    writer.WriteBatch(columns, rows, count);
    assert writer.output == TableBytes(rows);
    var reader := new ReaderCsv(writer.output, |columns|);
    ghost var parts;
    r, parts := ReadAll(reader, limit);
    TableReadBackExactly(rows, |columns|);
    if r.Some? {
      CarriesRows(r.value, parts, rows, |columns|);
      forall i | 0 <= i < |parts|
        ensures |r.value[i][0]| == |parts[i]|
      {
        ColumnHeight(parts[i], |columns|);
      }
    }
  }

  lemma ColumnHeight(rows: seq<Cells>, columns: nat)
    requires columns > 0 && Rectangular(rows, columns)
    ensures |ColumnsOf(rows, columns)[0]| == |rows|
  {
  }
}
