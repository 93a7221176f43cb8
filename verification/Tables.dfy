/** Schemas and column batches, the rows they stand for, and row selection and concatenation. */
module Tables {
  import opened Words
  import opened Values

  type Row = seq<Value>

  datatype Schema = Schema(names: seq<Bytes>, types: seq<Type>) {
    predicate Valid() {
      |names| == |types|
    }
  }

  datatype Batch = Batch(rows: nat, schema: Schema, columns: seq<seq<Value>>)

  // Columns agree with the schema; a column of 128-bit integers cannot be constructed.
  predicate WellFormed(b: Batch) {
    && b.schema.Valid() && |b.columns| == |b.schema.names|
    && forall c :: 0 <= c < |b.columns| ==>
         |b.columns[c]| == b.rows && !b.schema.types[c].Int128? && AllTyped(b.schema.types[c], b.columns[c])
  }

  // The first column of that name, or the number of columns.
  function ColumnIndex(names: seq<Bytes>, name: Bytes): (i: nat)
    ensures i <= |names|
    ensures i < |names| ==> names[i] == name
    ensures forall k :: 0 <= k < i ==> names[k] != name
  {
    if |names| == 0 || names[0] == name then 0 else 1 + ColumnIndex(names[1..], name)
  }

  lemma ColumnIndexIs(names: seq<Bytes>, name: Bytes, i: nat)
    requires i <= |names| && (i < |names| ==> names[i] == name)
    requires forall k :: 0 <= k < i ==> names[k] != name
    ensures ColumnIndex(names, name) == i
  {
  }

  method FindColumn(schema: Schema, name: Bytes) returns (index: nat)
    ensures index == ColumnIndex(schema.names, name)
  {
    for i := 0 to |schema.names|
      invariant forall k :: 0 <= k < i ==> schema.names[k] != name
    {
      if schema.names[i] == name {
        ColumnIndexIs(schema.names, name, i);
        return i;
      }
    }
    ColumnIndexIs(schema.names, name, |schema.names|);
    return |schema.names|;
  }

  // ------------------------------------------------------------------ picking

  function Pick<T>(s: seq<T>, indices: seq<nat>): (r: seq<T>)
    requires forall j :: 0 <= j < |indices| ==> indices[j] < |s|
    ensures |r| == |indices|
  {
    seq(|indices|, j requires 0 <= j < |indices| => s[indices[j]])
  }

  // std::iota from 0.
  function AllIndices(n: nat): (indices: seq<nat>)
    ensures |indices| == n && forall j :: 0 <= j < n ==> indices[j] == j
  {
    seq(n, j requires 0 <= j => j)
  }

  method CopyRowsTyped(column: seq<Value>, indices: seq<nat>) returns (r: seq<Value>)
    requires forall j :: 0 <= j < |indices| ==> indices[j] < |column|
    ensures r == Pick(column, indices)
    ensures |r| == |indices| && forall j :: 0 <= j < |r| ==> r[j] == column[indices[j]]
  {
    r := [];
    for j := 0 to |indices|
      invariant |r| == j && forall k :: 0 <= k < j ==> r[k] == column[indices[k]]
    {
      r := r + [column[indices[j]]];
    }
  }

  // --------------------------------------------------------------------- rows

  function RowAt(b: Batch, i: nat): (row: Row)
    requires WellFormed(b) && i < b.rows
    ensures |row| == |b.columns|
  {
    seq(|b.columns|, c requires 0 <= c < |b.columns| => b.columns[c][i])
  }

  function RowsOf(b: Batch): (rows: seq<Row>)
    requires WellFormed(b)
    ensures |rows| == b.rows
    ensures forall i :: 0 <= i < |rows| ==> |rows[i]| == |b.columns|
  {
    seq(b.rows, i requires 0 <= i < b.rows => RowAt(b, i))
  }

  predicate SameSchema(batches: seq<Batch>, schema: Schema) {
    forall i :: 0 <= i < |batches| ==> WellFormed(batches[i]) && batches[i].schema == schema
  }

  // The rows of all batches, one batch after the other.
  function AllRows(batches: seq<Batch>): seq<Row>
    requires forall i :: 0 <= i < |batches| ==> WellFormed(batches[i])
  {
    if |batches| == 0 then [] else AllRows(batches[..|batches| - 1]) + RowsOf(batches[|batches| - 1])
  }

  // The rows at the given places, as the operators copy them column by column.
  method CopyBatchRows(b: Batch, indices: seq<nat>) returns (r: Batch)
    requires WellFormed(b) && forall j :: 0 <= j < |indices| ==> indices[j] < b.rows
    ensures WellFormed(r) && r.schema == b.schema && r.rows == |indices|
    ensures RowsOf(r) == Pick(RowsOf(b), indices)
  {
    var columns := [];
    for c := 0 to |b.columns|
      invariant |columns| == c
      invariant forall d :: 0 <= d < c ==> columns[d] == Pick(b.columns[d], indices)
    {
      var column := CopyRowsTyped(b.columns[c], indices);
      columns := columns + [column];
    }
    r := Batch(|indices|, b.schema, columns);
    forall j | 0 <= j < |indices|
      ensures RowsOf(r)[j] == Pick(RowsOf(b), indices)[j]
    {
      assert RowAt(r, j) == RowAt(b, indices[j]);
    }
  }

  function ConcatColumn(batches: seq<Batch>, schema: Schema, c: nat): seq<Value>
    requires SameSchema(batches, schema) && c < |schema.names|
  {
    if |batches| == 0 then []
    else ConcatColumn(batches[..|batches| - 1], schema, c) + batches[|batches| - 1].columns[c]
  }

  function RowCount(batches: seq<Batch>): nat {
    if |batches| == 0 then 0 else RowCount(batches[..|batches| - 1]) + batches[|batches| - 1].rows
  }

  function MergedBatch(batches: seq<Batch>, schema: Schema): Batch
    requires SameSchema(batches, schema)
  {
    Batch(RowCount(batches), schema, seq(|schema.names|, c requires 0 <= c < |schema.names| =>
      ConcatColumn(batches, schema, c)))
  }

  // Concatenating columns concatenates rows.
  lemma {:induction false} MergedRows(batches: seq<Batch>, schema: Schema)
    requires SameSchema(batches, schema) && schema.Valid()
    requires forall c :: 0 <= c < |schema.types| ==> !schema.types[c].Int128?
    ensures WellFormed(MergedBatch(batches, schema)) && RowsOf(MergedBatch(batches, schema)) == AllRows(batches)
  {
    if |batches| > 0 {
      var front, last := batches[..|batches| - 1], batches[|batches| - 1];
      MergedRows(front, schema);
      var m, f := MergedBatch(batches, schema), MergedBatch(front, schema);
      assert forall c :: 0 <= c < |m.columns| ==> m.columns[c] == f.columns[c] + last.columns[c];
      forall i | 0 <= i < m.rows
        ensures RowsOf(m)[i] == AllRows(batches)[i]
      {
        if i < f.rows {
          assert RowAt(m, i) == RowAt(f, i);
        } else {
          assert RowAt(m, i) == RowAt(last, i - f.rows);
        }
      }
    }
  }

  // None is the null pointer for no batches.
  method MergeBatchesByRows(batches: seq<Batch>) returns (r: Option<Batch>)
    requires |batches| > 0 ==> SameSchema(batches, batches[0].schema)
    ensures r.None? <==> |batches| == 0
    ensures r.Some? ==> WellFormed(r.value) && r.value.schema == batches[0].schema
    ensures r.Some? ==> SameSchema(batches, batches[0].schema) && RowsOf(r.value) == AllRows(batches)
    ensures r.Some? ==> r.value == MergedBatch(batches, batches[0].schema)
  {
    if |batches| == 0 {
      return None;
    }
    var schema := batches[0].schema;
    assert batches[..|batches|] == batches;
    var totalRows := 0;
    for i := 0 to |batches|
      invariant totalRows == RowCount(batches[..i])
    {
      assert batches[..i + 1][..i] == batches[..i];
      totalRows := totalRows + batches[i].rows;
    }
    var columns := [];
    for c := 0 to |schema.names|
      invariant |columns| == c
      invariant forall d :: 0 <= d < c ==> columns[d] == ConcatColumn(batches, schema, d)
    {
      var column := [];
      for i := 0 to |batches|
        invariant column == ConcatColumn(batches[..i], schema, c)
      {
        assert batches[..i + 1][..i] == batches[..i];
        column := column + batches[i].columns[c];
      }
      columns := columns + [column];
    }
    MergedRows(batches, schema);
    assert Batch(totalRows, schema, columns) == MergedBatch(batches, schema);
    r := Some(Batch(totalRows, schema, columns));
  }

  // Where batches are cut does not matter to their concatenation.
  lemma RowsDetermineBatch(a: Batch, b: Batch)
    requires WellFormed(a) && WellFormed(b) && a.schema == b.schema && RowsOf(a) == RowsOf(b)
    ensures a == b
    ensures forall i, c :: 0 <= i < a.rows && 0 <= c < |a.columns| ==> RowsOf(a)[i][c] == a.columns[c][i]
  {
    forall c, i | 0 <= c < |a.columns| && 0 <= i < a.rows
      ensures a.columns[c][i] == b.columns[c][i]
    {
      assert RowsOf(a)[i][c] == RowsOf(b)[i][c];
    }
    assert forall c :: 0 <= c < |a.columns| ==> a.columns[c] == b.columns[c];
    assert a.columns == b.columns;
  }

  // The table of the rows at the given places.
  function Picked(table: Batch, indices: seq<nat>): (r: Batch)
    requires WellFormed(table) && forall j :: 0 <= j < |indices| ==> indices[j] < table.rows
    ensures WellFormed(r) && r.schema == table.schema && r.rows == |indices|
  {
    Batch(|indices|, table.schema,
          seq(|table.columns|, c requires 0 <= c < |table.columns| => Pick(table.columns[c], indices)))
  }

  lemma AllRowsOfOne(b: Batch)
    requires WellFormed(b)
    ensures AllRows([b]) == RowsOf(b)
  {
    assert [b][..0] == [];
  }

  // The rows picked, column by column.
  lemma PickedColumn(table: Batch, rows: seq<nat>, c: nat)
    requires WellFormed(table) && c < |table.columns| && forall p :: 0 <= p < |rows| ==> rows[p] < table.rows
    ensures Picked(table, rows).rows == |rows| == |Picked(table, rows).columns[c]|
    ensures forall p :: 0 <= p < |rows| ==> Picked(table, rows).columns[c][p] == table.columns[c][rows[p]]
  {
  }
}
