/** Row filtering batch by batch, and group-by over a filter. */
module Filter {
  import opened Words
  import opened Tables
  import opened Source
  import opened Aggregation
  import opened Global
  import opened GroupBy
  import opened GroupedAggregation
  import opened GroupByOperator

  // The rows a condition keeps, in their order.
  function Kept(keep: Row -> bool, rows: seq<Row>): seq<Row> {
    if |rows| == 0 then []
    else
      var front := Kept(keep, rows[..|rows| - 1]);
      if keep(rows[|rows| - 1]) then front + [rows[|rows| - 1]] else front
  }

  lemma {:induction false} KeptConcat(keep: Row -> bool, a: seq<Row>, b: seq<Row>)
    ensures Kept(keep, a + b) == Kept(keep, a) + Kept(keep, b)
  {
    if |b| == 0 {
      assert a + b == a;
    } else {
      assert (a + b)[..|a + b| - 1] == a + b[..|b| - 1];
      KeptConcat(keep, a, b[..|b| - 1]);
    }
  }

  // Kept rows are those of the table that satisfy the condition, as often as they occur there.
  lemma {:induction false} KeptIs(keep: Row -> bool, rows: seq<Row>, row: Row)
    ensures multiset(Kept(keep, rows))[row] == if keep(row) then multiset(rows)[row] else 0
  {
    if |rows| > 0 {
      var front := rows[..|rows| - 1];
      KeptIs(keep, front, row);
      assert rows == front + [rows[|rows| - 1]];
    }
  }

  // The places of the rows kept.
  function KeptPlaces(keep: Row -> bool, rows: seq<Row>): (places: seq<nat>)
    ensures forall j :: 0 <= j < |places| ==> places[j] < |rows|
  {
    if |rows| == 0 then []
    else
      var front, n := KeptPlaces(keep, rows[..|rows| - 1]), |rows| - 1;
      if keep(rows[n]) then front + [n] else front
  }

  // The table of the rows kept.
  function FilteredTable(keep: Row -> bool, table: Batch): (r: Batch)
    requires WellFormed(table)
    ensures WellFormed(r) && r.schema == table.schema
  {
    Picked(table, KeptPlaces(keep, RowsOf(table)))
  }

  lemma {:induction false} PlacesPickKept(keep: Row -> bool, rows: seq<Row>)
    ensures Pick(rows, KeptPlaces(keep, rows)) == Kept(keep, rows)
  {
    if |rows| > 0 {
      var front, n := rows[..|rows| - 1], |rows| - 1;
      PlacesPickKept(keep, front);
      assert Pick(rows, KeptPlaces(keep, front)) == Pick(front, KeptPlaces(keep, front));
      assert Pick(rows, KeptPlaces(keep, front) + [n]) == Pick(rows, KeptPlaces(keep, front)) + [rows[n]];
    }
  }

  lemma FilteredRows(keep: Row -> bool, table: Batch)
    requires WellFormed(table)
    ensures RowsOf(FilteredTable(keep, table)) == Kept(keep, RowsOf(table))
  {
    var places := KeptPlaces(keep, RowsOf(table));
    PlacesPickKept(keep, RowsOf(table));
    forall j | 0 <= j < |places|
      ensures RowsOf(FilteredTable(keep, table))[j] == Pick(RowsOf(table), places)[j]
    {
      assert RowAt(Picked(table, places), j) == RowAt(table, places[j]);
    }
  }

  class FilterOperator {
    const next: BatchSource
    // The predicate expression, as a condition on rows.
    const keep: Row -> bool

    constructor (next: BatchSource, keep: Row -> bool)
      ensures this.next == next && this.keep == keep
    {
      this.next := next;
      this.keep := keep;
    }

    // A batch stays a batch, possibly an empty one.
    method Next() returns (r: Option<Batch>)
      requires next.pending != [] ==> WellFormed(next.pending[0])
      modifies next
      ensures r.None? <==> old(next.pending) == []
      ensures r.None? ==> next.pending == []
      ensures r.Some? ==> next.pending == old(next.pending)[1..]
      ensures r.Some? ==> WellFormed(old(next.pending)[0]) && WellFormed(r.value)
      ensures r.Some? ==> r.value.schema == old(next.pending)[0].schema
      ensures r.Some? ==> RowsOf(r.value) == Kept(keep, RowsOf(old(next.pending)[0]))
      ensures r.Some? ==> r.value == FilteredTable(keep, old(next.pending)[0])
    {
      var batch := next.Next();
      if batch.None? {
        return None;
      }
      var mask := seq(batch.value.rows, j requires 0 <= j < batch.value.rows => keep(RowAt(batch.value, j)));
      var indices: seq<nat> := [];
      ghost var rows := RowsOf(batch.value);
      for j := 0 to |mask|
        invariant forall i :: 0 <= i < |indices| ==> indices[i] < j
        invariant Pick(rows, indices) == Kept(keep, rows[..j])
      {
        assert rows[..j + 1][..j] == rows[..j];
        if mask[j] {
          assert Pick(rows, indices + [j]) == Pick(rows, indices) + [rows[j]];
          indices := indices + [j];
        }
      }
      assert rows[..|rows|] == rows;
      var kept := CopyBatchRows(batch.value, indices);
      FilteredRows(keep, batch.value);
      RowsDetermineBatch(kept, FilteredTable(keep, batch.value));
      r := Some(kept);
    }
  }

  // ------------------------------------------------------------ whole streams

  // All the batches a filter delivers.
  method FilterAll(filter: FilterOperator) returns (kept: seq<Batch>)
    requires Uniform(filter.next.pending)
    modifies filter.next
    ensures filter.next.pending == [] && |kept| == |old(filter.next.pending)| && Uniform(kept)
    ensures forall b :: b in old(filter.next.pending) ==> WellFormed(b)
    ensures kept != [] ==> SameSchema(kept, old(filter.next.pending)[0].schema)
    ensures forall i :: 0 <= i < |kept| ==> kept[i] == FilteredTable(filter.keep, old(filter.next.pending)[i])
    ensures (forall i :: 0 <= i < |kept| ==> WellFormed(kept[i]))
      && AllRows(kept) == Kept(filter.keep, AllRows(old(filter.next.pending)))
  {
    hide RowsOf, WellFormed, Kept, AllRows, FilteredTable;
    ghost var all := filter.next.pending;
    kept := [];
    ghost var n := 0;
    NothingKept(filter.keep, all[..0]);
    var batch := filter.Next();
    while batch.Some?
      invariant n <= |all| && |kept| == n
      invariant n < |all| <==> batch.Some?
      invariant batch.Some? ==>
        && filter.next.pending == all[n + 1..] && WellFormed(batch.value) && WellFormed(all[n])
        && batch.value.schema == all[0].schema && RowsOf(batch.value) == Kept(filter.keep, RowsOf(all[n]))
        && batch.value == FilteredTable(filter.keep, all[n])
      invariant batch.None? ==> filter.next.pending == []
      invariant forall i :: 0 <= i < n ==> WellFormed(kept[i]) && kept[i].schema == all[0].schema
      invariant forall i :: 0 <= i < n ==> WellFormed(all[i]) && kept[i] == FilteredTable(filter.keep, all[i])
      invariant AllRows(kept) == Kept(filter.keep, AllRows(all[..n]))
      decreases |all| - n
    {
      KeptNext(filter.keep, all, n, kept, batch.value);
      kept := kept + [batch.value];
      n := n + 1;
      batch := filter.Next();
    }
    assert all[..n] == all;
  }

  lemma NothingKept(keep: Row -> bool, none: seq<Batch>)
    requires none == []
    ensures AllRows([]) == Kept(keep, AllRows(none))
  {
  }

  lemma KeptNext(keep: Row -> bool, all: seq<Batch>, n: nat, kept: seq<Batch>, last: Batch)
    requires n < |all| && forall i :: 0 <= i < |all| ==> WellFormed(all[i])
    requires WellFormed(last) && forall i :: 0 <= i < |kept| ==> WellFormed(kept[i])
    requires AllRows(kept) == Kept(keep, AllRows(all[..n])) && RowsOf(last) == Kept(keep, RowsOf(all[n]))
    ensures forall i :: 0 <= i < |kept + [last]| ==> WellFormed((kept + [last])[i])
    ensures AllRows(kept + [last]) == Kept(keep, AllRows(all[..n + 1]))
  {
    assert all[..n + 1][..n] == all[..n];
    assert (kept + [last])[..|kept|] == kept;
    KeptConcat(keep, AllRows(all[..n]), RowsOf(all[n]));
  }

  // Filtering batches and merging them is merging them and filtering the table.
  lemma FilterCommutesWithMerge(keep: Row -> bool, all: seq<Batch>, kept: seq<Batch>, schema: Schema)
    requires all != [] && SameSchema(all, schema) && SameSchema(kept, schema)
    requires AllRows(kept) == Kept(keep, AllRows(all))
    ensures WellFormed(MergedBatch(all, schema)) && RowCount(kept) <= RowCount(all)
    ensures MergedBatch(kept, schema) == FilteredTable(keep, MergedBatch(all, schema))
  {
    hide Kept, FilteredTable, RowsOf;
    ValidSchema(all, schema);
    MergedRows(all, schema);
    MergedRows(kept, schema);
    FilteredRows(keep, MergedBatch(all, schema));
    KeptIsShorter(keep, AllRows(all));
    RowsDetermineBatch(MergedBatch(kept, schema), FilteredTable(keep, MergedBatch(all, schema)));
  }

  lemma {:induction false} KeptIsShorter(keep: Row -> bool, rows: seq<Row>)
    ensures |Kept(keep, rows)| <= |rows|
  {
    if |rows| > 0 {
      KeptIsShorter(keep, rows[..|rows| - 1]);
    }
  }

  // SELECT ... WHERE ... GROUP BY: the grouped table of the rows kept from the whole stream.
  method FilterThenGroupBy(batches: seq<Batch>, keep: Row -> bool, names: seq<Bytes>, kinds: seq<Aggregate>)
    returns (r: Reply)
    requires batches != [] && Uniform(batches) && RowCount(batches) < ROW_LIMIT
    requires HasColumns(batches[0].schema, names) && WellFormed(MergedBatch(batches, batches[0].schema))
    requires GroupsInScope(kinds, FilteredTable(keep, MergedBatch(batches, batches[0].schema)), names)
    requires forall i :: 0 <= i < |kinds| ==> HasNeededColumn(kinds[i], batches[0].schema)
    ensures SameSchema(batches, batches[0].schema) && WellFormed(MergedBatch(batches, batches[0].schema))
    ensures var table := FilteredTable(keep, MergedBatch(batches, batches[0].schema));
      var fault := GroupFault(kinds, table.schema);
      && (table.rows == 0 ==> r == Null)
      && (table.rows > 0 && !fault.Done? ==> r == Thrown(fault))
      && (table.rows > 0 && fault.Done? ==>
            && (forall i :: 0 <= i < |kinds| ==> Verdict(kinds[i], table.schema).Done?)
            && IsReply(r, table, names, kinds))
  {
    hide RowsOf, AllRows, IsReply, GroupFault, Verdict, GroupsInScope, HasNeededColumn, Kept, FilteredTable;
    var source := new BatchSource(batches);
    var filter := new FilterOperator(source, keep);
    var kept := FilterAll(filter);
    FilterCommutesWithMerge(keep, batches, kept, batches[0].schema);
    var filtered := new BatchSource(kept);
    var groupBy := new GroupByAggregationOperator(filtered, names, kinds);
    r := groupBy.Next();
  }
}
