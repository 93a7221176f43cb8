/** Limit and offset, which cut each batch by itself, and what they mean after a sort or a top-k. */
module Limit {
  import opened Words
  import opened Tables
  import opened Order
  import opened Source
  import opened TopK
  import opened Sort

  function Min(a: nat, b: nat): nat {
    if a < b then a else b
  }

  // std::iota from `start`.
  function Range(start: nat, end: nat): (indices: seq<nat>)
    requires start <= end
    ensures |indices| == end - start
  {
    seq(end - start, j requires 0 <= j => start + j)
  }

  lemma PickRange<T>(s: seq<T>, start: nat, end: nat)
    requires start <= end <= |s|
    ensures Pick(s, Range(start, end)) == s[start..end]
  {
  }

  class LimitOperator {
    const next: BatchSource
    const limit: nat

    constructor (next: BatchSource, limit: nat)
      ensures this.next == next && this.limit == limit
    {
      this.next := next;
      this.limit := limit;
    }

    // The limit is applied afresh to every batch.
    method Next() returns (r: Option<Batch>)
      requires next.pending != [] ==> WellFormed(next.pending[0])
      modifies next
      ensures r.None? <==> old(next.pending) == []
      ensures r.None? ==> next.pending == []
      ensures r.Some? ==> next.pending == old(next.pending)[1..]
      ensures r.Some? ==> WellFormed(old(next.pending)[0]) && WellFormed(r.value)
      ensures r.Some? ==> r.value.schema == old(next.pending)[0].schema
      ensures r.Some? ==>
        RowsOf(r.value) == RowsOf(old(next.pending)[0])[..Min(limit, old(next.pending)[0].rows)]
    {
      var batch := next.Next();
      if batch.None? {
        return None;
      }
      var rows := Min(limit, batch.value.rows);
      if rows == batch.value.rows {
        return batch;
      }
      PickRange(RowsOf(batch.value), 0, rows);
      var cut := CopyBatchRows(batch.value, Range(0, rows));
      r := Some(cut);
    }
  }

  class OffsetOperator {
    const next: BatchSource
    const offset: nat

    constructor (next: BatchSource, offset: nat)
      ensures this.next == next && this.offset == offset
    {
      this.next := next;
      this.offset := offset;
    }

    method Next() returns (r: Option<Batch>)
      requires next.pending != [] ==> WellFormed(next.pending[0])
      modifies next
      ensures r.None? <==> old(next.pending) == []
      ensures r.None? ==> next.pending == []
      ensures r.Some? ==> next.pending == old(next.pending)[1..]
      ensures r.Some? ==> WellFormed(old(next.pending)[0]) && WellFormed(r.value)
      ensures r.Some? ==> r.value.schema == old(next.pending)[0].schema
      ensures r.Some? ==>
        RowsOf(r.value) == RowsOf(old(next.pending)[0])[Min(offset, old(next.pending)[0].rows)..]
    {
      var batch := next.Next();
      if batch.None? {
        return None;
      }
      var start := Min(offset, batch.value.rows);
      if start == 0 {
        return batch;
      }
      PickRange(RowsOf(batch.value), start, batch.value.rows);
      var cut := CopyBatchRows(batch.value, Range(start, batch.value.rows));
      r := Some(cut);
    }
  }

  // ------------------------------------------------------------------- plans

  lemma OffsetKeys(top: seq<Row>, rows: seq<Row>, k: nat, offset: nat, o: Ordering, sorted: seq<Row>)
    requires IsTopKOf(top, rows, k + offset, o)
    requires AllFit(sorted, o) && SortedRows(sorted, o) && multiset(sorted) == multiset(rows)
    ensures |sorted| == |rows| && |top| == Min(k + offset, |rows|)
    ensures Keys(top[Min(offset, |top|)..], o)
         == Keys(sorted, o)[Min(offset, |rows|)..Min(offset + k, |rows|)]
  {
    TopKKeysAreFirst(top, rows, k + offset, o, sorted);
    var from := Min(offset, |top|);
    assert |Keys(top, o)| == |top|;
    assert Keys(top[from..], o) == Keys(top, o)[from..];
  }

  // ORDER BY ... LIMIT k OFFSET m, planned as an offset over a top-(k + m).
  method OffsetOverTopK(batches: seq<Batch>, sortColumns: seq<Bytes>, descending: bool, k: nat, offset: nat)
    returns (r: Option<Batch>)
    requires Uniform(batches) && CanSort(batches, sortColumns, descending)
    ensures r.None? <==> batches == []
    ensures r.Some? ==> WellFormed(r.value) && forall b :: b in batches ==> WellFormed(b)
    ensures r.Some? ==> var rows, o := AllRows(batches), Ordering(SortKeys(batches[0].schema, sortColumns), descending);
      forall sorted | AllFit(sorted, o) && SortedRows(sorted, o) && multiset(sorted) == multiset(rows) ::
        |sorted| == |rows|
        && Keys(RowsOf(r.value), o) == Keys(sorted, o)[Min(offset, |rows|)..Min(offset + k, |rows|)]
  {
    hide RowsOf, AllRows, IsTopKOf, Keys;
    var source := new BatchSource(batches);
    var topK := new TopKOperator(source, sortColumns, k + offset, descending);
    var top := topK.Next();
    var delivered := new BatchSource(if top.Some? then [top.value] else []);
    var offsetOver := new OffsetOperator(delivered, offset);
    r := offsetOver.Next();
    if r.Some? {
      ghost var rows, o := AllRows(batches), Ordering(SortKeys(batches[0].schema, sortColumns), descending);
      forall sorted | AllFit(sorted, o) && SortedRows(sorted, o) && multiset(sorted) == multiset(rows)
        ensures |sorted| == |rows|
          && Keys(RowsOf(r.value), o) == Keys(sorted, o)[Min(offset, |rows|)..Min(offset + k, |rows|)]
      {
        OffsetKeys(RowsOf(top.value), rows, k, offset, o, sorted);
      }
    }
  }

  // A limit over the full sort is a top-k, with ties kept in table order.
  method LimitOverSort(batches: seq<Batch>, sortColumn: Bytes, descending: bool, k: nat)
    returns (r: Option<Batch>)
    requires Uniform(batches) && CanSort(batches, [sortColumn], descending)
    ensures r.None? <==> batches == []
    ensures r.Some? ==> WellFormed(r.value) && forall b :: b in batches ==> WellFormed(b)
    ensures r.Some? ==>
      var rows, o := AllRows(batches), Ordering(SortKeys(batches[0].schema, [sortColumn]), descending);
      && IsTopKOf(RowsOf(r.value), rows, k, o)
      && exists sorted :: IsStableSort(sorted, rows, o) && RowsOf(r.value) <= sorted
  {
    hide RowsOf, AllRows, IsStableSort, SortKeys, AllFit, SortedRows;
    var source := new BatchSource(batches);
    var sort := new SortOperator(source, sortColumn, descending);
    var sorted := sort.Next();
    var delivered := new BatchSource(if sorted.Some? then [sorted.value] else []);
    var limit := new LimitOperator(delivered, k);
    r := limit.Next();
    if r.Some? {
      ghost var rows, o := AllRows(batches), Ordering(SortKeys(batches[0].schema, [sortColumn]), descending);
      StableSortIsSorted(RowsOf(sorted.value), rows, o);
      FrontOfSorted(RowsOf(sorted.value), rows, k, o);
    }
  }

  // ------------------------------------------------------- several batches

  // The rows a limit lets through, batch by batch.
  function LimitedRows(batches: seq<Batch>, k: nat): seq<Row>
    requires forall i :: 0 <= i < |batches| ==> WellFormed(batches[i])
  {
    if |batches| == 0 then []
    else
      var last := batches[|batches| - 1];
      LimitedRows(batches[..|batches| - 1], k) + RowsOf(last)[..Min(k, last.rows)]
  }

  predicate AtMostOneHasRows(batches: seq<Batch>) {
    forall i, j :: 0 <= i < j < |batches| ==> batches[i].rows == 0 || batches[j].rows == 0
  }

  lemma {:induction false} LimitCutsNothing(batches: seq<Batch>, k: nat)
    requires forall i :: 0 <= i < |batches| ==> WellFormed(batches[i]) && batches[i].rows <= k
    ensures LimitedRows(batches, k) == AllRows(batches)
  {
    if |batches| > 0 {
      LimitCutsNothing(batches[..|batches| - 1], k);
    }
  }

  lemma {:induction false} LimitLetsThrough(batches: seq<Batch>, k: nat, i: nat, j: nat)
    requires forall i :: 0 <= i < |batches| ==> WellFormed(batches[i])
    requires i < |batches| && j < |batches|
    ensures |AllRows(batches)| >= batches[i].rows && |LimitedRows(batches, k)| >= Min(k, batches[i].rows)
    ensures i != j ==> |LimitedRows(batches, k)| >= Min(k, batches[i].rows) + Min(k, batches[j].rows)
  {
    var front, n := batches[..|batches| - 1], |batches| - 1;
    if i < n && j < n {
      LimitLetsThrough(front, k, i, j);
    } else if i < n {
      LimitLetsThrough(front, k, i, i);
    } else if j < n {
      LimitLetsThrough(front, k, j, j);
    }
  }

  lemma {:induction false} LimitOfOneBatch(batches: seq<Batch>, k: nat)
    requires forall i :: 0 <= i < |batches| ==> WellFormed(batches[i])
    requires AtMostOneHasRows(batches)
    ensures LimitedRows(batches, k) == AllRows(batches)[..Min(k, |AllRows(batches)|)]
  {
    if |batches| > 0 {
      var front, last := batches[..|batches| - 1], batches[|batches| - 1];
      if last.rows == 0 {
        LimitOfOneBatch(front, k);
      } else {
        LimitCutsNothing(front, 0);
        assert |AllRows(front)| == 0 by {
          LimitOfOneBatch(front, 0);
        }
        LimitOfOneBatch(front, k);
      }
    }
  }

  // Otherwise more rows get through than the table's limit allows.
  lemma TooManyThrough(batches: seq<Batch>, k: nat)
    requires forall i :: 0 <= i < |batches| ==> WellFormed(batches[i])
    requires 0 < k < |AllRows(batches)| && !AtMostOneHasRows(batches)
    ensures |LimitedRows(batches, k)| > k
  {
    hide RowsOf, WellFormed;
    var i, j :| 0 <= i < j < |batches| && batches[i].rows != 0 && batches[j].rows != 0;
    if forall i :: 0 <= i < |batches| ==> batches[i].rows <= k {
      LimitCutsNothing(batches, k);
    } else {
      var m :| 0 <= m < |batches| && batches[m].rows > k;
      LimitLetsThrough(batches, k, m, if i == m then j else i);
    }
  }

  // Limiting every batch is limiting the table exactly when the limit is 0, nothing is cut, or one batch has rows.
  lemma LimitIsWholeTable(batches: seq<Batch>, k: nat)
    requires forall i :: 0 <= i < |batches| ==> WellFormed(batches[i])
    ensures LimitedRows(batches, k) == AllRows(batches)[..Min(k, |AllRows(batches)|)]
       <==> k == 0 || |AllRows(batches)| <= k || AtMostOneHasRows(batches)
  {
    hide RowsOf, WellFormed;
    if AtMostOneHasRows(batches) {
      LimitOfOneBatch(batches, k);
    } else if k == 0 {
      NothingThrough(batches);
    } else if |AllRows(batches)| <= k {
      BatchesAreSmaller(batches);
      LimitCutsNothing(batches, k);
    } else {
      TooManyThrough(batches, k);
    }
  }

  lemma BatchesAreSmaller(batches: seq<Batch>)
    requires forall i :: 0 <= i < |batches| ==> WellFormed(batches[i])
    ensures forall i :: 0 <= i < |batches| ==> batches[i].rows <= |AllRows(batches)|
  {
    forall i | 0 <= i < |batches|
      ensures batches[i].rows <= |AllRows(batches)|
    {
      LimitLetsThrough(batches, 0, i, i);
    }
  }

  lemma {:induction false} NothingThrough(batches: seq<Batch>)
    requires forall i :: 0 <= i < |batches| ==> WellFormed(batches[i])
    ensures LimitedRows(batches, 0) == []
  {
    if |batches| > 0 {
      NothingThrough(batches[..|batches| - 1]);
    }
  }

  // The rows an offset leaves, batch by batch.
  function DroppedRows(batches: seq<Batch>, k: nat): seq<Row>
    requires forall i :: 0 <= i < |batches| ==> WellFormed(batches[i])
  {
    if |batches| == 0 then []
    else
      var last := batches[|batches| - 1];
      DroppedRows(batches[..|batches| - 1], k) + RowsOf(last)[Min(k, last.rows)..]
  }

  lemma {:induction false} LimitedAndDropped(batches: seq<Batch>, k: nat)
    requires forall i :: 0 <= i < |batches| ==> WellFormed(batches[i])
    ensures |LimitedRows(batches, k)| + |DroppedRows(batches, k)| == |AllRows(batches)|
  {
    if |batches| > 0 {
      LimitedAndDropped(batches[..|batches| - 1], k);
    }
  }

  lemma {:induction false} OffsetDropsAll(batches: seq<Batch>, k: nat)
    requires forall i :: 0 <= i < |batches| ==> WellFormed(batches[i]) && batches[i].rows <= k
    ensures DroppedRows(batches, k) == []
  {
    if |batches| > 0 {
      OffsetDropsAll(batches[..|batches| - 1], k);
    }
  }

  lemma {:induction false} OffsetDropsNothing(batches: seq<Batch>)
    requires forall i :: 0 <= i < |batches| ==> WellFormed(batches[i])
    ensures DroppedRows(batches, 0) == AllRows(batches)
  {
    if |batches| > 0 {
      OffsetDropsNothing(batches[..|batches| - 1]);
    }
  }

  lemma {:induction false} OffsetOfOneBatch(batches: seq<Batch>, k: nat)
    requires forall i :: 0 <= i < |batches| ==> WellFormed(batches[i])
    requires AtMostOneHasRows(batches)
    ensures DroppedRows(batches, k) == AllRows(batches)[Min(k, |AllRows(batches)|)..]
  {
    hide RowsOf, WellFormed;
    if |batches| > 0 {
      var front, last := batches[..|batches| - 1], batches[|batches| - 1];
      OffsetOfOneBatch(front, k);
      if last.rows > 0 {
        LimitOfOneBatch(front, 0);
        LimitCutsNothing(front, 0);
        assert AllRows(front) == [] && AllRows(batches) == RowsOf(last);
      } else {
        assert RowsOf(last) == [] && AllRows(batches) == AllRows(front);
      }
    }
  }

  // The same condition for offsets.
  lemma OffsetIsWholeTable(batches: seq<Batch>, k: nat)
    requires forall i :: 0 <= i < |batches| ==> WellFormed(batches[i])
    ensures DroppedRows(batches, k) == AllRows(batches)[Min(k, |AllRows(batches)|)..]
       <==> k == 0 || |AllRows(batches)| <= k || AtMostOneHasRows(batches)
  {
    hide RowsOf, WellFormed;
    if AtMostOneHasRows(batches) {
      OffsetOfOneBatch(batches, k);
    } else if k == 0 {
      OffsetDropsNothing(batches);
    } else if |AllRows(batches)| <= k {
      BatchesAreSmaller(batches);
      OffsetDropsAll(batches, k);
    } else {
      TooManyThrough(batches, k);
      LimitedAndDropped(batches, k);
    }
  }

  // ------------------------------------------------------------ whole streams

  lemma NothingCut(none: seq<Batch>, k: nat)
    requires none == []
    ensures AllRows([]) == LimitedRows(none, k) == DroppedRows(none, k)
  {
  }

  lemma Appended(cut: seq<Batch>, last: Batch)
    requires WellFormed(last) && forall i :: 0 <= i < |cut| ==> WellFormed(cut[i])
    ensures AllRows(cut + [last]) == AllRows(cut) + RowsOf(last)
  {
    assert (cut + [last])[..|cut|] == cut;
  }

  lemma LimitNext(all: seq<Batch>, n: nat, cut: seq<Batch>, last: Batch, k: nat)
    requires n < |all| && (forall i :: 0 <= i < |all| ==> WellFormed(all[i])) && WellFormed(last)
    requires forall i :: 0 <= i < |cut| ==> WellFormed(cut[i])
    requires AllRows(cut) == LimitedRows(all[..n], k) && RowsOf(last) == RowsOf(all[n])[..Min(k, all[n].rows)]
    ensures forall i :: 0 <= i < |cut + [last]| ==> WellFormed((cut + [last])[i])
    ensures AllRows(cut + [last]) == LimitedRows(all[..n + 1], k)
  {
    hide RowsOf;
    assert all[..n + 1][..n] == all[..n];
    Appended(cut, last);
  }

  lemma OffsetNext(all: seq<Batch>, n: nat, cut: seq<Batch>, last: Batch, k: nat)
    requires n < |all| && (forall i :: 0 <= i < |all| ==> WellFormed(all[i])) && WellFormed(last)
    requires forall i :: 0 <= i < |cut| ==> WellFormed(cut[i])
    requires AllRows(cut) == DroppedRows(all[..n], k) && RowsOf(last) == RowsOf(all[n])[Min(k, all[n].rows)..]
    ensures forall i :: 0 <= i < |cut + [last]| ==> WellFormed((cut + [last])[i])
    ensures AllRows(cut + [last]) == DroppedRows(all[..n + 1], k)
  {
    hide RowsOf;
    assert all[..n + 1][..n] == all[..n];
    Appended(cut, last);
  }

  // What a consumer that pulls until the null pointer gets.
  method LimitAll(limit: LimitOperator) returns (cut: seq<Batch>)
    requires Uniform(limit.next.pending)
    modifies limit.next
    ensures limit.next.pending == [] && |cut| == |old(limit.next.pending)|
    ensures forall i :: 0 <= i < |cut| ==> WellFormed(cut[i]) && WellFormed(old(limit.next.pending)[i])
    ensures AllRows(cut) == LimitedRows(old(limit.next.pending), limit.limit)
  {
    hide RowsOf, WellFormed, AllRows, LimitedRows;
    ghost var all := limit.next.pending;
    cut := [];
    ghost var n := 0;
    NothingCut(all[..0], limit.limit);
    var batch := limit.Next();
    while batch.Some?
      invariant n <= |all| && |cut| == n && (n < |all| <==> batch.Some?)
      invariant batch.Some? ==>
        && limit.next.pending == all[n + 1..] && WellFormed(batch.value) && WellFormed(all[n])
        && RowsOf(batch.value) == RowsOf(all[n])[..Min(limit.limit, all[n].rows)]
      invariant batch.None? ==> limit.next.pending == []
      invariant forall i :: 0 <= i < n ==> WellFormed(cut[i])
      invariant AllRows(cut) == LimitedRows(all[..n], limit.limit)
      decreases |all| - n
    {
      LimitNext(all, n, cut, batch.value, limit.limit);
      cut := cut + [batch.value];
      n := n + 1;
      batch := limit.Next();
    }
    assert all[..n] == all;
  }

  method OffsetAll(offset: OffsetOperator) returns (cut: seq<Batch>)
    requires Uniform(offset.next.pending)
    modifies offset.next
    ensures offset.next.pending == [] && |cut| == |old(offset.next.pending)|
    ensures forall i :: 0 <= i < |cut| ==> WellFormed(cut[i]) && WellFormed(old(offset.next.pending)[i])
    ensures AllRows(cut) == DroppedRows(old(offset.next.pending), offset.offset)
  {
    hide RowsOf, WellFormed, AllRows, DroppedRows;
    ghost var all := offset.next.pending;
    cut := [];
    ghost var n := 0;
    NothingCut(all[..0], offset.offset);
    var batch := offset.Next();
    while batch.Some?
      invariant n <= |all| && |cut| == n && (n < |all| <==> batch.Some?)
      invariant batch.Some? ==>
        && offset.next.pending == all[n + 1..] && WellFormed(batch.value) && WellFormed(all[n])
        && RowsOf(batch.value) == RowsOf(all[n])[Min(offset.offset, all[n].rows)..]
      invariant batch.None? ==> offset.next.pending == []
      invariant forall i :: 0 <= i < n ==> WellFormed(cut[i])
      invariant AllRows(cut) == DroppedRows(all[..n], offset.offset)
      decreases |all| - n
    {
      OffsetNext(all, n, cut, batch.value, offset.offset);
      cut := cut + [batch.value];
      n := n + 1;
      batch := offset.Next();
    }
    assert all[..n] == all;
  }
}
