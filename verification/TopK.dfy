/** The k best rows of a table, and the streaming operator that keeps a running k-row batch. */
module TopK {
  import opened Words
  import opened Tables
  import opened Order
  import opened Sorting
  import opened Source

  predicate AllFit(rows: seq<Row>, o: Ordering) {
    forall i :: 0 <= i < |rows| ==> Fits(o, |rows[i]|)
  }

  predicate AllComparable(rows: seq<Row>, o: Ordering) {
    forall i :: 0 <= i < |rows| ==> Fits(o, |rows[i]|) && Comparable(rows[i], o)
  }

  predicate SortedRows(rows: seq<Row>, o: Ordering)
    requires AllFit(rows, o)
  {
    forall i, j :: 0 <= i < j < |rows| ==> !Before(rows[j], rows[i], o)
  }

  // The best min(k, n) rows in order; `rest` are the rows left out, none of them better than a kept one.
  ghost predicate IsTopK(top: seq<Row>, rest: seq<Row>, rows: seq<Row>, k: nat, o: Ordering) {
    && AllFit(top, o) && AllFit(rest, o)
    && |top| == (if k < |rows| then k else |rows|)
    && multiset(top) + multiset(rest) == multiset(rows)
    && SortedRows(top, o)
    && forall i, j :: 0 <= i < |top| && 0 <= j < |rest| ==> !Before(rest[j], top[i], o)
  }

  // --------------------------------------------------------- composing top-k

  lemma InMultiset(s: seq<Row>, x: Row)
    ensures x in multiset(s) <==> exists i :: 0 <= i < |s| && s[i] == x
  {
    assert x in multiset(s) <==> x in s;
  }

  lemma SizeOfRest(top: seq<Row>, rest: seq<Row>, rows: seq<Row>)
    requires multiset(top) + multiset(rest) == multiset(rows)
    ensures |top| + |rest| == |rows|
  {
    assert |multiset(top) + multiset(rest)| == |top| + |rest|;
  }

  // A row left out of an operand's top-k is not better than any row of the top-k of the merged tops.
  lemma OmittedStaysOmitted(c: seq<Row>, cRest: seq<Row>, a: seq<Row>, aRest: seq<Row>, aRows: seq<Row>,
      b: seq<Row>, k: nat, o: Ordering, i: nat, j: nat)
    requires IsTopK(a, aRest, aRows, k, o) && AllFit(b, o) && IsTopK(c, cRest, a + b, k, o)
    requires i < |c| && j < |aRest|
    ensures !Before(aRest[j], c[i], o)
  {
    SizeOfRest(a, aRest, aRows);
    if Before(aRest[j], c[i], o) {
      // All k rows of a are strictly before c[i], so all of them and c[i] are kept: too many.
      forall m | 0 <= m < |a|
        ensures Before(a[m], c[i], o)
      {
        BeforeIsOrder(a[m], aRest[j], c[i], o);
      }
      forall x | x in multiset(a)
        ensures multiset(a)[x] <= multiset(c)[x] && x != c[i]
      {
        InMultiset(a, x);
        var m :| 0 <= m < |a| && a[m] == x;
        BeforeIsOrder(c[i], c[i], c[i], o);
        if x in multiset(cRest) {
          InMultiset(cRest, x);
          assert false;
        }
        assert multiset(a + b)[x] == multiset(a)[x] + multiset(b)[x];
        assert (multiset(c) + multiset(cRest))[x] == multiset(c)[x];
      }
      InMultiset(c, c[i]);
      assert multiset(a) + multiset{c[i]} <= multiset(c);
      assert |multiset(a) + multiset{c[i]}| == |a| + 1;
      SubMultisetSize(multiset(a) + multiset{c[i]}, multiset(c));
    }
  }

  lemma SubMultisetSize(m: multiset<Row>, n: multiset<Row>)
    requires m <= n
    ensures |m| <= |n|
  {
    assert n == m + (n - m);
  }

  lemma TopsAddUp(c: seq<Row>, cRest: seq<Row>, a: seq<Row>, aRest: seq<Row>, aRows: seq<Row>,
      b: seq<Row>, bRest: seq<Row>, bRows: seq<Row>)
    requires multiset(c) + multiset(cRest) == multiset(a + b)
    requires multiset(a) + multiset(aRest) == multiset(aRows)
    requires multiset(b) + multiset(bRest) == multiset(bRows)
    ensures multiset(c) + multiset(cRest + aRest + bRest) == multiset(aRows + bRows)
  {
    assert multiset(a + b) == multiset(a) + multiset(b);
    assert multiset(cRest + aRest + bRest) == multiset(cRest) + multiset(aRest) + multiset(bRest);
    assert multiset(aRows + bRows) == multiset(aRows) + multiset(bRows);
    Regroup(multiset(c), multiset(cRest), multiset(a), multiset(aRest), multiset(b), multiset(bRest));
  }

  lemma Regroup(c: multiset<Row>, d: multiset<Row>, a: multiset<Row>, e: multiset<Row>, b: multiset<Row>,
      f: multiset<Row>)
    requires c + d == a + b
    ensures c + (d + e + f) == (a + e) + (b + f)
  {
    assert c + (d + e + f) == (c + d) + (e + f);
  }

  lemma NothingBetterLeft(c: seq<Row>, cRest: seq<Row>, a: seq<Row>, aRest: seq<Row>, aRows: seq<Row>,
      b: seq<Row>, bRest: seq<Row>, bRows: seq<Row>, k: nat, o: Ordering)
    requires IsTopK(a, aRest, aRows, k, o) && IsTopK(b, bRest, bRows, k, o)
    requires IsTopK(c, cRest, a + b, k, o)
    ensures forall i, j :: 0 <= i < |c| && 0 <= j < |aRest| ==> !Before(aRest[j], c[i], o)
    ensures forall i, j :: 0 <= i < |c| && 0 <= j < |bRest| ==> !Before(bRest[j], c[i], o)
  {
    forall i, j | 0 <= i < |c| && 0 <= j < |aRest|
      ensures !Before(aRest[j], c[i], o)
    {
      OmittedStaysOmitted(c, cRest, a, aRest, aRows, b, k, o, i, j);
    }
    assert multiset(a + b) == multiset(b + a);
    forall i, j | 0 <= i < |c| && 0 <= j < |bRest|
      ensures !Before(bRest[j], c[i], o)
    {
      OmittedStaysOmitted(c, cRest, b, bRest, bRows, a, k, o, i, j);
    }
  }

  // Top-k of two tops is top-k of everything.
  lemma TopKOfTops(c: seq<Row>, cRest: seq<Row>, a: seq<Row>, aRest: seq<Row>, aRows: seq<Row>,
      b: seq<Row>, bRest: seq<Row>, bRows: seq<Row>, k: nat, o: Ordering)
    requires IsTopK(a, aRest, aRows, k, o) && IsTopK(b, bRest, bRows, k, o)
    requires IsTopK(c, cRest, a + b, k, o)
    ensures IsTopK(c, cRest + aRest + bRest, aRows + bRows, k, o)
  {
    hide Before, Fits;
    NothingBetterLeft(c, cRest, a, aRest, aRows, b, bRest, bRows, k, o);
    TopsAddUp(c, cRest, a, aRest, aRows, b, bRest, bRows);
    SizeOfRest(a, aRest, aRows);
    SizeOfRest(b, bRest, bRows);
  }

  // ------------------------------------------------------------- row numbers

  // The comparator closure over the columns of a batch.
  function RowLess(b: Batch, o: Ordering): (nat, nat) -> bool
    requires WellFormed(b) && Fits(o, |b.columns|)
  {
    (x: nat, y: nat) => x < b.rows && y < b.rows && CompareAt(b.columns, o, x, y) < 0
  }

  lemma RowLessIsBefore(b: Batch, o: Ordering, x: nat, y: nat)
    requires WellFormed(b) && Fits(o, |b.columns|) && x < b.rows && y < b.rows
    requires AllComparable(RowsOf(b), o)
    ensures RowLess(b, o)(x, y) <==> Before(RowsOf(b)[x], RowsOf(b)[y], o)
  {
    assert RowsOf(b)[x] == RowAt(b, x) && RowsOf(b)[y] == RowAt(b, y);
    CompareAtMeansBefore(b, o, x, y);
  }

  lemma RowLessIsOrder(b: Batch, o: Ordering)
    requires WellFormed(b) && Fits(o, |b.columns|) && AllComparable(RowsOf(b), o)
    ensures StrictWeakOrder(RowLess(b, o), b.rows)
  {
    hide Before, RowLess, Comparable;
    var less, rows := RowLess(b, o), RowsOf(b);
    forall x: nat, y: nat, z: nat | x < b.rows && y < b.rows && z < b.rows
      ensures less(x, y) ==> !less(y, x)
      ensures less(x, y) && less(y, z) ==> less(x, z)
      ensures !less(y, x) && !less(z, y) ==> !less(z, x)
    {
      RowLessIsBefore(b, o, x, y);
      RowLessIsBefore(b, o, y, x);
      RowLessIsBefore(b, o, y, z);
      RowLessIsBefore(b, o, z, y);
      RowLessIsBefore(b, o, x, z);
      RowLessIsBefore(b, o, z, x);
      BeforeIsOrder(rows[x], rows[y], rows[z], o);
      BeforeIsOrder(rows[y], rows[z], rows[x], o);
    }
  }

  // Picking rows by a permutation of their numbers permutes the rows.
  lemma PickPermutes(rows: seq<Row>, indices: seq<nat>)
    requires multiset(indices) == multiset(AllIndices(|rows|))
    ensures Below(indices, |rows|) && multiset(Pick(rows, indices)) == multiset(rows)
  {
    BelowPermutes(AllIndices(|rows|), indices, |rows|);
    var at: nat -> Row := (i: nat) => if i < |rows| then rows[i] else [];
    MapPermutes(at, indices, AllIndices(|rows|));
    assert Map(at, indices) == Pick(rows, indices);
    assert Map(at, AllIndices(|rows|)) == rows;
  }

  lemma TopKOfIndices(batch: Batch, indices: seq<nat>, k: nat, actualK: nat, o: Ordering)
    requires WellFormed(batch) && Fits(o, |batch.columns|) && multiset(indices) == multiset(AllIndices(batch.rows))
    requires actualK == (if k < batch.rows then k else batch.rows) && |indices| == batch.rows
    requires AllComparable(RowsOf(batch), o) && PartiallySorted(indices, actualK, RowLess(batch, o))
    ensures Below(indices, batch.rows)
    ensures var rows := RowsOf(batch);
            IsTopK(Pick(rows, indices[..actualK]), Pick(rows, indices[actualK..]), rows, k, o)
  {
    hide Before, RowLess, Comparable;
    var rows := RowsOf(batch);
    PickPermutes(rows, indices);
    var top, rest := Pick(rows, indices[..actualK]), Pick(rows, indices[actualK..]);
    assert Pick(rows, indices) == top + rest;
    forall p, q | 0 <= p < q < |indices| && p < actualK
      ensures !Before(rows[indices[q]], rows[indices[p]], o)
    {
      RowLessIsBefore(batch, o, indices[q], indices[p]);
    }
    forall i, j | 0 <= i < |top| && 0 <= j < |rest|
      ensures !Before(rest[j], top[i], o)
    {
      assert rest[j] == rows[indices[actualK + j]];
    }
  }

  lemma AnyOrderWillDo(batch: Batch, indices: seq<nat>, middle: nat, o: Ordering)
    requires WellFormed(batch) && Fits(o, |batch.columns|) && |o.keys| == 0
    requires middle <= |indices| && Below(indices, batch.rows)
    ensures PartiallySorted(indices, middle, RowLess(batch, o))
  {
  }

  lemma TopComparable(top: seq<Row>, rest: seq<Row>, rows: seq<Row>, o: Ordering)
    requires multiset(top) + multiset(rest) == multiset(rows) && AllComparable(rows, o)
    ensures AllComparable(top, o)
  {
    forall i | 0 <= i < |top|
      ensures Fits(o, |top[i]|) && Comparable(top[i], o)
    {
      assert top[i] in multiset(top);
      InMultiset(rows, top[i]);
    }
  }

  method TopKFromBatch(batch: Batch, k: nat, o: Ordering) returns (r: Batch, ghost rest: seq<Row>)
    requires WellFormed(batch) && Fits(o, |batch.schema.types|) && AllComparable(RowsOf(batch), o)
    ensures WellFormed(r) && r.schema == batch.schema
    ensures IsTopK(RowsOf(r), rest, RowsOf(batch), k, o) && AllComparable(RowsOf(r), o)
  {
    hide RowsOf, Before, RowLess, Comparable, StrictWeakOrder, PartiallySorted;
    var actualK := if k < batch.rows then k else batch.rows;
    var indices := new nat[batch.rows](i => i);
    assert indices[..] == AllIndices(batch.rows);
    if |o.keys| > 0 {
      RowLessIsOrder(batch, o);
      PartialSort(indices, actualK, RowLess(batch, o), batch.rows);
    } else {
      AnyOrderWillDo(batch, indices[..], actualK, o);
    }
    TopKOfIndices(batch, indices[..], k, actualK, o);
    assert indices[..actualK] == indices[..][..actualK];
    r := CopyBatchRows(batch, indices[..actualK]);
    rest := Pick(RowsOf(batch), indices[..][actualK..]);
    TopComparable(RowsOf(r), rest, RowsOf(batch), o);
  }

  // ------------------------------------------------------------ the operator

  // The places and types of those sort columns the schema has, in the order given.
  function SortKeys(schema: Schema, names: seq<Bytes>): (keys: seq<SortKey>)
    requires schema.Valid()
    ensures forall i :: 0 <= i < |keys| ==> keys[i].index < |schema.names|
  {
    if |names| == 0 then []
    else
      var front, index := SortKeys(schema, names[..|names| - 1]), ColumnIndex(schema.names, names[|names| - 1]);
      if index < |schema.names| then front + [SortKey(index, schema.types[index])] else front
  }

  method FindSortKeys(schema: Schema, names: seq<Bytes>) returns (keys: seq<SortKey>)
    requires schema.Valid()
    ensures keys == SortKeys(schema, names)
  {
    keys := [];
    assert names[..|names|] == names;
    for i := 0 to |names|
      invariant keys == SortKeys(schema, names[..i])
    {
      assert names[..i + 1][..i] == names[..i];
      var index := FindColumn(schema, names[i]);
      if index < |schema.names| {
        keys := keys + [SortKey(index, schema.types[index])];
      }
    }
  }

  lemma KeysFit(batch: Batch, names: seq<Bytes>, descending: bool)
    requires WellFormed(batch)
    ensures batch.schema.Valid()
    ensures Fits(Ordering(SortKeys(batch.schema, names), descending), |batch.schema.types|)
  {
  }

  ghost predicate IsTopKOf(top: seq<Row>, rows: seq<Row>, k: nat, o: Ordering) {
    exists rest :: IsTopK(top, rest, rows, k, o)
  }

  // One more batch: its own top-k, merged with the running one, and cut to k again.
  method KeepBest(running: Batch, batch: Batch, k: nat, o: Ordering, ghost rest: seq<Row>, ghost seen: seq<Row>)
    returns (r: Batch, ghost rest': seq<Row>)
    requires WellFormed(running) && WellFormed(batch) && running.schema == batch.schema
    requires Fits(o, |batch.schema.types|) && IsTopK(RowsOf(running), rest, seen, k, o)
    requires AllComparable(RowsOf(running), o) && AllComparable(RowsOf(batch), o)
    ensures WellFormed(r) && r.schema == batch.schema
    ensures IsTopK(RowsOf(r), rest', seen + RowsOf(batch), k, o) && AllComparable(RowsOf(r), o)
  {
    hide RowsOf, IsTopK, Fits, Comparable;
    var top, batchRest := TopKFromBatch(batch, k, o);
    var merged := MergeBatchesByRows([running, top]);
    TwoBatches(running, top);
    ghost var mergedRest;
    r, mergedRest := TopKFromBatch(merged.value, k, o);
    rest' := mergedRest + rest + batchRest;
    TopKOfTops(RowsOf(r), mergedRest, RowsOf(running), rest, seen, RowsOf(top), batchRest, RowsOf(batch), k, o);
  }

  lemma TwoBatches(a: Batch, b: Batch)
    requires WellFormed(a) && WellFormed(b)
    ensures AllRows([a, b]) == RowsOf(a) + RowsOf(b)
  {
    assert [a, b][..1] == [a] && [a][..0] == [];
    assert AllRows([a]) == [] + RowsOf(a);
  }

  lemma FirstRows(all: seq<Batch>)
    requires all != [] && forall i :: 0 <= i < |all| ==> WellFormed(all[i])
    ensures AllRows(all[..1]) == RowsOf(all[0])
  {
    assert AllRows(all[..1][..0]) == [];
  }

  lemma NextRows(all: seq<Batch>, n: nat)
    requires n < |all| && forall i :: 0 <= i < |all| ==> WellFormed(all[i])
    ensures AllRows(all[..n + 1]) == AllRows(all[..n]) + RowsOf(all[n])
  {
    assert all[..n + 1][..n] == all[..n];
  }

  // No NaN in the sort columns of any batch.
  predicate CanSort(batches: seq<Batch>, names: seq<Bytes>, descending: bool) {
    forall i :: 0 <= i < |batches| && WellFormed(batches[i]) ==>
      AllComparable(RowsOf(batches[i]), Ordering(SortKeys(batches[i].schema, names), descending))
  }

  class TopKOperator {
    const next: BatchSource
    const sortColumns: seq<Bytes>
    const limit: nat
    const descending: bool
    var done: bool

    constructor (next: BatchSource, sortColumns: seq<Bytes>, limit: nat, descending: bool)
      ensures this.next == next && this.sortColumns == sortColumns && this.limit == limit
      ensures this.descending == descending && !done
    {
      this.next := next;
      this.sortColumns := sortColumns;
      this.limit := limit;
      this.descending := descending;
      done := false;
    }

    function OrderingFor(schema: Schema): Ordering
      requires schema.Valid()
    {
      Ordering(SortKeys(schema, sortColumns), descending)
    }

    // The first call answers for the whole stream; every later one is the null pointer.
    method Next() returns (r: Option<Batch>)
      requires Uniform(next.pending) && CanSort(next.pending, sortColumns, descending)
      modifies this, next
      ensures done && (old(done) ==> r == None && next.pending == old(next.pending))
      ensures !old(done) ==> next.pending == [] && (r.None? <==> old(next.pending) == [])
      ensures r.Some? ==> WellFormed(r.value) && r.value.schema == old(next.pending)[0].schema
      ensures r.Some? ==> forall b :: b in old(next.pending) ==> WellFormed(b)
      ensures r.Some? ==>
        IsTopKOf(RowsOf(r.value), AllRows(old(next.pending)), limit, OrderingFor(r.value.schema))
    {
      hide RowsOf, IsTopK, WellFormed, AllRows, SortKeys, Fits, AllComparable;
      if done {
        return None;
      }
      done := true;
      ghost var all := next.pending;
      assert all != [] ==> WellFormed(all[0]);
      var first := next.Next();
      if first.None? {
        return None;
      }
      var schema := first.value.schema;
      assert schema.Valid() by {
        KeysFit(first.value, sortColumns, descending);
      }
      var keys := FindSortKeys(schema, sortColumns);
      var o := Ordering(keys, descending);
      KeysFit(first.value, sortColumns, descending);
      var running := Run(first.value, all, o);
      r := Some(running);
    }

    // The running top-k of the first batch, replaced once for every batch after it.
    method Run(first: Batch, ghost all: seq<Batch>, o: Ordering) returns (running: Batch)
      requires all == [first] + next.pending && SameSchema(all, first.schema) && Fits(o, |first.schema.types|)
      requires forall i :: 0 <= i < |all| ==> WellFormed(all[i]) && AllComparable(RowsOf(all[i]), o)
      modifies next
      ensures next.pending == [] && WellFormed(running) && running.schema == first.schema
      ensures IsTopKOf(RowsOf(running), AllRows(all), limit, o)
    {
      hide RowsOf, IsTopK, WellFormed, AllRows, Fits, AllComparable;
      assert all[0] == first;
      ghost var rest;
      running, rest := TopKFromBatch(first, limit, o);
      ghost var n := 1;
      FirstRows(all);
      var batch := next.Next();
      while batch.Some?
        invariant WellFormed(running) && running.schema == first.schema && AllComparable(RowsOf(running), o)
        invariant n <= |all| && all[n..] == (if batch.Some? then [batch.value] else []) + next.pending
        invariant batch.None? ==> next.pending == []
        invariant IsTopK(RowsOf(running), rest, AllRows(all[..n]), limit, o)
        decreases |next.pending|, batch.Some?
      {
        NextBatch(all, n, batch.value, next.pending);
        NextRows(all, n);
        running, rest := KeepBest(running, batch.value, limit, o, rest, AllRows(all[..n]));
        n := n + 1;
        batch := next.Next();
      }
      assert all[..n] == all;
    }
  }
}
