/** The full stable sort, and top-k measured against it. */
module Sort {
  import opened Words
  import opened Tables
  import opened Order
  import opened Sorting
  import opened Source
  import opened TopK

  // ------------------------------------------------------------ key sequences

  function KeyOf(o: Ordering): Row -> Row {
    (row: Row) => if Fits(o, |row|) then Key(row, o) else []
  }

  function Keys(rows: seq<Row>, o: Ordering): (keys: seq<Row>)
    ensures |keys| == |rows|
  {
    Map(KeyOf(o), rows)
  }

  ghost predicate AllWide(keys: seq<Row>, width: nat) {
    forall i :: 0 <= i < |keys| ==> |keys[i]| == width
  }

  // `u` holds least keys in order; `w` are the others.
  ghost predicate LeastInOrder(u: seq<Row>, w: seq<Row>, width: nat, descending: bool) {
    && AllWide(u, width) && AllWide(w, width)
    && (forall i, j :: 0 <= i < j < |u| ==> CompareKeys(u[j], u[i], descending) >= 0)
    && forall i, j :: 0 <= i < |u| && 0 <= j < |w| ==> CompareKeys(w[j], u[i], descending) >= 0
  }

  lemma LeastIsLeast(u: seq<Row>, w: seq<Row>, width: nat, descending: bool, x: Row)
    requires LeastInOrder(u, w, width, descending) && |u| > 0
    requires x in multiset(u) + multiset(w)
    ensures |x| == width && CompareKeys(x, u[0], descending) >= 0
  {
    if x in multiset(u) {
      var p := PlaceOf(u, x);
      KeysOrdered(x, x, x, descending);
    } else {
      var p := PlaceOf(w, x);
    }
  }

  lemma LeastTail(u: seq<Row>, w: seq<Row>, width: nat, descending: bool)
    requires LeastInOrder(u, w, width, descending) && |u| > 0
    ensures LeastInOrder(u[1..], w, width, descending) && |u[0]| == width
  {
  }

  // The least keys of a collection, in order, are unique even though the rows that have them are not.
  lemma {:induction false} LeastKeysAgree(u: seq<Row>, w: seq<Row>, v: seq<Row>, x: seq<Row>, width: nat,
      descending: bool)
    requires LeastInOrder(u, w, width, descending) && LeastInOrder(v, x, width, descending)
    requires multiset(u) + multiset(w) == multiset(v) + multiset(x) && |u| <= |v|
    ensures u == v[..|u|]
    decreases |u|
  {
    hide LeastInOrder, CompareKeys;
    if |u| > 0 {
      LeastTail(u, w, width, descending);
      LeastTail(v, x, width, descending);
      assert u[0] in multiset(u) + multiset(w) && v[0] in multiset(v) + multiset(x);
      LeastIsLeast(u, w, width, descending, v[0]);
      LeastIsLeast(v, x, width, descending, u[0]);
      KeysOrdered(u[0], v[0], v[0], descending);
      SameTails(u, w, v, x);
      LeastKeysAgree(u[1..], w, v[1..], x, width, descending);
      assert u == [u[0]] + u[1..] && v[..|u|] == [v[0]] + v[1..][..|u| - 1];
    }
  }

  lemma SameTails(u: seq<Row>, w: seq<Row>, v: seq<Row>, x: seq<Row>)
    requires |u| > 0 && |v| > 0 && u[0] == v[0]
    requires multiset(u) + multiset(w) == multiset(v) + multiset(x)
    ensures multiset(u[1..]) + multiset(w) == multiset(v[1..]) + multiset(x)
  {
    TailMultiset(u);
    TailMultiset(v);
    TakeFromBoth(multiset(u), multiset(w), multiset(v), multiset(x), u[0]);
  }

  lemma TakeFromBoth(u: multiset<Row>, w: multiset<Row>, v: multiset<Row>, x: multiset<Row>, e: Row)
    requires u + w == v + x && e in u && e in v
    ensures (u - multiset{e}) + w == (v - multiset{e}) + x
  {
    assert (u - multiset{e}) + w == (u + w) - multiset{e};
    assert (v - multiset{e}) + x == (v + x) - multiset{e};
  }

  lemma TopKeys(top: seq<Row>, rest: seq<Row>, rows: seq<Row>, k: nat, o: Ordering)
    requires IsTopK(top, rest, rows, k, o)
    ensures LeastInOrder(Keys(top, o), Keys(rest, o), |o.keys|, o.descending)
    ensures multiset(Keys(top, o)) + multiset(Keys(rest, o)) == multiset(Keys(rows, o))
  {
    assert multiset(top + rest) == multiset(rows);
    MapPermutes(KeyOf(o), top + rest, rows);
    MapConcat(KeyOf(o), top, rest);
  }

  // Whatever ties were broken and however the rows were split into batches, the keys are the same.
  lemma TopKKeysUnique(a: seq<Row>, b: seq<Row>, rows: seq<Row>, k: nat, o: Ordering)
    requires IsTopKOf(a, rows, k, o) && IsTopKOf(b, rows, k, o)
    ensures Keys(a, o) == Keys(b, o)
  {
    hide IsTopK, Keys, LeastInOrder;
    var aRest :| IsTopK(a, aRest, rows, k, o);
    var bRest :| IsTopK(b, bRest, rows, k, o);
    TopKeys(a, aRest, rows, k, o);
    TopKeys(b, bRest, rows, k, o);
    TopKSize(a, aRest, rows, k, o);
    TopKSize(b, bRest, rows, k, o);
    LeastKeysAgree(Keys(a, o), Keys(aRest, o), Keys(b, o), Keys(bRest, o), |o.keys|, o.descending);
  }

  lemma TopKSize(top: seq<Row>, rest: seq<Row>, rows: seq<Row>, k: nat, o: Ordering)
    requires IsTopK(top, rest, rows, k, o)
    ensures |top| == if k < |rows| then k else |rows|
  {
  }

  // A sorted table starts with its top-k.
  lemma FrontOfSorted(sorted: seq<Row>, rows: seq<Row>, k: nat, o: Ordering)
    requires AllFit(sorted, o) && SortedRows(sorted, o) && multiset(sorted) == multiset(rows)
    ensures |sorted| == |rows|
    ensures var n := if k < |rows| then k else |rows|; IsTopK(sorted[..n], sorted[n..], rows, k, o)
  {
    hide Before, Fits;
    SizeOfRest(sorted, [], rows);
    var n := if k < |rows| then k else |rows|;
    assert sorted == sorted[..n] + sorted[n..];
  }

  // The keys of a top-k are the first k keys of any sorted permutation of the table.
  lemma TopKKeysAreFirst(top: seq<Row>, rows: seq<Row>, k: nat, o: Ordering, sorted: seq<Row>)
    requires IsTopKOf(top, rows, k, o)
    requires AllFit(sorted, o) && SortedRows(sorted, o) && multiset(sorted) == multiset(rows)
    ensures |sorted| == |rows|
    ensures Keys(top, o) == Keys(sorted, o)[..if k < |rows| then k else |rows|]
  {
    FrontOfSorted(sorted, rows, k, o);
    var n := if k < |rows| then k else |rows|;
    TopKKeysUnique(top, sorted[..n], rows, k, o);
    assert Keys(sorted[..n], o) == Keys(sorted, o)[..n];
  }

  // ---------------------------------------------------------------- full sort

  function Earlier(rows: seq<Row>, o: Ordering): (nat, nat) -> bool
    requires AllFit(rows, o)
  {
    (x: nat, y: nat) => x < |rows| && y < |rows| && Before(rows[x], rows[y], o)
  }

  // The rows in order, rows of equal keys as they came.
  ghost predicate IsStableSort(sorted: seq<Row>, rows: seq<Row>, o: Ordering) {
    && AllFit(rows, o)
    && exists indices: seq<nat> :: SortsStably(indices, rows, o) && sorted == Pick(rows, indices)
  }

  ghost predicate SortsStably(indices: seq<nat>, rows: seq<Row>, o: Ordering)
    ensures SortsStably(indices, rows, o) ==> forall j :: 0 <= j < |indices| ==> indices[j] < |rows|
  {
    && AllFit(rows, o) && multiset(indices) == multiset(AllIndices(|rows|)) && StablySorted(indices, Earlier(rows, o))
    && (PickPermutes(rows, indices); true)
  }

  lemma {:induction false} StableOrderUnique(s: seq<nat>, t: seq<nat>, less: (nat, nat) -> bool)
    requires StablySorted(s, less) && StablySorted(t, less) && multiset(s) == multiset(t)
    ensures s == t
    decreases |s|
  {
    assert |s| == |multiset(s)| == |multiset(t)| == |t|;
    if |s| > 0 {
      SameFirst(s, t, less);
      TailMultiset(s);
      TailMultiset(t);
      StableOrderUnique(s[1..], t[1..], less);
      assert s == [s[0]] + s[1..] && t == [t[0]] + t[1..];
    }
  }

  lemma SameFirst(s: seq<nat>, t: seq<nat>, less: (nat, nat) -> bool)
    requires StablySorted(s, less) && StablySorted(t, less) && multiset(s) == multiset(t) && |s| > 0 && |t| > 0
    ensures s[0] == t[0]
  {
    TailMultiset(s);
    TailMultiset(t);
    var q := PlaceOf(t, s[0]);
    var p := PlaceOf(s, t[0]);
  }

  // There is one stable sort of a table.
  lemma StableSortUnique(a: seq<Row>, b: seq<Row>, rows: seq<Row>, o: Ordering)
    requires IsStableSort(a, rows, o) && IsStableSort(b, rows, o)
    ensures a == b
  {
    hide StablySorted, Earlier, Pick, AllFit;
    var s :| SortsStably(s, rows, o) && a == Pick(rows, s);
    var t :| SortsStably(t, rows, o) && b == Pick(rows, t);
    StableOrderUnique(s, t, Earlier(rows, o));
  }

  // The stable sort is a sorted permutation.
  lemma StableSortIsSorted(sorted: seq<Row>, rows: seq<Row>, o: Ordering)
    requires IsStableSort(sorted, rows, o)
    ensures AllFit(sorted, o) && SortedRows(sorted, o) && multiset(sorted) == multiset(rows)
  {
    hide Before, Fits;
    var indices :| SortsStably(indices, rows, o) && sorted == Pick(rows, indices);
    PickPermutes(rows, indices);
  }

  // Without a key nothing moves.
  lemma NothingToSort(rows: seq<Row>, o: Ordering)
    requires |o.keys| == 0
    ensures IsStableSort(rows, rows, o)
  {
    var all := AllIndices(|rows|);
    assert SortsStably(all, rows, o);
    assert Pick(rows, all) == rows;
  }

  lemma BatchOrderIsRowOrder(b: Batch, o: Ordering, indices: seq<nat>)
    requires WellFormed(b) && Fits(o, |b.columns|) && multiset(indices) == multiset(AllIndices(b.rows))
    requires AllComparable(RowsOf(b), o) && StablySorted(indices, RowLess(b, o))
    ensures SortsStably(indices, RowsOf(b), o)
  {
    hide RowLess, Before, Comparable;
    var rows := RowsOf(b);
    PickPermutes(rows, indices);
    forall p, q | 0 <= p < q < |indices|
      ensures Earlier(rows, o)(indices[p], indices[q]) == RowLess(b, o)(indices[p], indices[q])
      ensures Earlier(rows, o)(indices[q], indices[p]) == RowLess(b, o)(indices[q], indices[p])
    {
      RowLessIsBefore(b, o, indices[p], indices[q]);
      RowLessIsBefore(b, o, indices[q], indices[p]);
    }
  }

  method SortBatch(batch: Batch, o: Ordering) returns (r: Batch)
    requires WellFormed(batch) && Fits(o, |batch.schema.types|) && AllComparable(RowsOf(batch), o)
    ensures WellFormed(r) && r.schema == batch.schema && IsStableSort(RowsOf(r), RowsOf(batch), o)
  {
    hide RowsOf, Earlier, StablySorted;
    var indices := new nat[batch.rows](i => i);
    assert indices[..] == AllIndices(batch.rows);
    RowLessIsOrder(batch, o);
    StableSort(indices, RowLess(batch, o), batch.rows);
    BatchOrderIsRowOrder(batch, o, indices[..]);
    r := CopyBatchRows(batch, indices[..]);
  }

  lemma {:induction false} AllRowsComparable(batches: seq<Batch>, o: Ordering)
    requires forall i :: 0 <= i < |batches| ==> WellFormed(batches[i]) && AllComparable(RowsOf(batches[i]), o)
    ensures AllComparable(AllRows(batches), o)
  {
    hide Fits, Comparable;
    if |batches| > 0 {
      AllRowsComparable(batches[..|batches| - 1], o);
    }
  }

  lemma OneSortKey(schema: Schema, name: Bytes)
    requires schema.Valid()
    ensures var index := ColumnIndex(schema.names, name);
            SortKeys(schema, [name]) == if index < |schema.names| then [SortKey(index, schema.types[index])] else []
  {
    assert [name][..0] == [];
    assert SortKeys(schema, []) == [];
  }

  class SortOperator {
    const next: BatchSource
    const sortColumn: Bytes
    const descending: bool
    var done: bool

    constructor (next: BatchSource, sortColumn: Bytes, descending: bool)
      ensures this.next == next && this.sortColumn == sortColumn && this.descending == descending && !done
    {
      this.next := next;
      this.sortColumn := sortColumn;
      this.descending := descending;
      done := false;
    }

    function OrderingFor(schema: Schema): Ordering
      requires schema.Valid()
    {
      Ordering(SortKeys(schema, [sortColumn]), descending)
    }

    // An unknown sort column leaves the merged rows as they came.
    method Next() returns (r: Option<Batch>)
      requires Uniform(next.pending) && CanSort(next.pending, [sortColumn], descending)
      modifies this, next
      ensures done && (old(done) ==> r == None && next.pending == old(next.pending))
      ensures !old(done) ==> next.pending == [] && (r.None? <==> old(next.pending) == [])
      ensures r.Some? ==> WellFormed(r.value) && r.value.schema == old(next.pending)[0].schema
      ensures r.Some? ==> forall b :: b in old(next.pending) ==> WellFormed(b)
      ensures r.Some? ==> IsStableSort(RowsOf(r.value), AllRows(old(next.pending)), OrderingFor(r.value.schema))
    {
      hide IsStableSort, RowsOf, AllRows, AllComparable;
      if done {
        return None;
      }
      done := true;
      var all := Drain(next);
      var merged := MergeBatchesByRows(all);
      if merged.None? {
        return None;
      }
      var schema := merged.value.schema;
      var index := FindColumn(schema, sortColumn);
      OneSortKey(schema, sortColumn);
      if index == |schema.names| {
        NothingToSort(RowsOf(merged.value), Ordering([], descending));
        return merged;
      }
      var o := Ordering([SortKey(index, schema.types[index])], descending);
      AllRowsComparable(all, o);
      var sorted := SortBatch(merged.value, o);
      r := Some(sorted);
    }
  }
}
