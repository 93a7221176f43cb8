/** What coming first means, in plain words: for numbers, strings, several sort columns, and the operators' answers. */
module Comparison {
  import opened Words
  import opened Values
  import opened Floats
  import opened Tables
  import opened Order
  import opened TopK
  import opened Sort

  // ----------------------------------------------------------------- one column

  // A string is smaller where, behind what both begin with, it ends or has the smaller byte.
  lemma {:induction false} StringsInOrder(a: Bytes, b: Bytes)
    ensures CompareBytes(a, b) < 0 <==>
      exists p :: 0 <= p <= |a| && p < |b| && a[..p] == b[..p] && (p == |a| || a[p] < b[p])
    decreases |a|
  {
    if |a| > 0 && |b| > 0 && a[0] == b[0] {
      StringsInOrder(a[1..], b[1..]);
      var lessTail := exists p :: 0 <= p <= |a[1..]| && p < |b[1..]| && a[1..][..p] == b[1..][..p]
                             && (p == |a[1..]| || a[1..][p] < b[1..][p]);
      if lessTail {
        var p :| 0 <= p <= |a[1..]| && p < |b[1..]| && a[1..][..p] == b[1..][..p]
                 && (p == |a[1..]| || a[1..][p] < b[1..][p]);
        LongerFront(a, b, p);
        assert 0 <= p + 1 <= |a| && p + 1 < |b| && a[..p + 1] == b[..p + 1] && (p + 1 == |a| || a[p + 1] < b[p + 1]);
      }
      if q: nat :| q <= |a| && q < |b| && a[..q] == b[..q] && (q == |a| || a[q] < b[q]) {
        assert q > 0;
        LongerFront(a, b, q - 1);
        assert a[1..][..q - 1] == b[1..][..q - 1] && (q - 1 == |a[1..]| || a[1..][q - 1] < b[1..][q - 1]);
      }
    } else if |a| > 0 && |b| > 0 {
      FrontByte(a, b);
      assert a[..0] == b[..0];
    } else if |b| > 0 {
      assert a[..0] == b[..0];
    }
  }

  lemma LongerFront(a: Bytes, b: Bytes, p: nat)
    requires p < |a| && p < |b| && a[0] == b[0]
    ensures a[..p + 1] == b[..p + 1] <==> a[1..][..p] == b[1..][..p]
  {
    assert a[..p + 1] == [a[0]] + a[1..][..p] && b[..p + 1] == [b[0]] + b[1..][..p];
    if a[..p + 1] == b[..p + 1] {
      assert a[..p + 1][1..] == b[..p + 1][1..];
    }
  }

  lemma FrontByte(a: Bytes, b: Bytes)
    requires |a| > 0 && |b| > 0 && a[0] != b[0]
    ensures forall p :: 0 < p <= |a| && p < |b| ==> a[..p] != b[..p]
  {
    forall p | 0 < p <= |a| && p < |b|
      ensures a[..p] != b[..p]
    {
      assert a[..p][0] != b[..p][0];
    }
  }

  // Integers compare as numbers.
  lemma WordsInOrder(t: Type, m: int, n: int)
    requires !t.Float? && !t.Double?
    ensures CompareElements(t, Word(m), Word(n)) < 0 <==> m < n
    ensures CompareElements(t, Word(m), Word(n)) > 0 <==> m > n
  {
  }

  // Strings compare as strings.
  lemma TextsInOrder(t: Type, a: Bytes, b: Bytes)
    ensures CompareElements(t, Text(a), Text(b)) < 0 <==>
      exists p :: 0 <= p <= |a| && p < |b| && a[..p] == b[..p] && (p == |a| || a[p] < b[p])
    ensures CompareElements(t, Text(a), Text(b)) > 0 <==>
      exists p :: 0 <= p <= |b| && p < |a| && b[..p] == a[..p] && (p == |b| || b[p] < a[p])
  {
    StringsInOrder(a, b);
    StringsInOrder(b, a);
    BytesOrdered(a, b, b);
  }

  // Floats compare as numbers, read off their words; NaN is neither before nor behind anything.
  lemma FloatsInOrder(t: Type, a: int, b: int)
    requires (t.Float? || t.Double?) && HasType(t, Word(a)) && HasType(t, Word(b))
    ensures CompareElements(t, Word(a), Word(b)) < 0 <==>
      !IsNaN(t, Word(a)) && !IsNaN(t, Word(b)) &&
      if a >= 0 && b >= 0 then a < b
      else if a < 0 && b < 0 then b < a
      else a < 0 && !(b == 0 && a == if t.Float? then -0x8000_0000 else -0x8000_0000_0000_0000)
    ensures CompareElements(t, Word(a), Word(b)) > 0 <==> CompareElements(t, Word(b), Word(a)) < 0
  {
    hide IsNaN, Number;
    NumbersInOrder(t, a, b);
  }

  // ------------------------------------------------------------ several columns

  // How two rows compare in sort column k.
  function InColumn(a: Row, b: Row, o: Ordering, k: nat): int
    requires Fits(o, |a|) && Fits(o, |b|) && k < |o.keys|
  {
    CompareElements(o.keys[k].t, a[o.keys[k].index], b[o.keys[k].index])
  }

  // A row comes first where the first sort column in which the two differ is smaller, or greater when descending.
  ghost predicate ComesFirst(a: Row, b: Row, o: Ordering)
    requires Fits(o, |a|) && Fits(o, |b|)
  {
    exists k: nat :: k < |o.keys| && Decides(a, b, o, k)
  }

  ghost predicate Decides(a: Row, b: Row, o: Ordering, k: nat)
    requires Fits(o, |a|) && Fits(o, |b|) && k < |o.keys|
  {
    && (forall j :: 0 <= j < k ==> InColumn(a, b, o, j) == 0)
    && if o.descending then InColumn(a, b, o, k) > 0 else InColumn(a, b, o, k) < 0
  }

  lemma BeforeIs(a: Row, b: Row, o: Ordering)
    requires Fits(o, |a|) && Fits(o, |b|) && Comparable(a, o) && Comparable(b, o)
    ensures Before(a, b, o) <==>
      exists k: nat :: k < |o.keys|
        && (forall j :: 0 <= j < k ==> InColumn(a, b, o, j) == 0)
        && if o.descending then InColumn(a, b, o, k) > 0 else InColumn(a, b, o, k) < 0
    ensures Before(a, b, o) <==> ComesFirst(a, b, o)
  {
    hide Before, InColumn;
    BeforeIsFirst(a, b, o);
    if ComesFirst(a, b, o) {
      var k: nat :| k < |o.keys| && Decides(a, b, o, k);
    }
    forall k: nat | k < |o.keys| && forall j :: 0 <= j < k ==> InColumn(a, b, o, j) == 0
      ensures Decides(a, b, o, k) <==> if o.descending then InColumn(a, b, o, k) > 0 else InColumn(a, b, o, k) < 0
    {
    }
  }

  lemma {:induction false} BeforeIsFirst(a: Row, b: Row, o: Ordering)
    requires Fits(o, |a|) && Fits(o, |b|) && Comparable(a, o) && Comparable(b, o)
    ensures Before(a, b, o) <==> ComesFirst(a, b, o)
    decreases |o.keys|
  {
    hide Ranked, IsNaN, CompareValues, Comparable;
    if |o.keys| > 0 {
      var o' := o.(keys := o.keys[1..]);
      FirstKey(a, b, o);
      BeforeIsFirst(a, b, o');
      if ComesFirst(a, b, o') {
        var k: nat :| k < |o'.keys| && Decides(a, b, o', k);
        if InColumn(a, b, o, 0) == 0 {
          LaterKeyDecides(a, b, o, k);
        }
      }
      if InColumn(a, b, o, 0) != 0 {
        FirstKeyDecides(a, b, o);
      } else if ComesFirst(a, b, o) {
        var k: nat :| k < |o.keys| && Decides(a, b, o, k);
        assert k > 0;
        LaterKeyDecides(a, b, o, k - 1);
      }
    }
  }

  lemma FirstKey(a: Row, b: Row, o: Ordering)
    requires Fits(o, |a|) && Fits(o, |b|) && Comparable(a, o) && Comparable(b, o) && |o.keys| > 0
    ensures var o' := o.(keys := o.keys[1..]);
      && Comparable(a, o') && Comparable(b, o')
      && (Before(a, b, o) <==> if InColumn(a, b, o, 0) == 0 then Before(a, b, o')
                               else if o.descending then InColumn(a, b, o, 0) > 0 else InColumn(a, b, o, 0) < 0)
  {
    hide Ranked, IsNaN, CompareValues;
    var o' := o.(keys := o.keys[1..]);
    assert Key(a, o)[1..] == Key(a, o') && Key(b, o)[1..] == Key(b, o');
  }

  lemma FirstKeyDecides(a: Row, b: Row, o: Ordering)
    requires Fits(o, |a|) && Fits(o, |b|) && |o.keys| > 0 && InColumn(a, b, o, 0) != 0
    ensures ComesFirst(a, b, o) <==> if o.descending then InColumn(a, b, o, 0) > 0 else InColumn(a, b, o, 0) < 0
  {
    hide InColumn;
    if (if o.descending then InColumn(a, b, o, 0) > 0 else InColumn(a, b, o, 0) < 0) {
      assert Decides(a, b, o, 0);
    }
  }

  lemma LaterKeyDecides(a: Row, b: Row, o: Ordering, k: nat)
    requires Fits(o, |a|) && Fits(o, |b|) && k + 1 < |o.keys| && InColumn(a, b, o, 0) == 0
    ensures Decides(a, b, o.(keys := o.keys[1..]), k) <==> Decides(a, b, o, k + 1)
  {
    var o' := o.(keys := o.keys[1..]);
    assert forall j :: 0 <= j <= k ==> InColumn(a, b, o', j) == InColumn(a, b, o, j + 1);
    if Decides(a, b, o', k) {
      forall j | 0 <= j < k + 1
        ensures InColumn(a, b, o, j) == 0
      {
        if j > 0 {
          assert InColumn(a, b, o', j - 1) == 0;
        }
      }
    }
  }

  // ---------------------------------------------------------------- the answers

  // The best k rows: in order, and no row left out comes before a kept one.
  lemma TopKIs(top: seq<Row>, rows: seq<Row>, k: nat, o: Ordering) returns (rest: seq<Row>)
    requires IsTopKOf(top, rows, k, o) && AllComparable(rows, o)
    ensures |top| == (if k < |rows| then k else |rows|) && multiset(top) + multiset(rest) == multiset(rows)
    ensures AllComparable(top, o) && AllComparable(rest, o)
    ensures forall i, j :: 0 <= i < j < |top| ==> !ComesFirst(top[j], top[i], o)
    ensures forall i, j :: 0 <= i < |top| && 0 <= j < |rest| ==> !ComesFirst(rest[j], top[i], o)
  {
    hide Before, ComesFirst, Comparable, Fits;
    rest :| IsTopK(top, rest, rows, k, o);
    TopComparable(top, rest, rows, o);
    assert multiset(rest) + multiset(top) == multiset(rows);
    TopComparable(rest, top, rows, o);
    forall i, j | 0 <= i < |top| && 0 <= j < |top|
      ensures Before(top[j], top[i], o) <==> ComesFirst(top[j], top[i], o)
    {
      BeforeIs(top[j], top[i], o);
    }
    forall i, j | 0 <= i < |top| && 0 <= j < |rest|
      ensures Before(rest[j], top[i], o) <==> ComesFirst(rest[j], top[i], o)
    {
      BeforeIs(rest[j], top[i], o);
    }
  }

  // By one integer column: ascending, the kept numbers do not decrease and none exceeds one left out; descending, the
  // other way round.
  lemma TopKOfIntegers(top: seq<Row>, rows: seq<Row>, k: nat, index: nat, t: Type, descending: bool)
    returns (rest: seq<Row>)
    requires IsTopKOf(top, rows, k, Ordering([SortKey(index, t)], descending)) && !IsFloat(t)
    requires forall i :: 0 <= i < |rows| ==> index < |rows[i]| && rows[i][index].Word?
    ensures |top| == (if k < |rows| then k else |rows|) && multiset(top) + multiset(rest) == multiset(rows)
    ensures HaveNumbers(top, index) && HaveNumbers(rest, index)
    ensures forall i, j :: 0 <= i < j < |top| ==>
      if descending then top[i][index].n >= top[j][index].n else top[i][index].n <= top[j][index].n
    ensures forall i, j :: 0 <= i < |top| && 0 <= j < |rest| ==>
      if descending then top[i][index].n >= rest[j][index].n else top[i][index].n <= rest[j][index].n
  {
    hide ComesFirst;
    var o := Ordering([SortKey(index, t)], descending);
    rest := TopKIs(top, rows, k, o);
    NumbersKept(top, rest, rows, index);
    assert multiset(rest) + multiset(top) == multiset(rows);
    NumbersKept(rest, top, rows, index);
    forall i, j | 0 <= i < j < |top|
      ensures ComesFirst(top[j], top[i], o)
         <==> if descending then top[i][index].n < top[j][index].n else top[i][index].n > top[j][index].n
    {
      OneIntegerColumn(top[j], top[i], index, t, descending);
    }
    forall i, j | 0 <= i < |top| && 0 <= j < |rest|
      ensures ComesFirst(rest[j], top[i], o)
         <==> if descending then top[i][index].n < rest[j][index].n else top[i][index].n > rest[j][index].n
    {
      OneIntegerColumn(rest[j], top[i], index, t, descending);
    }
  }

  predicate HaveNumbers(rows: seq<Row>, index: nat) {
    forall i :: 0 <= i < |rows| ==> index < |rows[i]| && rows[i][index].Word?
  }

  lemma NumbersKept(part: seq<Row>, others: seq<Row>, rows: seq<Row>, index: nat)
    requires multiset(part) + multiset(others) == multiset(rows) && HaveNumbers(rows, index)
    ensures HaveNumbers(part, index)
  {
    forall i | 0 <= i < |part|
      ensures index < |part[i]| && part[i][index].Word?
    {
      assert part[i] in multiset(part);
      InMultiset(rows, part[i]);
    }
  }

  lemma OneIntegerColumn(a: Row, b: Row, index: nat, t: Type, descending: bool)
    requires index < |a| && index < |b| && a[index].Word? && b[index].Word? && !IsFloat(t)
    ensures var o := Ordering([SortKey(index, t)], descending);
      ComesFirst(a, b, o) <==> if descending then a[index].n > b[index].n else a[index].n < b[index].n
  {
    var o := Ordering([SortKey(index, t)], descending);
    WordsInOrder(t, a[index].n, b[index].n);
    if InColumn(a, b, o, 0) != 0 {
      FirstKeyDecides(a, b, o);
    }
  }

  // Sorted rows by one integer column are those whose numbers do not decrease, or do not increase when descending.
  lemma SortedIntegers(rows: seq<Row>, index: nat, t: Type, descending: bool)
    requires HaveNumbers(rows, index) && !IsFloat(t)
    ensures AllFit(rows, Ordering([SortKey(index, t)], descending))
    ensures SortedRows(rows, Ordering([SortKey(index, t)], descending)) <==>
      forall i, j :: 0 <= i < j < |rows| ==>
        if descending then rows[i][index].n >= rows[j][index].n else rows[i][index].n <= rows[j][index].n
  {
    hide Before, ComesFirst;
    var o := Ordering([SortKey(index, t)], descending);
    forall i, j | 0 <= i < j < |rows|
      ensures Before(rows[j], rows[i], o)
         <==> if descending then rows[i][index].n < rows[j][index].n else rows[i][index].n > rows[j][index].n
    {
      BeforeIs(rows[j], rows[i], o);
      OneIntegerColumn(rows[j], rows[i], index, t, descending);
    }
  }

  // The stable sort: a permutation in which no row comes before one ahead of it, and of two rows neither of which comes
  // first the one that was ahead still is.
  lemma StableSortIs(sorted: seq<Row>, rows: seq<Row>, o: Ordering) returns (indices: seq<nat>)
    requires IsStableSort(sorted, rows, o) && AllComparable(rows, o)
    ensures multiset(indices) == multiset(AllIndices(|rows|)) && |sorted| == |indices|
    ensures forall p :: 0 <= p < |indices| ==> indices[p] < |rows| && sorted[p] == rows[indices[p]]
    ensures AllComparable(sorted, o)
    ensures forall p, q :: 0 <= p < q < |sorted| ==>
      && !ComesFirst(sorted[q], sorted[p], o)
      && (!ComesFirst(sorted[p], sorted[q], o) ==> indices[p] < indices[q])
  {
    hide Before, ComesFirst, Comparable, Fits;
    indices :| SortsStably(indices, rows, o) && sorted == Pick(rows, indices);
    forall p, q | 0 <= p < q < |sorted|
      ensures !ComesFirst(sorted[q], sorted[p], o) && (!ComesFirst(sorted[p], sorted[q], o) ==> indices[p] < indices[q])
    {
      BeforeIs(sorted[p], sorted[q], o);
      BeforeIs(sorted[q], sorted[p], o);
      assert Earlier(rows, o)(indices[p], indices[q]) == Before(sorted[p], sorted[q], o);
      assert Earlier(rows, o)(indices[q], indices[p]) == Before(sorted[q], sorted[p], o);
    }
  }

  // By one integer column: the numbers do not decrease, or do not increase when descending, and rows of one number are
  // as they came.
  lemma SortOfIntegers(sorted: seq<Row>, rows: seq<Row>, index: nat, t: Type, descending: bool)
    returns (indices: seq<nat>)
    requires IsStableSort(sorted, rows, Ordering([SortKey(index, t)], descending)) && !IsFloat(t)
    requires HaveNumbers(rows, index)
    ensures multiset(indices) == multiset(AllIndices(|rows|)) && |sorted| == |indices|
    ensures forall p :: 0 <= p < |indices| ==> indices[p] < |rows| && sorted[p] == rows[indices[p]]
    ensures HaveNumbers(sorted, index)
    ensures forall p, q :: 0 <= p < q < |sorted| ==>
      && (if descending then sorted[p][index].n >= sorted[q][index].n else sorted[p][index].n <= sorted[q][index].n)
      && (sorted[p][index] == sorted[q][index] ==> indices[p] < indices[q])
  {
    hide ComesFirst;
    var o := Ordering([SortKey(index, t)], descending);
    indices := StableSortIs(sorted, rows, o);
    forall p, q | 0 <= p < q < |sorted|
      ensures ComesFirst(sorted[q], sorted[p], o)
         <==> if descending then sorted[q][index].n > sorted[p][index].n else sorted[q][index].n < sorted[p][index].n
      ensures ComesFirst(sorted[p], sorted[q], o)
         <==> if descending then sorted[p][index].n > sorted[q][index].n else sorted[p][index].n < sorted[q][index].n
    {
      OneIntegerColumn(sorted[q], sorted[p], index, t, descending);
      OneIntegerColumn(sorted[p], sorted[q], index, t, descending);
    }
  }

  // The sort columns of a list of names are those of its parts, one part behind the other.
  lemma {:induction false} SortKeysConcat(schema: Schema, a: seq<Bytes>, b: seq<Bytes>)
    requires schema.Valid()
    ensures SortKeys(schema, a + b) == SortKeys(schema, a) + SortKeys(schema, b)
  {
    if |b| == 0 {
      assert a + b == a;
    } else {
      assert (a + b)[..|a + b| - 1] == a + b[..|b| - 1];
      SortKeysConcat(schema, a, b[..|b| - 1]);
    }
  }
}
