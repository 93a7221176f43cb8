/** The order of values, and of rows by their sort key. */
module Order {
  import opened Words
  import opened Values
  import opened Floats
  import opened Tables

  // std::string comparison: bytewise, a proper prefix first.
  function CompareBytes(a: Bytes, b: Bytes): (c: int)
    ensures -1 <= c <= 1
  {
    if |a| == 0 then (if |b| == 0 then 0 else -1)
    else if |b| == 0 then 1
    else if a[0] < b[0] then -1
    else if a[0] > b[0] then 1
    else CompareBytes(a[1..], b[1..])
  }

  // Words as numbers, texts bytewise; values of one column are all words or all texts.
  function CompareValues(a: Value, b: Value): (c: int)
    ensures -1 <= c <= 1
  {
    match (a, b)
    case (Word(m), Word(n)) => if m < n then -1 else if m > n then 1 else 0
    case (Text(s), Text(t)) => CompareBytes(s, t)
    case (Word(_), Text(_)) => -1
    case (Text(_), Word(_)) => 1
  }

  lemma {:induction false} BytesOrdered(a: Bytes, b: Bytes, c: Bytes)
    ensures CompareBytes(a, b) == 0 <==> a == b
    ensures CompareBytes(b, a) == -CompareBytes(a, b)
    ensures CompareBytes(a, b) <= 0 && CompareBytes(b, c) <= 0 ==> CompareBytes(a, c) <= 0
    ensures CompareBytes(a, b) < 0 && CompareBytes(b, c) <= 0 ==> CompareBytes(a, c) < 0
    ensures CompareBytes(a, b) <= 0 && CompareBytes(b, c) < 0 ==> CompareBytes(a, c) < 0
    decreases |a| + |b| + |c|
  {
    if |a| > 0 && |b| > 0 {
      BytesOrdered(a[1..], b[1..], if |c| > 0 then c[1..] else c);
      assert a == b <==> a[0] == b[0] && a[1..] == b[1..];
    }
  }

  // A total order whose equivalence is equality.
  lemma ValuesOrdered(a: Value, b: Value, c: Value)
    ensures CompareValues(a, b) == 0 <==> a == b
    ensures CompareValues(b, a) == -CompareValues(a, b)
    ensures CompareValues(a, b) <= 0 && CompareValues(b, c) <= 0 ==> CompareValues(a, c) <= 0
    ensures CompareValues(a, b) < 0 && CompareValues(b, c) <= 0 ==> CompareValues(a, c) < 0
    ensures CompareValues(a, b) <= 0 && CompareValues(b, c) < 0 ==> CompareValues(a, c) < 0
  {
    if a.Text? && b.Text? {
      BytesOrdered(a.s, b.s, if c.Text? then c.s else []);
    }
  }

  // ---------------------------------------------------------------- sort keys

  function Signed(c: int, descending: bool): int {
    if descending then -c else c
  }

  // Lexicographic over the key columns, each comparison negated for descending order.
  function CompareKeys(a: Row, b: Row, descending: bool): (c: int)
    requires |a| == |b|
    ensures -1 <= c <= 1
  {
    if |a| == 0 then 0
    else
      var c := Signed(CompareValues(a[0], b[0]), descending);
      if c != 0 then c else CompareKeys(a[1..], b[1..], descending)
  }

  lemma {:induction false} KeysOrdered(a: Row, b: Row, c: Row, descending: bool)
    requires |a| == |b| == |c|
    ensures CompareKeys(a, b, descending) == 0 <==> a == b
    ensures CompareKeys(b, a, descending) == -CompareKeys(a, b, descending)
    ensures CompareKeys(a, b, descending) <= 0 && CompareKeys(b, c, descending) <= 0
        ==> CompareKeys(a, c, descending) <= 0
    ensures CompareKeys(a, b, descending) < 0 && CompareKeys(b, c, descending) <= 0
        ==> CompareKeys(a, c, descending) < 0
    ensures CompareKeys(a, b, descending) <= 0 && CompareKeys(b, c, descending) < 0
        ==> CompareKeys(a, c, descending) < 0
  {
    if |a| > 0 {
      KeysOrdered(a[1..], b[1..], c[1..], descending);
      ValuesOrdered(a[0], b[0], c[0]);
      ValuesOrdered(c[0], b[0], a[0]);
      ValuesOrdered(a[0], c[0], b[0]);
      assert a == b <==> a[0] == b[0] && a[1..] == b[1..];
    }
  }

  // The comparator of one column. NaN compares neither less nor greater than anything.
  function CompareElements(t: Type, a: Value, b: Value): (c: int)
    ensures -1 <= c <= 1
  {
    if IsNaN(t, a) || IsNaN(t, b) then 0 else CompareValues(Ranked(t, a), Ranked(t, b))
  }

  // Which columns rows are ordered by, with their types, and in which direction.
  datatype SortKey = SortKey(index: nat, t: Type)

  datatype Ordering = Ordering(keys: seq<SortKey>, descending: bool)

  predicate Fits(o: Ordering, width: nat) {
    forall i :: 0 <= i < |o.keys| ==> o.keys[i].index < width
  }

  // The sorts demand a strict weak order of their comparator, which a NaN among the keys breaks.
  predicate Comparable(row: Row, o: Ordering)
    requires Fits(o, |row|)
  {
    forall i :: 0 <= i < |o.keys| ==> !IsNaN(o.keys[i].t, row[o.keys[i].index])
  }

  // The key columns of a row as comparisons see them.
  function Key(row: Row, o: Ordering): (key: Row)
    requires Fits(o, |row|)
    ensures |key| == |o.keys|
  {
    seq(|o.keys|, i requires 0 <= i < |o.keys| => Ranked(o.keys[i].t, row[o.keys[i].index]))
  }

  // Strictly earlier in the output.
  predicate Before(a: Row, b: Row, o: Ordering)
    requires Fits(o, |a|) && Fits(o, |b|)
  {
    CompareKeys(Key(a, o), Key(b, o), o.descending) < 0
  }

  lemma BeforeIsOrder(a: Row, b: Row, c: Row, o: Ordering)
    requires Fits(o, |a|) && Fits(o, |b|) && Fits(o, |c|)
    ensures !Before(a, a, o)
    ensures Before(a, b, o) ==> !Before(b, a, o)
    ensures !Before(b, a, o) && !Before(c, b, o) ==> !Before(c, a, o)
    ensures Before(a, b, o) && !Before(c, b, o) ==> Before(a, c, o)
    ensures !Before(b, a, o) && Before(b, c, o) ==> Before(a, c, o)
    ensures !Before(a, b, o) && !Before(b, a, o) <==> Key(a, o) == Key(b, o)
  {
    hide Ranked;
    KeysOrdered(Key(a, o), Key(b, o), Key(c, o), o.descending);
    KeysOrdered(Key(c, o), Key(b, o), Key(a, o), o.descending);
    KeysOrdered(Key(a, o), Key(a, o), Key(c, o), o.descending);
    KeysOrdered(Key(a, o), Key(c, o), Key(c, o), o.descending);
  }

  // The comparison the sorts run: column by column on two row numbers.
  function CompareAt(columns: seq<seq<Value>>, o: Ordering, a: nat, b: nat): int
    requires forall i :: 0 <= i < |o.keys| ==>
      var c := o.keys[i].index; c < |columns| && a < |columns[c]| && b < |columns[c]|
    decreases |o.keys|
  {
    if |o.keys| == 0 then 0
    else
      var column := columns[o.keys[0].index];
      var c := Signed(CompareElements(o.keys[0].t, column[a], column[b]), o.descending);
      if c != 0 then c else CompareAt(columns, o.(keys := o.keys[1..]), a, b)
  }

  // The same on two rows.
  function CompareRows(a: Row, b: Row, o: Ordering): int
    requires Fits(o, |a|) && Fits(o, |b|)
    decreases |o.keys|
  {
    if |o.keys| == 0 then 0
    else
      var k := o.keys[0];
      var c := Signed(CompareElements(k.t, a[k.index], b[k.index]), o.descending);
      if c != 0 then c else CompareRows(a, b, o.(keys := o.keys[1..]))
  }

  // The comparator on row numbers compares the rows, and their keys where these have no NaN.
  lemma {:induction false} CompareAtMeansBefore(b: Batch, o: Ordering, i: nat, j: nat)
    requires WellFormed(b) && Fits(o, |b.columns|) && i < b.rows && j < b.rows
    ensures CompareAt(b.columns, o, i, j) == CompareRows(RowAt(b, i), RowAt(b, j), o)
    ensures Comparable(RowAt(b, i), o) && Comparable(RowAt(b, j), o) ==>
      CompareAt(b.columns, o, i, j) == CompareKeys(Key(RowAt(b, i), o), Key(RowAt(b, j), o), o.descending)
    decreases |o.keys|
  {
    hide IsNaN, Ranked;
    if |o.keys| > 0 {
      var o' := o.(keys := o.keys[1..]);
      CompareAtMeansBefore(b, o', i, j);
      assert Key(RowAt(b, i), o)[1..] == Key(RowAt(b, i), o');
      assert Key(RowAt(b, j), o)[1..] == Key(RowAt(b, j), o');
    }
  }

  // Rows that tie with two others make these tie, as the library sorts demand.
  ghost predicate TiesAgree(rows: seq<Row>, o: Ordering)
    requires forall i :: 0 <= i < |rows| ==> Fits(o, |rows[i]|)
  {
    forall i, j, k :: 0 <= i < |rows| && 0 <= j < |rows| && 0 <= k < |rows| ==>
      CompareRows(rows[i], rows[j], o) == 0 && CompareRows(rows[j], rows[k], o) == 0 ==>
        CompareRows(rows[i], rows[k], o) == 0
  }

  // With one key column they do if and only if no key is NaN or all rows tie.
  lemma TiesAgreeExactly(rows: seq<Row>, o: Ordering)
    requires |o.keys| == 1 && forall i :: 0 <= i < |rows| ==> Fits(o, |rows[i]|)
    ensures TiesAgree(rows, o)
       <==> (forall i :: 0 <= i < |rows| ==> Comparable(rows[i], o))
            || forall i, j :: 0 <= i < |rows| && 0 <= j < |rows| ==> CompareRows(rows[i], rows[j], o) == 0
  {
    hide IsNaN, Ranked, CompareValues, CompareRows, Comparable;
    if TiesAgree(rows, o) && exists n :: 0 <= n < |rows| && !Comparable(rows[n], o) {
      var n :| 0 <= n < |rows| && !Comparable(rows[n], o);
      forall i, j | 0 <= i < |rows| && 0 <= j < |rows|
        ensures CompareRows(rows[i], rows[j], o) == 0
      {
        NaNTies(rows[n], rows[i], o);
        NaNTies(rows[n], rows[j], o);
      }
    }
    if forall i :: 0 <= i < |rows| ==> Comparable(rows[i], o) {
      forall i, j, k | 0 <= i < |rows| && 0 <= j < |rows| && 0 <= k < |rows|
        && CompareRows(rows[i], rows[j], o) == 0 && CompareRows(rows[j], rows[k], o) == 0
        ensures CompareRows(rows[i], rows[k], o) == 0
      {
        OneKey(rows[i], rows[j], o);
        OneKey(rows[j], rows[k], o);
        OneKey(rows[i], rows[k], o);
      }
    }
  }

  lemma NaNTies(nan: Row, row: Row, o: Ordering)
    requires |o.keys| == 1 && Fits(o, |nan|) && Fits(o, |row|) && !Comparable(nan, o)
    ensures CompareRows(nan, row, o) == 0 && CompareRows(row, nan, o) == 0
  {
    assert o.keys[1..] == [];
  }

  lemma OneKey(a: Row, b: Row, o: Ordering)
    requires |o.keys| == 1 && Fits(o, |a|) && Fits(o, |b|) && Comparable(a, o) && Comparable(b, o)
    ensures CompareRows(a, b, o) == 0
       <==> Ranked(o.keys[0].t, a[o.keys[0].index]) == Ranked(o.keys[0].t, b[o.keys[0].index])
  {
    hide IsNaN, Ranked, CompareValues;
    var t, i := o.keys[0].t, o.keys[0].index;
    assert o.keys[1..] == [];
    ValuesOrdered(Ranked(t, a[i]), Ranked(t, b[i]), Ranked(t, b[i]));
  }
}
