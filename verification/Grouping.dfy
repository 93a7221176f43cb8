/** Group keys, the partition of the rows they induce, and what the partition conserves. */
module Grouping {
  import opened Words
  import opened Values
  import opened Tables
  import D = Distinct

  // ---------------------------------------------------------------- group keys

  predicate Typed(types: seq<Type>, vs: Row) {
    |types| == |vs| && forall i :: 0 <= i < |vs| ==> HasType(types[i], vs[i])
  }

  // The byte string rows are grouped by: the images of the group columns, one after the other.
  function KeyBytes(types: seq<Type>, vs: Row): Bytes
    requires Typed(types, vs)
  {
    if |vs| == 0 then []
    else KeyBytes(types[..|types| - 1], vs[..|vs| - 1]) + ElementBytes(types[|types| - 1], vs[|vs| - 1])
  }

  // The same string, read from its first column.
  lemma {:induction false} KeyBytesFront(types: seq<Type>, vs: Row)
    requires Typed(types, vs) && |vs| > 0
    ensures KeyBytes(types, vs) == ElementBytes(types[0], vs[0]) + KeyBytes(types[1..], vs[1..])
  {
    hide ElementBytes, HasType;
    var n := |vs| - 1;
    if n > 0 {
      KeyBytesFront(types[..n], vs[..n]);
      assert types[..n][1..] == types[1..][..n - 1] && vs[..n][1..] == vs[1..][..n - 1];
      ConcatAssociates(ElementBytes(types[0], vs[0]), KeyBytes(types[1..][..n - 1], vs[1..][..n - 1]),
                       ElementBytes(types[n], vs[n]));
    } else {
      assert types[..0] == [] && types[1..] == [];
    }
  }

  // Keys are prefix-free: a key is recognised whatever bytes follow it.
  lemma {:induction false} KeysArePrefixFree(types: seq<Type>, a: Row, b: Row, x: Bytes, y: Bytes)
    requires Typed(types, a) && Typed(types, b)
    requires KeyBytes(types, a) + x == KeyBytes(types, b) + y
    ensures a == b && x == y
    decreases |types|
  {
    if |types| > 0 {
      KeyBytesFront(types, a);
      KeyBytesFront(types, b);
      var t, restA, restB := types[0], KeyBytes(types[1..], a[1..]), KeyBytes(types[1..], b[1..]);
      ParseElementBytes(t, a[0], restA + x);
      ParseElementBytes(t, b[0], restB + y);
      ConcatAssociates(ElementBytes(t, a[0]), restA, x);
      ConcatAssociates(ElementBytes(t, b[0]), restB, y);
      DropPrefix(ElementBytes(t, a[0]), restA + x);
      DropPrefix(ElementBytes(t, b[0]), restB + y);
      KeysArePrefixFree(types[1..], a[1..], b[1..], x, y);
      HeadAndTail(a);
      HeadAndTail(b);
    } else {
      assert [] + x == x && [] + y == y;
    }
  }

  // Two rows have one key exactly when all their group columns are equal.
  lemma KeyIsInjective(types: seq<Type>, a: Row, b: Row)
    requires Typed(types, a) && Typed(types, b)
    ensures KeyBytes(types, a) == KeyBytes(types, b) <==> a == b
  {
    if KeyBytes(types, a) == KeyBytes(types, b) {
      KeysArePrefixFree(types, a, b, [], []);
    }
  }

  // ----------------------------------------------------------------- partition

  // The rows whose group values are v, in increasing order.
  function Matching(gs: seq<Row>, v: Row): (rows: seq<nat>)
    ensures forall j :: 0 <= j < |rows| ==> rows[j] < |gs|
  {
    if |gs| == 0 then []
    else
      var front := Matching(gs[..|gs| - 1], v);
      if gs[|gs| - 1] == v then front + [|gs| - 1] else front
  }

  lemma {:induction false} MatchingIs(gs: seq<Row>, v: Row)
    ensures forall i :: 0 <= i < |gs| ==> (i in Matching(gs, v) <==> gs[i] == v)
    ensures forall p, q :: 0 <= p < q < |Matching(gs, v)| ==> Matching(gs, v)[p] < Matching(gs, v)[q]
    ensures |Matching(gs, v)| <= |gs|
  {
    if |gs| > 0 {
      var front := gs[..|gs| - 1];
      MatchingIs(front, v);
      forall i | 0 <= i < |gs|
        ensures i in Matching(gs, v) <==> gs[i] == v
      {
        if i < |front| {
          assert front[i] == gs[i];
        }
      }
    }
  }

  // Every row is in the list of its own group and of no other.
  lemma GroupsPartition(gs: seq<Row>, i: nat)
    requires i < |gs|
    ensures gs[i] in D.Distinct(gs) && D.Unique(D.Distinct(gs))
    ensures forall g :: 0 <= g < |D.Distinct(gs)| ==>
      (i in Matching(gs, D.Distinct(gs)[g]) <==> g == D.IndexOf(D.Distinct(gs), gs[i]))
  {
    var groups := D.Distinct(gs);
    D.DistinctFacts(gs);
    forall g | 0 <= g < |groups|
      ensures i in Matching(gs, groups[g]) <==> g == D.IndexOf(groups, gs[i])
    {
      MatchingIs(gs, groups[g]);
      D.IndexOfAt(groups, g);
    }
  }

  lemma NotMetBefore(gs: seq<Row>, i: nat, v: Row)
    requires i <= |gs| && v !in D.Distinct(gs[..i])
    ensures forall b :: 0 <= b < i ==> gs[b] != v
  {
    D.DistinctFacts(gs[..i]);
    forall b | 0 <= b < i
      ensures gs[b] != v
    {
      assert gs[..i][b] == gs[b];
    }
  }

  // The first row of a group is met just when all earlier groups have been.
  lemma FirstRowOfGroup(gs: seq<Row>, g: nat) returns (i: nat)
    requires g < |D.Distinct(gs)|
    ensures i < |gs| && gs[i] == D.Distinct(gs)[g] && D.Distinct(gs[..i]) == D.Distinct(gs)[..g]
    ensures var rows := Matching(gs, D.Distinct(gs)[g]); |rows| > 0 && rows[0] == i
  {
    var v := D.Distinct(gs)[g];
    i := D.FirstOccurrence(gs, g);
    D.DistinctFacts(gs);
    MatchingIs(gs, v);
    assert v !in D.Distinct(gs)[..g];
    NotMetBefore(gs, i, v);
    assert i in Matching(gs, v);
    assert Matching(gs, v)[0] in Matching(gs, v);
  }

  // Groups appear in the order of their first rows.
  lemma FirstRowsAscend(gs: seq<Row>, g: nat, h: nat)
    requires g < h < |D.Distinct(gs)|
    ensures var a, b := Matching(gs, D.Distinct(gs)[g]), Matching(gs, D.Distinct(gs)[h]);
            |a| > 0 && |b| > 0 && a[0] < b[0]
  {
    var i := FirstRowOfGroup(gs, g);
    var j := FirstRowOfGroup(gs, h);
    if j <= i {
      assert gs[..i][..j] == gs[..j];
      D.DistinctIsPrefix(gs[..i], j);
    }
  }

  // -------------------------------------------------------------- conservation

  // The total of a weight over some rows.
  function Weight(rows: seq<nat>, w: nat -> int): int {
    if |rows| == 0 then 0 else Weight(rows[..|rows| - 1], w) + w(rows[|rows| - 1])
  }

  // The total of the groups' totals.
  function GroupedWeight(gs: seq<Row>, groups: seq<Row>, w: nat -> int): int {
    if |groups| == 0 then 0
    else GroupedWeight(gs, groups[..|groups| - 1], w) + Weight(Matching(gs, groups[|groups| - 1]), w)
  }

  lemma {:induction false} WeightNextRow(gs: seq<Row>, groups: seq<Row>, w: nat -> int)
    requires |gs| > 0 && D.Unique(groups)
    ensures var n := |gs| - 1;
      GroupedWeight(gs, groups, w) == GroupedWeight(gs[..n], groups, w) + if gs[n] in groups then w(n) else 0
    decreases |groups|
  {
    if |groups| > 0 {
      var front, last := groups[..|groups| - 1], groups[|groups| - 1];
      WeightNextRow(gs, front, w);
      assert groups == front + [last];
      assert last !in front;
    }
  }

  lemma {:induction false} EmptyWeight(groups: seq<Row>, w: nat -> int)
    ensures GroupedWeight([], groups, w) == 0
  {
    if |groups| > 0 {
      EmptyWeight(groups[..|groups| - 1], w);
    }
  }

  // Whatever is added up over the rows is conserved by grouping them.
  lemma {:induction false} GroupingConserves(gs: seq<Row>, groups: seq<Row>, w: nat -> int)
    requires D.Unique(groups) && forall i :: 0 <= i < |gs| ==> gs[i] in groups
    ensures GroupedWeight(gs, groups, w) == Weight(AllIndices(|gs|), w)
    decreases |gs|
  {
    if |gs| == 0 {
      EmptyWeight(groups, w);
    } else {
      var n := |gs| - 1;
      GroupingConserves(gs[..n], groups, w);
      WeightNextRow(gs, groups, w);
      assert AllIndices(n + 1)[..n] == AllIndices(n);
    }
  }
}
