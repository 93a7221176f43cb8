/** Distinct elements in order of first occurrence, and each element's place among them. */
module Distinct {
  // The dictionary of a vector, the groups of a table.
  function Distinct<T(==)>(v: seq<T>): seq<T> {
    if |v| == 0 then []
    else
      var d := Distinct(v[..|v| - 1]);
      if v[|v| - 1] in d then d else d + [v[|v| - 1]]
  }

  ghost predicate Unique<T>(d: seq<T>) {
    forall i, j :: 0 <= i < j < |d| ==> d[i] != d[j]
  }

  // The place of the first occurrence of x.
  function IndexOf<T(==)>(d: seq<T>, x: T): (i: nat)
    requires x in d
    ensures i < |d| && d[i] == x
  {
    if d[0] == x then 0 else 1 + IndexOf(d[1..], x)
  }

  lemma DistinctNext<T>(v: seq<T>, i: nat)
    requires i < |v|
    ensures Distinct(v[..i + 1]) == if v[i] in Distinct(v[..i]) then Distinct(v[..i]) else Distinct(v[..i]) + [v[i]]
  {
    assert v[..i + 1][..i] == v[..i];
  }

  // No element twice, all elements of the vector, and nothing else.
  lemma {:induction false} DistinctFacts<T>(v: seq<T>)
    ensures Unique(Distinct(v)) && |Distinct(v)| <= |v|
    ensures |v| > 0 ==> |Distinct(v)| > 0
    ensures forall i :: 0 <= i < |v| ==> v[i] in Distinct(v)
    ensures forall i :: 0 <= i < |Distinct(v)| ==> Distinct(v)[i] in v
  {
    if |v| > 0 {
      var n := |v| - 1;
      var p, d := v[..n], Distinct(v[..n]);
      DistinctFacts(p);
      forall i | 0 <= i < |v|
        ensures v[i] in Distinct(v)
      {
        if i < n {
          assert p[i] in d;
        }
      }
      forall i | 0 <= i < |Distinct(v)|
        ensures Distinct(v)[i] in v
      {
        if i < |d| {
          assert d[i] in p;
        }
      }
    }
  }

  lemma InDistinct<T>(v: seq<T>, x: T)
    ensures x in Distinct(v) <==> x in v
  {
    DistinctFacts(v);
  }

  lemma DistinctSnoc<T>(v: seq<T>, x: T)
    ensures Distinct(v + [x]) == if x in v then Distinct(v) else Distinct(v) + [x]
  {
    InDistinct(v, x);
    assert (v + [x])[..|v|] == v;
  }

  lemma {:induction false} DistinctOfUnique<T>(v: seq<T>)
    requires Unique(v)
    ensures Distinct(v) == v
  {
    if |v| > 0 {
      var n := |v| - 1;
      DistinctOfUnique(v[..n]);
      assert v == v[..n] + [v[n]];
    }
  }

  // Growing the vector only appends to its distinct elements.
  lemma {:induction false} DistinctIsPrefix<T>(v: seq<T>, i: nat)
    requires i <= |v|
    ensures Distinct(v[..i]) <= Distinct(v)
    decreases |v| - i
  {
    if i == |v| {
      assert v[..i] == v;
    } else {
      DistinctNext(v, i);
      DistinctIsPrefix(v, i + 1);
    }
  }

  lemma {:induction false} IndexInPrefix<T>(d: seq<T>, e: seq<T>, x: T)
    requires d <= e && x in d
    ensures x in e && IndexOf(e, x) == IndexOf(d, x)
  {
    if d[0] != x {
      assert d[1..] <= e[1..];
      IndexInPrefix(d[1..], e[1..], x);
    }
  }

  lemma IndexOfAt<T>(d: seq<T>, k: nat)
    requires k < |d| && Unique(d)
    ensures IndexOf(d, d[k]) == k
  {
  }

  // An element not met before takes the next place, and keeps it.
  lemma NewPlace<T>(v: seq<T>, i: nat)
    requires i < |v| && v[i] !in Distinct(v[..i])
    ensures v[i] in Distinct(v) && IndexOf(Distinct(v), v[i]) == |Distinct(v[..i])|
  {
    hide Distinct, IndexOf;
    var d := Distinct(v[..i + 1]);
    DistinctNext(v, i);
    DistinctIsPrefix(v, i + 1);
    DistinctFacts(v[..i + 1]);
    IndexOfAt(d, |d| - 1);
    IndexInPrefix(d, Distinct(v), v[i]);
  }

  // Where the k-th distinct element is first met, exactly the earlier ones have been seen.
  lemma {:induction false} FirstOccurrence<T>(v: seq<T>, k: nat) returns (i: nat)
    requires k < |Distinct(v)|
    ensures i < |v| && v[i] == Distinct(v)[k]
    ensures Distinct(v[..i]) == Distinct(v)[..k]
  {
    var n := |v| - 1;
    var p := v[..n];
    if k < |Distinct(p)| {
      i := FirstOccurrence(p, k);
      assert p[..i] == v[..i];
      assert Distinct(v)[..k] == Distinct(p)[..k];
    } else {
      i := n;
    }
  }
}
