/** The two library sorts the operators call on row numbers, by their contracts, and permutations. */
module Sorting {
  function Map<A, B>(f: A -> B, s: seq<A>): (r: seq<B>)
    ensures |r| == |s|
  {
    seq(|s|, i requires 0 <= i < |s| => f(s[i]))
  }

  lemma MapConcat<A, B>(f: A -> B, a: seq<A>, b: seq<A>)
    ensures Map(f, a + b) == Map(f, a) + Map(f, b)
  {
  }

  function Without<A>(s: seq<A>, p: nat): seq<A>
    requires p < |s|
  {
    s[..p] + s[p + 1..]
  }

  lemma TakeOut<A>(s: seq<A>, p: nat)
    requires p < |s|
    ensures multiset(s) == multiset(Without(s, p)) + multiset{s[p]}
    ensures multiset(Without(s, p)) == multiset(s) - multiset{s[p]}
  {
    assert s == s[..p] + [s[p]] + s[p + 1..];
  }

  lemma TailMultiset<A>(s: seq<A>)
    requires |s| > 0
    ensures multiset(s[1..]) == multiset(s) - multiset{s[0]} && s[0] in multiset(s)
  {
    assert s == [s[0]] + s[1..];
  }

  lemma MapWithout<A, B>(f: A -> B, s: seq<A>, p: nat)
    requires p < |s|
    ensures Map(f, Without(s, p)) == Without(Map(f, s), p)
  {
  }

  lemma PlaceOf<A>(s: seq<A>, x: A) returns (p: nat)
    requires x in multiset(s)
    ensures p < |s| && s[p] == x
  {
    p :| p < |s| && s[p] == x;
  }

  // Permuting the arguments permutes the images.
  lemma {:induction false} MapPermutes<A, B>(f: A -> B, a: seq<A>, b: seq<A>)
    requires multiset(a) == multiset(b)
    ensures multiset(Map(f, a)) == multiset(Map(f, b))
    decreases |a|
  {
    assert |a| == |multiset(a)| == |multiset(b)| == |b|;
    if |a| > 0 {
      var p := PlaceOf(b, a[0]);
      TakeOut(a, 0);
      TakeOut(b, p);
      MapImages(f, a, b, p);
    }
  }

  lemma MapImages<A, B>(f: A -> B, a: seq<A>, b: seq<A>, p: nat)
    requires |a| > 0 && p < |b| && a[0] == b[p]
    requires multiset(Without(a, 0)) == multiset(Without(b, p))
    ensures multiset(Map(f, a)) == multiset(Map(f, b))
    decreases |a|, 0
  {
    hide *;
    WithoutSize(a, 0);
    MapPermutes(f, Without(a, 0), Without(b, p));
    MapWithout(f, a, 0);
    MapWithout(f, b, p);
    TakeOut(Map(f, a), 0);
    TakeOut(Map(f, b), p);
    MapAt(f, a, 0);
    MapAt(f, b, p);
  }

  lemma MapAt<A, B>(f: A -> B, s: seq<A>, p: nat)
    requires p < |s|
    ensures Map(f, s)[p] == f(s[p])
  {
  }

  lemma WithoutSize<A>(s: seq<A>, p: nat)
    requires p < |s|
    ensures |Without(s, p)| == |s| - 1
  {
  }

  // ------------------------------------------------------------------ orders

  // What the standard demands of a comparator, on the row numbers below n.
  ghost predicate StrictWeakOrder(less: (nat, nat) -> bool, n: nat) {
    && (forall x: nat, y: nat | x < n && y < n :: less(x, y) ==> !less(y, x))
    && (forall x: nat, y: nat, z: nat | x < n && y < n && z < n :: less(x, y) && less(y, z) ==> less(x, z))
    && (forall x: nat, y: nat, z: nat | x < n && y < n && z < n :: !less(y, x) && !less(z, y) ==> !less(z, x))
  }

  predicate Below(s: seq<nat>, n: nat) {
    forall i :: 0 <= i < |s| ==> s[i] < n
  }

  // The first `middle` places hold least elements in order; ties come in any order.
  ghost predicate PartiallySorted(s: seq<nat>, middle: nat, less: (nat, nat) -> bool) {
    forall p, q :: 0 <= p < q < |s| && p < middle ==> !less(s[q], s[p])
  }

  // In order, and ties by increasing row number.
  ghost predicate StablySorted(s: seq<nat>, less: (nat, nat) -> bool) {
    forall p, q :: 0 <= p < q < |s| ==> !less(s[q], s[p]) && (less(s[p], s[q]) || s[p] < s[q])
  }

  predicate Increasing(s: seq<nat>) {
    forall p, q :: 0 <= p < q < |s| ==> s[p] < s[q]
  }

  lemma BelowPermutes(a: seq<nat>, b: seq<nat>, n: nat)
    requires multiset(a) == multiset(b) && Below(a, n)
    ensures Below(b, n)
  {
    forall i | 0 <= i < |b|
      ensures b[i] < n
    {
      assert b[i] in multiset(a);
    }
  }

  // ------------------------------------------------------------------- sorts

  method LeastFrom(indices: array<nat>, from: nat, less: (nat, nat) -> bool, n: nat) returns (m: nat)
    requires from < indices.Length && StrictWeakOrder(less, n) && Below(indices[..], n)
    ensures from <= m < indices.Length
    ensures forall q :: from <= q < indices.Length ==> !less(indices[q], indices[m])
  {
    m := from;
    assert forall i :: 0 <= i < indices.Length ==> indices[i] == indices[..][i];
    for j := from to indices.Length
      invariant from <= m < indices.Length
      invariant forall q :: from <= q < j ==> !less(indices[q], indices[m])
      invariant j == from ==> m == from
    {
      if less(indices[j], indices[m]) {
        m := j;
      }
    }
  }

  // std::partial_sort: a permutation whose front is sorted and least.
  method PartialSort(indices: array<nat>, middle: nat, less: (nat, nat) -> bool, n: nat)
    requires middle <= indices.Length && StrictWeakOrder(less, n) && Below(indices[..], n)
    modifies indices
    ensures multiset(indices[..]) == multiset(old(indices[..]))
    ensures PartiallySorted(indices[..], middle, less)
  {
    for i := 0 to middle
      invariant multiset(indices[..]) == multiset(old(indices[..]))
      invariant Below(indices[..], n)
      invariant PartiallySorted(indices[..], i, less)
    {
      var m := LeastFrom(indices, i, less, n);
      ghost var before := indices[..];
      indices[i], indices[m] := indices[m], indices[i];
      SwapKeepsSorted(before, indices[..], i, m, less, n);
    }
  }

  lemma SwapKeepsSorted(before: seq<nat>, after: seq<nat>, i: nat, m: nat, less: (nat, nat) -> bool, n: nat)
    requires i <= m < |before| && after == before[i := before[m]][m := before[i]]
    requires PartiallySorted(before, i, less) && Below(before, n)
    requires forall q :: i <= q < |before| ==> !less(before[q], before[m])
    ensures PartiallySorted(after, i + 1, less) && Below(after, n)
    ensures multiset(after) == multiset(before)
  {
    forall p, q | 0 <= p < q < |after| && p < i + 1
      ensures !less(after[q], after[p])
    {
      var q' := if q == i then m else if q == m then i else q;
      assert after[q] == before[q'];
    }
  }

  // The first i elements are sorted, the others as yet in place.
  ghost predicate SortedUpTo(s: seq<nat>, i: nat, less: (nat, nat) -> bool) {
    && i <= |s| && StablySorted(s[..i], less)
    && forall p, q :: 0 <= p < q < |s| && i <= q ==> s[p] < s[q]
  }

  // std::stable_sort of row numbers in increasing order.
  method StableSort(indices: array<nat>, less: (nat, nat) -> bool, n: nat)
    requires StrictWeakOrder(less, n) && Below(indices[..], n) && Increasing(indices[..])
    modifies indices
    ensures multiset(indices[..]) == multiset(old(indices[..]))
    ensures StablySorted(indices[..], less)
  {
    ghost var was := indices[..];
    for i := 0 to indices.Length
      invariant multiset(indices[..]) == multiset(was)
      invariant Below(indices[..], n) && SortedUpTo(indices[..], i, less)
    {
      Insert(indices, i, less, n);
    }
    assert indices[..][..indices.Length] == indices[..];
  }

  // Element x has sunk from place i to place j: it is before all it has passed.
  ghost predicate Sinking(s: seq<nat>, i: nat, j: nat, x: nat, less: (nat, nat) -> bool) {
    && j <= i < |s| && s[j] == x
    && (forall p, q :: 0 <= p < q < |s| && i < q ==> s[p] < s[q])
    && (forall p :: 0 <= p <= i && p != j ==> s[p] < x)
    && (forall q :: j < q <= i ==> less(x, s[q]))
    && forall p, q :: 0 <= p < q <= i && p != j && q != j ==> !less(s[q], s[p]) && (less(s[p], s[q]) || s[p] < s[q])
  }

  lemma SinkStep(before: seq<nat>, after: seq<nat>, i: nat, j: nat, x: nat, less: (nat, nat) -> bool)
    requires Sinking(before, i, j, x, less) && j > 0 && less(before[j], before[j - 1])
    requires after == before[j := before[j - 1]][j - 1 := x]
    ensures Sinking(after, i, j - 1, x, less) && multiset(after) == multiset(before)
  {
    forall p, q | 0 <= p < q <= i && p != j - 1 && q != j - 1
      ensures !less(after[q], after[p]) && (less(after[p], after[q]) || after[p] < after[q])
    {
      var p', q' := if p == j then j - 1 else p, if q == j then j - 1 else q;
      assert after[p] == before[p'] && after[q] == before[q'];
    }
    forall p, q | 0 <= p < q < |after| && i < q
      ensures after[p] < after[q]
    {
      var p' := if p == j then j - 1 else if p == j - 1 then j else p;
      assert after[p] == before[p'];
    }
  }

  lemma StartsSinking(s: seq<nat>, i: nat, less: (nat, nat) -> bool)
    requires i < |s| && SortedUpTo(s, i, less)
    ensures Sinking(s, i, i, s[i], less)
  {
    assert forall p :: 0 <= p < i ==> s[..i][p] == s[p];
  }

  // The sunk element is not before its left neighbour, hence before none to its left.
  lemma Settles(s: seq<nat>, i: nat, j: nat, x: nat, less: (nat, nat) -> bool, n: nat)
    requires Sinking(s, i, j, x, less) && StrictWeakOrder(less, n) && Below(s, n)
    requires j > 0 ==> !less(x, s[j - 1])
    ensures SortedUpTo(s, i + 1, less)
  {
    forall p | 0 <= p < j
      ensures !less(s[j], s[p])
    {
      if p < j - 1 {
        assert !less(s[j - 1], s[p]);
      }
    }
  }

  // Element i sinks into the sorted prefix before it.
  method Insert(indices: array<nat>, i: nat, less: (nat, nat) -> bool, n: nat)
    requires i < indices.Length && StrictWeakOrder(less, n) && Below(indices[..], n)
    requires SortedUpTo(indices[..], i, less)
    modifies indices
    ensures multiset(indices[..]) == multiset(old(indices[..])) && Below(indices[..], n)
    ensures SortedUpTo(indices[..], i + 1, less)
  {
    hide SortedUpTo, StrictWeakOrder, Below, Sinking;
    ghost var was := indices[..];
    ghost var x := was[i];
    var j := i;
    StartsSinking(was, i, less);
    while j > 0 && less(indices[j], indices[j - 1])
      invariant j <= i && Sinking(indices[..], i, j, x, less) && indices[j] == x
      invariant multiset(indices[..]) == multiset(was)
    {
      SinkStep(indices[..], indices[..][j := indices[j - 1]][j - 1 := x], i, j, x, less);
      indices[j], indices[j - 1] := indices[j - 1], indices[j];
      j := j - 1;
    }
    BelowPermutes(was, indices[..], n);
    Settles(indices[..], i, j, x, less, n);
  }
}
