/** Run-length encoding: maximal runs of equal elements as values and counts. */
module Rle {
  import opened Words
  import opened BitPack
  import opened Values
  import opened Floats
  import opened PackedWords

  // ------------------------------------------------------------------- runs

  // The length of the longest prefix of equal elements.
  function RunLength<T(==)>(v: seq<T>): (n: nat)
    requires |v| > 0
    ensures 1 <= n <= |v|
    ensures forall k :: 0 <= k < n ==> v[k] == v[0]
    ensures n < |v| ==> v[n] != v[0]
  {
    if |v| == 1 || v[1] != v[0] then 1 else 1 + RunLength(v[1..])
  }

  function RunValues<T(==)>(v: seq<T>): seq<T> {
    if |v| == 0 then [] else [v[0]] + RunValues(v[RunLength(v)..])
  }

  function RunCounts<T(==)>(v: seq<T>): seq<nat> {
    if |v| == 0 then [] else [RunLength(v)] + RunCounts(v[RunLength(v)..])
  }

  function Repeat<T>(x: T, n: nat): (r: seq<T>)
    ensures |r| == n && forall k :: 0 <= k < n ==> r[k] == x
  {
    seq(n, _ => x)
  }

  function Expand<T>(values: seq<T>, counts: seq<nat>): seq<T>
    requires |values| == |counts|
  {
    if |values| == 0 then [] else Repeat(values[0], counts[0]) + Expand(values[1..], counts[1..])
  }

  function Sum(counts: seq<nat>): nat {
    if |counts| == 0 then 0 else counts[0] + Sum(counts[1..])
  }

  // Runs are positive, cover the input and meet only where the value changes.
  lemma {:induction false} RunsAreMaximal<T>(v: seq<T>)
    ensures |RunValues(v)| == |RunCounts(v)| <= |v|
    ensures |v| > 0 ==> |RunValues(v)| > 0
    ensures Sum(RunCounts(v)) == |v|
    ensures forall i :: 0 <= i < |RunCounts(v)| ==> 0 < RunCounts(v)[i] <= |v|
    ensures forall i :: 0 < i < |RunValues(v)| ==> RunValues(v)[i] != RunValues(v)[i - 1]
    ensures forall i :: 0 <= i < |RunValues(v)| ==> RunValues(v)[i] in v
  {
    if |v| > 0 {
      RunsAreMaximal(v[RunLength(v)..]);
    }
  }

  // One unfolding of the runs.
  lemma FirstRun<T>(v: seq<T>, n: nat, tail: seq<T>)
    requires |v| > 0 && n == RunLength(v) && tail == v[n..]
    ensures RunValues(v) == [v[0]] + RunValues(tail)
    ensures RunCounts(v) == [n] + RunCounts(tail)
  {
  }

  lemma ExpandCons<T>(x: T, n: nat, values: seq<T>, counts: seq<nat>)
    requires |values| == |counts|
    ensures Expand([x] + values, [n] + counts) == Repeat(x, n) + Expand(values, counts)
  {
    assert ([x] + values)[1..] == values && ([n] + counts)[1..] == counts;
  }

  // The first element of each run, where equality sees the labels `ls` of the elements `v`.
  function RunHeads<T(==), U>(ls: seq<T>, v: seq<U>): (heads: seq<U>)
    requires |ls| == |v|
    ensures |heads| == |RunCounts(ls)|
  {
    if |ls| == 0 then [] else [v[0]] + RunHeads(ls[RunLength(ls)..], v[RunLength(ls)..])
  }

  lemma {:induction false} HeadsInside<T, U>(ls: seq<T>, v: seq<U>)
    requires |ls| == |v|
    ensures forall i :: 0 <= i < |RunHeads(ls, v)| ==> RunHeads(ls, v)[i] in v
  {
    if |ls| > 0 {
      HeadsInside(ls[RunLength(ls)..], v[RunLength(ls)..]);
    }
  }

  // One unfolding of the heads.
  lemma FirstHead<T, U>(ls: seq<T>, v: seq<U>, n: nat)
    requires |ls| == |v| && |ls| > 0 && n == RunLength(ls)
    ensures RunHeads(ls, v) == [v[0]] + RunHeads(ls[n..], v[n..])
  {
  }

  // Where a head comes from.
  lemma {:induction false} HeadIs<T, U>(ls: seq<T>, v: seq<U>, k: nat) returns (i: nat)
    requires |ls| == |v| && k < |RunHeads(ls, v)|
    ensures |RunValues(ls)| == |RunHeads(ls, v)|
    ensures i < |v| && RunHeads(ls, v)[k] == v[i] && RunValues(ls)[k] == ls[i]
  {
    RunsAreMaximal(ls);
    var n := RunLength(ls);
    if k == 0 {
      i := 0;
    } else {
      i := HeadIs(ls[n..], v[n..], k - 1);
      i := n + i;
    }
  }

  // Elements of one run are one element.
  predicate Steady<T(==), U(==)>(ls: seq<T>, v: seq<U>)
    requires |ls| == |v|
  {
    forall i :: 0 < i < |v| && ls[i] == ls[i - 1] ==> v[i] == v[i - 1]
  }

  lemma {:induction false} SteadyRun<T, U>(ls: seq<T>, v: seq<U>, k: nat)
    requires |ls| == |v| && |ls| > 0 && Steady(ls, v) && k < RunLength(ls)
    ensures v[k] == v[0]
  {
    if k > 0 {
      SteadyRun(ls, v, k - 1);
      assert ls[k] == ls[k - 1];
    }
  }

  lemma SteadySplit<T, U>(ls: seq<T>, v: seq<U>, n: nat)
    requires |ls| == |v| && |ls| > 0 && n == RunLength(ls)
    ensures Steady(ls, v) <==> v[..n] == Repeat(v[0], n) && Steady(ls[n..], v[n..])
  {
    if Steady(ls, v) {
      forall k | 0 <= k < n
        ensures v[k] == v[0]
      {
        SteadyRun(ls, v, k);
      }
    }
    if v[..n] == Repeat(v[0], n) && Steady(ls[n..], v[n..]) {
      forall i | 0 < i < |v| && ls[i] == ls[i - 1]
        ensures v[i] == v[i - 1]
      {
        if i < n {
          assert v[..n][i] == v[..n][i - 1];
        } else {
          assert i > n;
          assert ls[n..][i - n] == ls[n..][i - n - 1];
        }
      }
    }
  }

  lemma SplitEqual<T>(a: seq<T>, b: seq<T>, v: seq<T>, n: nat)
    requires |a| == n <= |v|
    ensures a + b == v <==> v[..n] == a && v[n..] == b
  {
    if v[..n] == a && v[n..] == b {
      assert v == v[..n] + v[n..];
    }
  }

  // Expanding the runs restores the elements exactly when those of one run are one element.
  lemma {:induction false} ExpandHeads<T, U>(ls: seq<T>, v: seq<U>)
    requires |ls| == |v|
    ensures Expand(RunHeads(ls, v), RunCounts(ls)) == v <==> Steady(ls, v)
  {
    if |ls| > 0 {
      var n := RunLength(ls);
      ExpandHeads(ls[n..], v[n..]);
      FirstRun(ls, n, ls[n..]);
      FirstHead(ls, v, n);
      ExpandCons(v[0], n, RunHeads(ls[n..], v[n..]), RunCounts(ls[n..]));
      SteadySplit(ls, v, n);
      SplitEqual(Repeat(v[0], n), Expand(RunHeads(ls[n..], v[n..]), RunCounts(ls[n..])), v, n);
    }
  }

  lemma {:induction false} RunsOfRepeat<T>(x: T, n: nat, w: seq<T>)
    ensures |RunValues(Repeat(x, n) + w)| <= 1 + |RunValues(w)|
  {
    var v := Repeat(x, n) + w;
    if n == 0 {
      assert v == w;
    } else if |w| == 0 || w[0] != x {
      RunLengthIs(v, n);
      FirstRun(v, n, w);
    } else {
      var m := RunLength(w);
      var tail := w[m..];
      RunLengthIs(v, n + m);
      FirstRun(w, m, tail);
      assert v[n + m..] == tail;
      FirstRun(v, n + m, tail);
    }
  }

  lemma RunLengthIs<T>(v: seq<T>, n: nat)
    requires 0 < n <= |v|
    requires forall k :: 0 <= k < n ==> v[k] == v[0]
    requires n < |v| ==> v[n] != v[0]
    ensures RunLength(v) == n
  {
  }

  // No list of runs that expands to the input is shorter than its runs of one word each.
  lemma {:induction false} RunsAreFewest<T>(values: seq<T>, counts: seq<nat>)
    requires |values| == |counts|
    ensures |RunValues(Expand(values, counts))| <= |values|
  {
    if |values| > 0 {
      RunsAreFewest(values[1..], counts[1..]);
      RunsOfRepeat(values[0], counts[0], Expand(values[1..], counts[1..]));
    }
  }

  lemma FrontRuns<T>(v: seq<T>)
    requires |v| > 1
    ensures |RunCounts(v)| == |RunCounts(v[1..])| + if v[0] == v[1] then 0 else 1
  {
    var tail := v[1..];
    if v[0] == v[1] {
      assert v[RunLength(v)..] == tail[RunLength(tail)..];
    }
  }

  lemma SteadyFront<T, U>(ls: seq<T>, v: seq<U>)
    requires |ls| == |v| > 1
    ensures Steady(ls, v) <==> (ls[0] == ls[1] ==> v[0] == v[1]) && Steady(ls[1..], v[1..])
  {
    var ls', v' := ls[1..], v[1..];
    if (ls[0] == ls[1] ==> v[0] == v[1]) && Steady(ls', v') {
      forall i | 0 < i < |v| && ls[i] == ls[i - 1]
        ensures v[i] == v[i - 1]
      {
        if i > 1 {
          assert ls'[i - 1] == ls'[i - 2];
        }
      }
    }
  }

  // There are at least as many runs of labels as runs of words, and no more exactly when equal words have one label.
  lemma {:induction false} RunsCompared<T, U>(ls: seq<T>, v: seq<U>)
    requires |ls| == |v| && Steady(ls, v)
    ensures |RunCounts(v)| <= |RunCounts(ls)|
    ensures |RunCounts(ls)| <= |RunCounts(v)| <==> Steady(v, ls)
  {
    hide RunCounts, Steady;
    if |v| > 1 {
      SteadyFront(ls, v);
      SteadyFront(v, ls);
      RunsCompared(ls[1..], v[1..]);
      FrontRuns(ls);
      FrontRuns(v);
    } else {
      ShortRuns(ls, v);
    }
  }

  lemma ShortRuns<T, U>(ls: seq<T>, v: seq<U>)
    requires |ls| == |v| <= 1
    ensures |RunCounts(ls)| == |RunCounts(v)| == |v| && Steady(v, ls)
  {
  }

  // Where labels and words change together, the runs written are the runs of words.
  lemma {:induction false} SameRuns<T, U>(ls: seq<T>, v: seq<U>)
    requires |ls| == |v| && Steady(ls, v) && Steady(v, ls)
    ensures RunHeads(ls, v) == RunValues(v) && RunCounts(ls) == RunCounts(v)
  {
    if |ls| > 0 {
      var n := RunLength(ls);
      SteadySplit(ls, v, n);
      if n < |ls| {
        assert ls[n] != ls[n - 1];
        assert v[n - 1] == v[..n][n - 1] == v[0];
      }
      forall k | 0 <= k < n
        ensures v[k] == v[0]
      {
        assert v[..n][k] == v[k];
      }
      RunLengthIs(v, n);
      SteadySplit(v, ls, n);
      SameRuns(ls[n..], v[n..]);
      FirstRun(v, n, v[n..]);
    }
  }

  // ------------------------------------------------------------- the encoding

  lemma CountsFit(t: Type, v: seq<Value>)
    requires InMemory(t, v)
    ensures |RunHeads(Labels(t, v), v)| == |RunCounts(Labels(t, v))| <= |v| < MEMORY_LIMIT
    ensures AllBelow(RunCounts(Labels(t, v)), SIZE_LIMIT) && AllTyped(t, RunHeads(Labels(t, v), v))
  {
    FixedValuesSize(t, v);
    RunsAreMaximal(Labels(t, v));
    HeadsInside(Labels(t, v), v);
  }

  function RleBytes(t: Type, v: seq<Value>, packed: bool): Bytes
    requires InMemory(t, v)
  {
    CountsFit(t, v);
    var values, counts := RunHeads(Labels(t, v), v), RunCounts(Labels(t, v));
    ToBytes(|values|, SIZE_BYTES) + ValuesBytes(t, values)
    + CountsBytes(counts, packed && |values| > 0)
  }

  lemma {:induction false} ExpandTyped(t: Type, values: seq<Value>, counts: seq<nat>)
    requires |values| == |counts| && AllTyped(t, values)
    ensures AllTyped(t, Expand(values, counts))
  {
    if |values| > 0 {
      ExpandTyped(t, values[1..], counts[1..]);
    }
  }

  // None where the engine would read past the end of the buffer.
  function ParseRle(t: Type, bs: Bytes, packed: bool): (r: Option<Parsed<seq<Value>>>)
    ensures r.Some? ==> r.value.used <= |bs| && AllTyped(t, r.value.value)
  {
    if |bs| < SIZE_BYTES then None
    else
      var runCount := FromBytes(bs[..SIZE_BYTES]);
      match ParseValues(t, bs[SIZE_BYTES..], runCount)
      case None => None
      case Some(values) =>
        var at := SIZE_BYTES + values.used;
        match ParseWords(bs[at..], runCount, packed && runCount > 0, SIZE_BYTES)
        case None => None
        case Some(counts) =>
          ExpandTyped(t, values.value, counts.value);
          Some(Parsed(Expand(values.value, counts.value), at + counts.used))
  }

  lemma ParseRleParts(t: Type, header: Bytes, body: Bytes, words: Bytes, rest: Bytes, packed: bool,
      values: seq<Value>, counts: seq<nat>)
    requires |header| == SIZE_BYTES && FromBytes(header) == |values| == |counts|
    requires ParseValues(t, body + (words + rest), |values|) == Some(Parsed(values, |body|))
    requires ParseWords(words + rest, |values|, packed && |values| > 0, SIZE_BYTES) == Some(Parsed(counts, |words|))
    ensures ParseRle(t, header + body + words + rest, packed)
         == Some(Parsed(Expand(values, counts), |header + body + words|))
  {
    ThreeParts(header, body, words, rest);
  }

  // Decoding needs no length, expands the stored runs and stops exactly at the end of the encoding.
  lemma ParseRleBytes(t: Type, v: seq<Value>, packed: bool, rest: Bytes)
    requires InMemory(t, v)
    ensures |RunHeads(Labels(t, v), v)| == |RunCounts(Labels(t, v))|
    ensures ParseRle(t, RleBytes(t, v, packed) + rest, packed)
         == Some(Parsed(Expand(RunHeads(Labels(t, v), v), RunCounts(Labels(t, v))), |RleBytes(t, v, packed)|))
  {
    CountsFit(t, v);
    var values, counts := RunHeads(Labels(t, v), v), RunCounts(Labels(t, v));
    hide RunHeads, RunCounts, Labels;
    var header, body := ToBytes(|values|, SIZE_BYTES), ValuesBytes(t, values);
    var words := CountsBytes(counts, packed && |values| > 0);
    SizeRoundTrip(|values|);
    ParseValuesBytes(t, values, words + rest);
    ParseCountsBytes(counts, packed && |values| > 0, rest);
    ParseRleParts(t, header, body, words, rest, packed, values, counts);
  }

  lemma {:induction false} ExpandLength<T>(values: seq<T>, counts: seq<nat>)
    requires |values| == |counts|
    ensures |Expand(values, counts)| == Sum(counts)
  {
    if |values| > 0 {
      ExpandLength(values[1..], counts[1..]);
    }
  }

  // Whatever is stored, decoding gives a column of the same length.
  lemma ParsedLength(t: Type, v: seq<Value>, packed: bool)
    requires InMemory(t, v)
    ensures var r := ParseRle(t, RleBytes(t, v, packed), packed); r.Some? && |r.value.value| == |v|
  {
    hide RleBytes, ParseRle, RunHeads, Labels;
    ParseRleBytes(t, v, packed, []);
    assert RleBytes(t, v, packed) + [] == RleBytes(t, v, packed);
    RunsAreMaximal(Labels(t, v));
    ExpandLength(RunHeads(Labels(t, v), v), RunCounts(Labels(t, v)));
  }

  // No run mixes the two zeros.
  predicate ZeroRunsKeepSign(t: Type, v: seq<Value>) {
    forall i :: 0 < i < |v| && IsZero(t, v[i]) && IsZero(t, v[i - 1]) ==> v[i] == v[i - 1]
  }

  lemma SteadyExactly(t: Type, v: seq<Value>)
    requires AllTyped(t, v)
    ensures Steady(Labels(t, v), v) <==> ZeroRunsKeepSign(t, v)
    ensures !IsFloat(t) ==> ZeroRunsKeepSign(t, v)
  {
    hide Labels, IsZero, Ranked;
    forall i | 0 < i < |v|
      ensures (Labels(t, v)[i] == Labels(t, v)[i - 1] ==> v[i] == v[i - 1])
         <==> (IsZero(t, v[i]) && IsZero(t, v[i - 1]) ==> v[i] == v[i - 1])
    {
      LabelsAreEquality(t, v, i, i - 1);
      OneWordUnlessZero(t, v[i], v[i - 1]);
    }
    NoZeroWords(t, v);
  }

  lemma NoZeroWords(t: Type, v: seq<Value>)
    ensures !IsFloat(t) ==> forall i :: 0 <= i < |v| ==> !IsZero(t, v[i])
  {
  }

  // The round trip holds if and only if no two neighbours are zeros of different sign; other than for floats, always.
  lemma RleRoundTrip(t: Type, v: seq<Value>, packed: bool, rest: Bytes)
    requires InMemory(t, v)
    ensures ParseRle(t, RleBytes(t, v, packed) + rest, packed) == Some(Parsed(v, |RleBytes(t, v, packed)|))
       <==> ZeroRunsKeepSign(t, v)
    ensures !IsFloat(t) ==> ZeroRunsKeepSign(t, v)
  {
    hide RleBytes, ParseRle, Expand, RunHeads, RunCounts, Labels, Steady, ZeroRunsKeepSign;
    ParseRleBytes(t, v, packed, rest);
    ExpandHeads(Labels(t, v), v);
    SteadyExactly(t, v);
  }

  // Runs are positive, cover the column and meet only at elements that are not equal.
  lemma WrittenRunsAreMaximal(t: Type, v: seq<Value>)
    ensures var heads, counts := RunHeads(Labels(t, v), v), RunCounts(Labels(t, v));
      && Sum(counts) == |v| && (forall i :: 0 <= i < |counts| ==> counts[i] > 0)
      && (forall i :: 0 < i < |heads| ==> !Equal(t, heads[i], heads[i - 1]))
  {
    hide Labels, Equal, RunHeads, RunValues;
    var ls := Labels(t, v);
    var heads := RunHeads(ls, v);
    RunsAreMaximal(ls);
    forall i | 0 < i < |heads|
      ensures !Equal(t, heads[i], heads[i - 1])
    {
      var p := HeadIs(ls, v, i);
      var q := HeadIs(ls, v, i - 1);
      LabelsAreEquality(t, v, p, q);
    }
  }

  // No NaN is repeated bit by bit.
  predicate NaNsDiffer(t: Type, v: seq<Value>) {
    forall i :: 0 < i < |v| && IsNaN(t, v[i]) ==> v[i] != v[i - 1]
  }

  lemma NaNsDifferExactly(t: Type, v: seq<Value>)
    ensures Steady(v, Labels(t, v)) <==> NaNsDiffer(t, v)
    ensures !IsFloat(t) ==> NaNsDiffer(t, v)
  {
    hide Labels, Ranked;
    forall i | 0 < i < |v|
      ensures (v[i] == v[i - 1] ==> Labels(t, v)[i] == Labels(t, v)[i - 1])
         <==> (IsNaN(t, v[i]) ==> v[i] != v[i - 1])
    {
      LabelsAreEquality(t, v, i, i - 1);
    }
  }

  // Runs that make up the vector, and no fewer do.
  ghost predicate IsShortest<T(!new)>(v: seq<T>, values: seq<T>, counts: seq<nat>)
    requires |values| == |counts|
  {
    && Expand(values, counts) == v
    && forall values': seq<T>, counts': seq<nat> ::
         |values'| == |counts'| && Expand(values', counts') == v ==> |values| <= |values'|
  }

  // The runs written are the fewest that make up the column if and only if no run mixes the two zeros and no NaN is
  // repeated; other than for floats, always.
  lemma WrittenRunsAreFewest(t: Type, v: seq<Value>)
    requires AllTyped(t, v)
    ensures IsShortest(v, RunHeads(Labels(t, v), v), RunCounts(Labels(t, v)))
       <==> ZeroRunsKeepSign(t, v) && NaNsDiffer(t, v)
    ensures !IsFloat(t) ==> ZeroRunsKeepSign(t, v) && NaNsDiffer(t, v)
  {
    hide Labels, RunHeads, RunCounts, RunValues, Expand, Steady, ZeroRunsKeepSign, NaNsDiffer;
    var ls := Labels(t, v);
    SteadyExactly(t, v);
    NaNsDifferExactly(t, v);
    ExpandHeads(ls, v);
    if Steady(ls, v) {
      RunsCompared(ls, v);
      WordRunsAreShortest(v);
    }
  }

  lemma WordRunsAreShortest<T(!new)>(v: seq<T>)
    ensures |RunValues(v)| == |RunCounts(v)| && IsShortest(v, RunValues(v), RunCounts(v))
  {
    hide RunHeads, RunValues, RunCounts, Expand;
    RunsAreMaximal(v);
    SameRuns(v, v);
    ExpandHeads(v, v);
    forall values: seq<T>, counts: seq<nat> | |values| == |counts| && Expand(values, counts) == v
      ensures |RunValues(v)| <= |values|
    {
      RunsAreFewest(values, counts);
    }
  }

  // A NaN and the same once more: two runs, where one would do.
  lemma RepeatedNaN(t: Type, nan: Value)
    requires IsNaN(t, nan)
    ensures |RunHeads(Labels(t, [nan, nan]), [nan, nan])| == 2 && Expand([nan], [2]) == [nan, nan]
  {
    hide IsNaN, Ranked;
    var ls := Labels(t, [nan, nan]);
    assert RunLength(ls) == 1 && RunLength(ls[1..]) == 1;
    assert Expand([nan], [2]) == Repeat(nan, 2) + [];
  }

  method NextRun(t: Type, input: seq<Value>, i: nat) returns (j: nat)
    requires i < |input|
    ensures j == i + RunLength(Labels(t, input)[i..]) <= |input|
  {
    hide Labels, Equal;
    ghost var ls := Labels(t, input);
    j := i + 1;
    while j < |input| && Equal(t, input[j], input[i])
      invariant i < j <= |input|
      invariant forall k :: i <= k < j ==> ls[k] == ls[i]
    {
      LabelsAreEquality(t, input, j, i);
      j := j + 1;
    }
    if j < |input| {
      LabelsAreEquality(t, input, j, i);
    }
    RunLengthIs(ls[i..], j - i);
  }

  // The runs found so far and those of the remaining suffix make up the runs of the whole.
  ghost predicate RunsSplit(ls: seq<Label>, input: seq<Value>, i: nat, values: seq<Value>, counts: seq<nat>) {
    && i <= |input| == |ls| && |values| == |counts|
    && RunHeads(ls, input) == values + RunHeads(ls[i..], input[i..])
    && RunCounts(ls) == counts + RunCounts(ls[i..])
  }

  lemma RunsSplitStart(ls: seq<Label>, input: seq<Value>)
    requires |ls| == |input|
    ensures RunsSplit(ls, input, 0, [], [])
  {
    assert ls[0..] == ls && input[0..] == input;
  }

  lemma RunsSplitNext(ls: seq<Label>, input: seq<Value>, i: nat, j: nat, n: nat, values: seq<Value>,
      counts: seq<nat>)
    requires i < |ls| && n == RunLength(ls[i..]) && j == i + n
    requires RunsSplit(ls, input, i, values, counts)
    ensures RunsSplit(ls, input, j, values + [input[i]], counts + [n])
  {
    hide RunHeads, RunCounts, RunLength;
    DropDrop(ls, i, n);
    DropDrop(input, i, n);
    FirstRun(ls[i..], n, ls[j..]);
    FirstHead(ls[i..], input[i..], n);
    MoveFirst(values, input[i], RunHeads(ls[j..], input[j..]));
    MoveFirst(counts, n, RunCounts(ls[j..]));
  }

  lemma RunsSplitAll(ls: seq<Label>, input: seq<Value>, values: seq<Value>, counts: seq<nat>)
    requires RunsSplit(ls, input, |input|, values, counts)
    ensures values == RunHeads(ls, input) && counts == RunCounts(ls)
  {
  }

  // The encoder's loop: one turn per run.
  method CollectRuns(t: Type, input: seq<Value>) returns (runValues: seq<Value>, runCounts: seq<nat>)
    ensures runValues == RunHeads(Labels(t, input), input) && runCounts == RunCounts(Labels(t, input))
  {
    hide Labels, RunHeads, RunCounts, RunLength;
    ghost var ls := Labels(t, input);
    runValues, runCounts := [], [];
    RunsSplitStart(ls, input);
    var i := 0;
    while i < |input|
      invariant RunsSplit(ls, input, i, runValues, runCounts)
    {
      var j := NextRun(t, input, i);
      var count: nat := j - i;
      RunsSplitNext(ls, input, i, j, count, runValues, runCounts);
      runValues := runValues + [input[i]];
      runCounts := runCounts + [count];
      i := j;
    }
    RunsSplitAll(ls, input, runValues, runCounts);
  }

  method EncodeRle(t: Type, input: seq<Value>, useBitpack: bool) returns (output: Bytes)
    requires InMemory(t, input)
    ensures output == RleBytes(t, input, useBitpack)
  {
    hide Labels, RunHeads, RunCounts, ValuesBytes, ToBytes, HasType;
    CountsFit(t, input);
    var runValues, runCounts := CollectRuns(t, input);
    output := ToBytes(|runValues|, SIZE_BYTES);
    output := WriteValues(t, output, runValues);
    var maxCount := MaxValue(runCounts);
    var bits := BitsRequired(maxCount);
    output := WriteWords(output, runCounts, useBitpack && |runValues| > 0, bits, SIZE_BYTES);
  }

  lemma ExpandStep<T>(values: seq<T>, counts: seq<nat>, i: nat)
    requires i < |values| == |counts|
    ensures Expand(values[i..], counts[i..])
         == Repeat(values[i], counts[i]) + Expand(values[i + 1..], counts[i + 1..])
  {
    DropDrop(values, i, 1);
    DropDrop(counts, i, 1);
  }

  method ExpandAll(runValues: seq<Value>, runCounts: seq<nat>) returns (output: seq<Value>)
    requires |runValues| == |runCounts|
    ensures output == Expand(runValues, runCounts)
  {
    output := [];
    for i := 0 to |runValues|
      invariant output + Expand(runValues[i..], runCounts[i..]) == Expand(runValues, runCounts)
    {
      ghost var before := output;
      for j := 0 to runCounts[i]
        invariant output == before + Repeat(runValues[i], j)
      {
        output := output + [runValues[i]];
      }
      ExpandStep(runValues, runCounts, i);
      ConcatAssociates(before, Repeat(runValues[i], runCounts[i]), Expand(runValues[i + 1..], runCounts[i + 1..]));
    }
  }

  method DecodeRle(t: Type, input: Bytes, offset: nat, useBitpack: bool)
    returns (output: seq<Value>, offset': nat)
    requires offset <= |input| && ParseRle(t, input[offset..], useBitpack).Some?
    ensures ParseRle(t, input[offset..], useBitpack).value.value == output
    ensures offset' == offset + ParseRle(t, input[offset..], useBitpack).value.used
    ensures offset' <= |input|
  {
    hide ParseValues, ParseWords, Expand, FromBytes, HasType;
    DropDrop(input, offset, SIZE_BYTES);
    var runCount := FromBytes(input[offset..offset + SIZE_BYTES]);
    var runValues, at := ReadValues(t, input, offset + SIZE_BYTES, runCount);
    DropDrop(input, offset, at - offset);
    var runCounts;
    runCounts, offset' := ReadWords(input, at, runCount, useBitpack && runCount > 0, SIZE_BYTES);
    output := ExpandAll(runValues, runCounts);
  }

  lemma RleSizes(t: Type, v: seq<Value>)
    requires InMemory(t, v) && |v| > 0
    ensures var values, counts := RunHeads(Labels(t, v), v), RunCounts(Labels(t, v));
      && AllTyped(t, values) && AllBelow(counts, SIZE_LIMIT)
      && |RleBytes(t, v, false)| == SIZE_BYTES + |ValuesBytes(t, values)| + |counts| * SIZE_BYTES
      && |RleBytes(t, v, true)|
         == SIZE_BYTES + |ValuesBytes(t, values)| + 1 + (|counts| * WidthByte(counts) + 7) / 8
  {
    CountsFit(t, v);
    RunsAreMaximal(Labels(t, v));
    var counts := RunCounts(Labels(t, v));
    hide Labels, RunHeads, RunCounts;
    WordsBytesSize(counts, false, WidthByte(counts), SIZE_BYTES);
    WordsBytesSize(counts, true, WidthByte(counts), SIZE_BYTES);
  }

  // The estimator's counters describe the runs seen so far.
  ghost predicate Tallied(t: Type, values: seq<Value>, counts: seq<nat>, runCount: nat, maxCount: nat, bytes: nat) {
    runCount == |counts| && maxCount == MaxOf(counts) && AllTyped(t, values) && bytes == |ValuesBytes(t, values)|
  }

  lemma TalliedNext(t: Type, values: seq<Value>, counts: seq<nat>, runCount: nat, maxCount: nat, bytes: nat,
      v: Value, count: nat)
    requires Tallied(t, values, counts, runCount, maxCount, bytes) && HasType(t, v)
    ensures Tallied(t, values + [v], counts + [count], runCount + 1,
                    if count > maxCount then count else maxCount, bytes + ElementValueSize(t, v))
  {
    ValuesBytesSnoc(t, values, v);
    MaxOfSnoc(counts, count);
  }

  // The estimator's loop: one turn per run.
  method TallyRuns(t: Type, input: seq<Value>) returns (runCount: nat, maxCount: nat, bytes: nat)
    requires AllTyped(t, input)
    ensures Tallied(t, RunHeads(Labels(t, input), input), RunCounts(Labels(t, input)), runCount, maxCount, bytes)
  {
    hide Tallied, HasType, RunHeads, RunCounts, Labels;
    ghost var ls := Labels(t, input);
    runCount, maxCount, bytes := 0, 0, 0;
    ghost var values: seq<Value>, counts: seq<nat> := [], [];
    NothingTallied(t);
    RunsSplitStart(ls, input);
    var i := 0;
    while i < |input|
      invariant RunsSplit(ls, input, i, values, counts)
      invariant Tallied(t, values, counts, runCount, maxCount, bytes)
    {
      var j := NextRun(t, input, i);
      var count: nat := j - i;
      RunsSplitNext(ls, input, i, j, count, values, counts);
      TalliedNext(t, values, counts, runCount, maxCount, bytes, input[i], count);
      runCount := runCount + 1;
      bytes := bytes + ElementValueSize(t, input[i]);
      if count > maxCount {
        maxCount := count;
      }
      values, counts := values + [input[i]], counts + [count];
      i := j;
    }
    RunsSplitAll(ls, input, values, counts);
  }

  lemma NothingTallied(t: Type)
    ensures Tallied(t, [], [], 0, 0, 0)
  {
  }

  // The estimates are the exact lengths of the two encodings.
  method EstimateRle(t: Type, input: seq<Value>) returns (withoutBp: nat, withBp: nat)
    requires InMemory(t, input)
    ensures withoutBp == |RleBytes(t, input, false)|
    ensures withBp == |RleBytes(t, input, true)|
  {
    hide Labels;
    CountsFit(t, input);
    if |input| == 0 {
      return SIZE_BYTES, SIZE_BYTES;
    }
    var runCount, maxCount, runValuesBytes := TallyRuns(t, input);
    RleSizes(t, input);
    var bits := BitsRequired(maxCount);
    withoutBp := SIZE_BYTES + runValuesBytes + runCount * SIZE_BYTES;
    withBp := SIZE_BYTES + runValuesBytes + 1 + (runCount * bits + 7) / 8;
  }
}
