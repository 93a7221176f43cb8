/** The aggregation functions: what each answers for the values it was fed, in however many batches. */
module Aggregation {
  import opened Words
  import opened Values
  import opened Floats
  import opened Tables
  import opened Order
  import D = Distinct

  datatype Aggregate =
    | CountRows
    | CountDistinct(column: Bytes)
    | Sum(column: Bytes)
    | SumWithOffset(column: Bytes, offset: int)
    | Avg(column: Bytes)
    | Min(column: Bytes)
    | Max(column: Bytes)

  // The exceptions an update throws.
  datatype Outcome = Done | ColumnNotFound | UnsupportedType

  const INT64_MIN: int := -0x8000_0000_0000_0000
  const INT64_LIMIT: int := 0x8000_0000_0000_0000
  const INT128_LIMIT: int := 0x8000_0000_0000_0000_0000_0000_0000_0000
  // Row counts are int64_t.
  const ROW_LIMIT: nat := 0x8000_0000_0000_0000

  // ------------------------------------------------------------------- sums

  predicate FitsInt64(n: int) {
    INT64_MIN <= n < INT64_LIMIT
  }

  predicate FitsInt128(n: int) {
    -INT128_LIMIT <= n < INT128_LIMIT
  }

  predicate Numbers(vs: seq<Value>) {
    forall i :: 0 <= i < |vs| ==> vs[i].Word? && FitsInt64(vs[i].n)
  }

  // The sum of (value + offset) over the values.
  function OffsetSum(vs: seq<Value>, offset: int): int {
    if |vs| == 0 then 0
    else
      var v := vs[|vs| - 1];
      OffsetSum(vs[..|vs| - 1], offset) + (if v.Word? then v.n else 0) + offset
  }

  function SumOf(vs: seq<Value>): int {
    OffsetSum(vs, 0)
  }

  lemma {:induction false} OffsetSumConcat(a: seq<Value>, b: seq<Value>, offset: int)
    ensures OffsetSum(a + b, offset) == OffsetSum(a, offset) + OffsetSum(b, offset)
  {
    if |b| == 0 {
      assert a + b == a;
    } else {
      assert (a + b)[..|a + b| - 1] == a + b[..|b| - 1];
      OffsetSumConcat(a, b[..|b| - 1], offset);
    }
  }

  // Summing the offset values is summing the values and adding the offset once per value.
  lemma {:induction false} OffsetSumIsLinear(vs: seq<Value>, offset: int)
    ensures OffsetSum(vs, offset) == SumOf(vs) + offset * |vs|
  {
    if |vs| > 0 {
      OffsetSumIsLinear(vs[..|vs| - 1], offset);
      NextMultiple(|vs| - 1, offset);
    }
  }

  lemma {:induction false} OffsetSumBound(vs: seq<Value>, offset: int)
    requires Numbers(vs) && FitsInt64(offset)
    ensures 2 * INT64_MIN * |vs| <= OffsetSum(vs, offset) <= 2 * INT64_LIMIT * |vs|
    ensures offset == 0 ==> INT64_MIN * |vs| <= OffsetSum(vs, offset) <= (INT64_LIMIT - 1) * |vs|
  {
    if |vs| > 0 {
      OffsetSumBound(vs[..|vs| - 1], offset);
    }
  }

  // Fewer than 2^63 values cannot overflow the 128-bit accumulator.
  lemma NeverOverflows(vs: seq<Value>, offset: int)
    requires Numbers(vs) && FitsInt64(offset) && |vs| < ROW_LIMIT
    ensures FitsInt128(OffsetSum(vs, offset)) && IsSigned(OffsetSum(vs, offset), 16)
  {
    Pow2Of127();
    OffsetSumBound(vs, offset);
  }

  // Summing the values runs in __int128: every element converts, and no partial sum overflows.
  predicate Summable(vs: seq<Value>) {
    forall i :: 0 <= i < |vs| ==> SummableAt(vs, i)
  }

  predicate SummableAt(vs: seq<Value>, i: nat)
    requires i < |vs|
  {
    vs[i].Word? && FitsInt128(vs[i].n) && FitsInt128(SumOf(vs[..i + 1]))
  }

  // An update adds the values' offset sum to that of what was seen, without overflow.
  predicate Addable(seen: seq<Value>, vs: seq<Value>, offset: int) {
    Summable(vs) && FitsInt128(OffsetSum(vs, offset)) && FitsInt128(OffsetSum(seen + vs, offset))
  }

  // Fewer than 2^63 numbers of 64 bits can be added in any portions.
  lemma NumbersAddable(seen: seq<Value>, vs: seq<Value>, offset: int)
    requires Numbers(seen) && Numbers(vs) && FitsInt64(offset) && |seen| + |vs| < ROW_LIMIT
    ensures Addable(seen, vs, offset)
  {
    hide OffsetSum;
    forall i | 0 <= i < |vs|
      ensures SummableAt(vs, i)
    {
      NeverOverflows(vs[..i + 1], 0);
    }
    NeverOverflows(vs, offset);
    NeverOverflows(seen + vs, offset);
  }

  // static_cast<int64_t> of a 128-bit number: its low 64 bits.
  function ToInt64(n: int): (r: int)
    ensures FitsInt64(r)
    ensures r == n <==> FitsInt64(n)
  {
    var low := n % SIZE_LIMIT;
    if low < INT64_LIMIT then low else low - SIZE_LIMIT
  }

  lemma DivisionBounds(a: nat, n: nat)
    requires n > 0
    ensures n * (a / n) <= a < n * (a / n) + n
  {
  }

  lemma FactorBound(n: nat, q: int, c: int, a: int)
    requires n > 0 && n * q <= a <= c * n
    ensures q <= c
  {
    if q > c {
      TimesMonotonic(c + 1, q, n);
      NextMultiple(c, n);
    }
  }

  // The average of 64-bit numbers lies between the least and the greatest int64, so its cast loses nothing.
  lemma AverageFits(vs: seq<Value>)
    requires Numbers(vs) && |vs| > 0
    ensures FitsInt64(Quotient(SumOf(vs), |vs|))
  {
    var n, sum := |vs|, SumOf(vs);
    OffsetSumBound(vs, 0);
    if sum >= 0 {
      DivisionBounds(sum, n);
      FactorBound(n, sum / n, INT64_LIMIT - 1, sum);
    } else {
      DivisionBounds(-sum, n);
      FactorBound(n, (-sum) / n, INT64_LIMIT, -sum);
    }
  }

  // The average is the sum divided toward zero.
  lemma QuotientRoundsTowardZero(a: int, n: nat)
    requires n > 0
    ensures a >= 0 ==> n * Quotient(a, n) <= a < n * Quotient(a, n) + n
    ensures a <= 0 ==> n * Quotient(a, n) - n < a <= n * Quotient(a, n)
  {
    if a >= 0 {
      DivisionBounds(a, n);
    } else {
      DivisionBounds(-a, n);
      assert n * -((-a) / n) == -(n * ((-a) / n));
    }
  }

  // ------------------------------------------------------------ distinct values

  function ElementSet<T(==)>(s: seq<T>): set<T> {
    set x | x in s
  }

  lemma SetOfSnoc<T>(front: seq<T>, last: T)
    ensures ElementSet(front + [last]) == ElementSet(front) + {last}
    ensures |ElementSet(front + [last])| == if last in front then |ElementSet(front)| else |ElementSet(front)| + 1
  {
    assert ElementSet(front + [last]) == ElementSet(front) + {last};
  }

  lemma CountSnoc<T>(front: seq<T>, last: T)
    requires |ElementSet(front)| == |D.Distinct(front)|
    ensures |ElementSet(front + [last])| == |D.Distinct(front + [last])|
  {
    hide ElementSet, D.Distinct;
    SetOfSnoc(front, last);
    D.DistinctSnoc(front, last);
  }

  lemma {:induction false} DistinctCount<T>(s: seq<T>)
    ensures |ElementSet(s)| == |D.Distinct(s)|
  {
    if |s| == 0 {
      assert ElementSet(s) == {};
    } else {
      var front, last := s[..|s| - 1], s[|s| - 1];
      DistinctCount(front);
      CountSnoc(front, last);
      assert s == front + [last];
    }
  }

  // How many elements a set has after inserting the values.
  function DistinctNumber(t: Type, vs: seq<Value>): nat {
    |D.Distinct(Labels(t, vs))|
  }

  function NaNCount(t: Type, vs: seq<Value>): (n: nat)
    ensures n <= |vs|
  {
    if |vs| == 0 then 0
    else NaNCount(t, vs[..|vs| - 1]) + if IsNaN(t, vs[|vs| - 1]) then 1 else 0
  }

  // The values other than NaN, as comparisons see them.
  function RankedNumbers(t: Type, vs: seq<Value>): seq<Value> {
    if |vs| == 0 then []
    else
      var front, last := RankedNumbers(t, vs[..|vs| - 1]), vs[|vs| - 1];
      if IsNaN(t, last) then front else front + [Ranked(t, last)]
  }

  // The number of distinct values, and one for every NaN.
  lemma DistinctNumberIs(t: Type, vs: seq<Value>)
    ensures DistinctNumber(t, vs) == |D.Distinct(RankedNumbers(t, vs))| + NaNCount(t, vs) <= |vs|
    ensures !IsFloat(t) ==> RankedNumbers(t, vs) == vs && NaNCount(t, vs) == 0
  {
    hide D.Distinct, Labels;
    D.DistinctFacts(Labels(t, vs));
    LabelsCounted(t, vs);
    if !IsFloat(t) {
      NoNaNWords(t, vs);
    }
  }

  lemma {:induction false} NoNaNWords(t: Type, vs: seq<Value>)
    requires !IsFloat(t)
    ensures RankedNumbers(t, vs) == vs && NaNCount(t, vs) == 0
  {
    if |vs| > 0 {
      NoNaNWords(t, vs[..|vs| - 1]);
    }
  }

  lemma {:induction false} LabelsCounted(t: Type, vs: seq<Value>)
    ensures DistinctNumber(t, vs) == |D.Distinct(RankedNumbers(t, vs))| + NaNCount(t, vs)
    ensures forall x :: Found(x) in Labels(t, vs) <==> x in RankedNumbers(t, vs)
  {
    hide D.Distinct, IsNaN, Ranked;
    if |vs| == 0 {
      NothingDistinct(t, vs);
    } else {
      var front, last := vs[..|vs| - 1], vs[|vs| - 1];
      LabelsCounted(t, front);
      LabelsSnoc(t, front, last);
      assert vs == front + [last];
      D.DistinctSnoc(Labels(t, front), LabelAt(t, last, |front|));
      D.DistinctSnoc(RankedNumbers(t, front), Ranked(t, last));
    }
  }

  lemma NothingDistinct(t: Type, vs: seq<Value>)
    requires vs == []
    ensures D.Distinct(Labels(t, vs)) == [] && D.Distinct(RankedNumbers(t, vs)) == []
  {
  }

  // ------------------------------------------------------------------ extremes

  // Strictly smaller, or strictly greater when looking for the greatest.
  predicate Better(t: Type, a: Value, b: Value, greatest: bool) {
    if greatest then CompareElements(t, a, b) > 0 else CompareElements(t, a, b) < 0
  }

  function Extreme(t: Type, vs: seq<Value>, greatest: bool): Option<Value> {
    if |vs| == 0 then None
    else
      var best := Extreme(t, vs[..|vs| - 1], greatest);
      if best.None? || Better(t, vs[|vs| - 1], best.value, greatest) then Some(vs[|vs| - 1]) else best
  }

  lemma ExtremeSnoc(t: Type, front: seq<Value>, last: Value, greatest: bool)
    ensures var best := Extreme(t, front, greatest);
      Extreme(t, front + [last], greatest)
      == if best.None? || Better(t, last, best.value, greatest) then Some(last) else best
  {
    assert (front + [last])[..|front|] == front;
  }

  // One of the values, and none is better.
  lemma {:induction false} ExtremeIsBest(t: Type, vs: seq<Value>, greatest: bool)
    ensures Extreme(t, vs, greatest).None? <==> vs == []
    ensures vs != [] ==> Extreme(t, vs, greatest).value in vs
    ensures forall i :: 0 <= i < |vs| ==> !Better(t, vs[i], Extreme(t, vs, greatest).value, greatest)
  {
    hide Better;
    if |vs| > 0 {
      var front, last := vs[..|vs| - 1], vs[|vs| - 1];
      ExtremeIsBest(t, front, greatest);
      BetterIsOrder(t, last, last, last, greatest);
      if |front| > 0 {
        var best := Extreme(t, front, greatest).value;
        forall i | 0 <= i < |front|
          ensures !Better(t, vs[i], Extreme(t, vs, greatest).value, greatest)
        {
          assert vs[i] == front[i];
          BetterIsOrder(t, front[i], last, best, greatest);
        }
      }
    }
  }

  lemma BetterIsOrder(t: Type, a: Value, b: Value, c: Value, greatest: bool)
    ensures !Better(t, a, a, greatest)
    ensures Better(t, a, b, greatest) && Better(t, b, c, greatest) ==> Better(t, a, c, greatest)
  {
    hide Ranked, IsNaN, CompareValues;
    var x, y, z := Ranked(t, a), Ranked(t, b), Ranked(t, c);
    ValuesOrdered(x, y, z);
    ValuesOrdered(z, y, x);
    ValuesOrdered(x, z, z);
    ValuesOrdered(y, z, z);
    ValuesOrdered(x, x, z);
  }

  // The first of the best: all numbers before it are worse.
  lemma {:induction false} ExtremeIsFirst(t: Type, vs: seq<Value>, greatest: bool) returns (i: nat)
    requires |vs| > 0
    ensures i < |vs| && Extreme(t, vs, greatest) == Some(vs[i])
    ensures forall j :: 0 <= j < i ==> IsNaN(t, vs[j]) || Better(t, vs[i], vs[j], greatest)
  {
    hide IsNaN, Better;
    var n := |vs| - 1;
    i := 0;
    if n > 0 {
      i := ExtremeIsFirst(t, vs[..n], greatest);
      if Better(t, vs[n], vs[i], greatest) {
        ExtremeIsBest(t, vs[..n], greatest);
        forall j | 0 <= j < n
          ensures IsNaN(t, vs[j]) || Better(t, vs[n], vs[j], greatest)
        {
          assert vs[..n][j] == vs[j];
          if !IsNaN(t, vs[j]) {
            BetterThanNoBetter(t, vs[n], vs[i], vs[j], greatest);
          }
        }
        i := n;
      }
    }
  }

  lemma BetterThanNoBetter(t: Type, a: Value, b: Value, c: Value, greatest: bool)
    requires Better(t, a, b, greatest) && !Better(t, c, b, greatest) && !IsNaN(t, c)
    ensures Better(t, a, c, greatest)
  {
    hide Ranked, IsNaN, CompareValues;
    var x, y, z := Ranked(t, a), Ranked(t, b), Ranked(t, c);
    ValuesOrdered(x, y, z);
    ValuesOrdered(z, y, x);
    ValuesOrdered(y, z, z);
    ValuesOrdered(x, z, z);
  }

  // A NaN in first place stays; any other is passed over.
  lemma {:induction false} ExtremeIsNaN(t: Type, vs: seq<Value>, greatest: bool)
    requires |vs| > 0
    ensures IsNaN(t, Extreme(t, vs, greatest).value) <==> IsNaN(t, vs[0])
  {
    hide IsNaN, Ranked;
    if |vs| > 1 {
      ExtremeIsNaN(t, vs[..|vs| - 1], greatest);
    }
  }

  // ------------------------------------------------------------------- answers

  predicate IsSum(a: Aggregate) {
    a.Sum? || a.SumWithOffset? || a.Avg?
  }

  // Minimum, maximum and distinct count build a function of the column's type when first updated.
  predicate IsTyped(a: Aggregate) {
    a.CountDistinct? || a.Min? || a.Max?
  }

  function NeededColumn(a: Aggregate): Bytes {
    if a.CountRows? then [] else a.column
  }

  function PlaceIn(a: Aggregate, schema: Schema): (index: nat)
    ensures index <= |schema.names|
  {
    ColumnIndex(schema.names, NeededColumn(a))
  }

  // When an update on a batch of this schema does not throw.
  function Verdict(a: Aggregate, schema: Schema): Outcome
    requires schema.Valid()
  {
    if a.CountRows? then Done
    else if PlaceIn(a, schema) == |schema.names| then ColumnNotFound
    else if IsSum(a) && schema.types[PlaceIn(a, schema)].String? then UnsupportedType
    else Done
  }

  // The exception that ends a run of updates, if any.
  function FirstFault(outcomes: seq<Outcome>): Outcome {
    if |outcomes| == 0 then Done
    else if !outcomes[0].Done? then outcomes[0]
    else FirstFault(outcomes[1..])
  }

  lemma {:induction false} FirstFaultIs(outcomes: seq<Outcome>, i: nat)
    requires i <= |outcomes| && forall j :: 0 <= j < i ==> outcomes[j].Done?
    requires i < |outcomes| ==> !outcomes[i].Done?
    ensures FirstFault(outcomes) == if i < |outcomes| then outcomes[i] else Done
  {
    if i > 0 {
      FirstFaultIs(outcomes[1..], i - 1);
    }
  }

  lemma {:induction false} NoFault(outcomes: seq<Outcome>)
    requires FirstFault(outcomes).Done?
    ensures forall j :: 0 <= j < |outcomes| ==> outcomes[j].Done?
  {
    if |outcomes| > 0 {
      NoFault(outcomes[1..]);
    }
  }

  // Aggregates updated in order on batches of this schema.
  function Fault(kinds: seq<Aggregate>, schema: Schema): Outcome
    requires schema.Valid()
  {
    FirstFault(Verdicts(kinds, schema))
  }

  function Verdicts(kinds: seq<Aggregate>, schema: Schema): (outcomes: seq<Outcome>)
    requires schema.Valid()
    ensures |outcomes| == |kinds|
  {
    seq(|kinds|, i requires 0 <= i < |kinds| => Verdict(kinds[i], schema))
  }

  lemma FaultIs(kinds: seq<Aggregate>, schema: Schema, i: nat)
    requires schema.Valid() && i <= |kinds|
    requires forall j :: 0 <= j < i ==> Verdict(kinds[j], schema).Done?
    requires i < |kinds| ==> !Verdict(kinds[i], schema).Done?
    ensures Fault(kinds, schema) == if i < |kinds| then Verdict(kinds[i], schema) else Done
  {
    FirstFaultIs(Verdicts(kinds, schema), i);
  }

  // A value as the 128-bit accumulator takes it.
  function Converted(t: Type, v: Value): Value {
    if IsFloat(t) && HasType(t, v) then Word(IntegerPart(t, v.n)) else v
  }

  function ConvertedAll(t: Type, vs: seq<Value>): (r: seq<Value>)
    ensures |r| == |vs|
  {
    seq(|vs|, i requires 0 <= i < |vs| => Converted(t, vs[i]))
  }

  // The values an update feeds to the aggregate.
  function Input(a: Aggregate, batch: Batch): (vs: seq<Value>)
    requires WellFormed(batch) && Verdict(a, batch.schema).Done?
    ensures |vs| == if a.CountRows? then 0 else batch.rows
  {
    if a.CountRows? then []
    else
      var index := PlaceIn(a, batch.schema);
      if IsSum(a) then ConvertedAll(batch.schema.types[index], batch.columns[index]) else batch.columns[index]
  }

  // What is added to every summed value.
  function OffsetOf(a: Aggregate): int {
    if a.SumWithOffset? then a.offset else 0
  }

  // An aggregate that has seen these values can take the batch: its arithmetic is defined.
  predicate InScope(a: Aggregate, seen: seq<Value>, batch: Batch)
    requires WellFormed(batch)
  {
    && FitsInt64(OffsetOf(a))
    && (IsSum(a) && Verdict(a, batch.schema).Done? ==> Addable(seen, Input(a, batch), OffsetOf(a)))
  }

  // The summed numbers have integer parts of 64 bits, as those of integer columns always do.
  predicate Modest(a: Aggregate, batch: Batch)
    requires WellFormed(batch)
  {
    FitsInt64(OffsetOf(a)) && (IsSum(a) && Verdict(a, batch.schema).Done? ==> Numbers(Input(a, batch)))
  }

  lemma ModestInScope(a: Aggregate, seen: seq<Value>, batch: Batch)
    requires WellFormed(batch) && Modest(a, batch)
    requires IsSum(a) ==> Numbers(seen) && |seen| + batch.rows < ROW_LIMIT
    ensures InScope(a, seen, batch)
  {
    if IsSum(a) && Verdict(a, batch.schema).Done? {
      NumbersAddable(seen, Input(a, batch), OffsetOf(a));
    }
  }

  // The type of the typed function an update builds.
  function TypeFor(a: Aggregate, schema: Schema): Option<Type>
    requires schema.Valid() && Verdict(a, schema).Done?
  {
    if IsTyped(a) then Some(schema.types[PlaceIn(a, schema)]) else None
  }

  // The type of the result column, given the typed function if there is one.
  function ResultType(a: Aggregate, function_: Option<Type>): Type {
    if a.Min? || a.Max? then (if function_.None? then String else function_.value) else Int64
  }

  // The type its typed function compares elements as.
  function ElementType(function_: Option<Type>): Type {
    if function_.None? then String else function_.value
  }

  // What SQL says of the values and the number of rows.
  function Answer(a: Aggregate, function_: Option<Type>, vs: seq<Value>, rows: nat): Value {
    match a
    case CountRows => Word(rows)
    case CountDistinct(_) => Word(DistinctNumber(ElementType(function_), vs))
    case Sum(_) => Word(ToInt64(SumOf(vs)))
    case SumWithOffset(_, offset) => Word(ToInt64(OffsetSum(vs, offset)))
    case Avg(_) => Word(if |vs| == 0 then 0 else ToInt64(Quotient(SumOf(vs), |vs|)))
    case Min(_) => ExtremeOrDefault(ElementType(function_), vs, false)
    case Max(_) => ExtremeOrDefault(ElementType(function_), vs, true)
  }

  function ExtremeOrDefault(t: Type, vs: seq<Value>, greatest: bool): Value {
    if Extreme(t, vs, greatest).Some? then Extreme(t, vs, greatest).value else DefaultValue(t)
  }

  // Minimum and maximum answer one of the values, and no value compares less, or greater; the answer is a number
  // unless the first value is NaN.
  lemma AnswersAreExtremes(column: Bytes, t: Type, vs: seq<Value>, rows: nat, i: nat)
    requires i < |vs|
    ensures var least := Answer(Min(column), Some(t), vs, rows);
            least in vs && CompareElements(t, vs[i], least) >= 0
    ensures var greatest := Answer(Max(column), Some(t), vs, rows);
            greatest in vs && CompareElements(t, vs[i], greatest) <= 0
    ensures IsNaN(t, Answer(Min(column), Some(t), vs, rows)) <==> IsNaN(t, vs[0])
    ensures IsNaN(t, Answer(Max(column), Some(t), vs, rows)) <==> IsNaN(t, vs[0])
  {
    hide CompareElements, IsNaN;
    ExtremeIsNaN(t, vs, false);
    ExtremeIsNaN(t, vs, true);
    ExtremeIsBest(t, vs, false);
    ExtremeIsBest(t, vs, true);
  }

  lemma Int64Range(n: int)
    ensures HasType(Int64, Word(n)) <==> FitsInt64(n)
  {
    Pow2Literals();
  }

  // Every integer column is modest.
  lemma NumbersOf(t: Type, vs: seq<Value>)
    requires AllTyped(t, vs) && !t.String? && !t.Int128? && !IsFloat(t)
    ensures ConvertedAll(t, vs) == vs && Numbers(vs)
  {
    Pow2Literals();
    Pow2Monotonic(8 * Width(t) - 1, 63);
  }

  lemma IntegersAreModest(a: Aggregate, batch: Batch)
    requires WellFormed(batch) && FitsInt64(OffsetOf(a))
    requires IsSum(a) && PlaceIn(a, batch.schema) < |batch.schema.names| ==>
      !IsFloat(batch.schema.types[PlaceIn(a, batch.schema)])
    ensures Modest(a, batch)
  {
    if IsSum(a) && Verdict(a, batch.schema).Done? {
      NumbersOf(batch.schema.types[PlaceIn(a, batch.schema)], batch.columns[PlaceIn(a, batch.schema)]);
    }
  }

  // Picking rows converts no new values.
  lemma InputPicked(a: Aggregate, table: Batch, rows: seq<nat>)
    requires WellFormed(table) && (forall j :: 0 <= j < |rows| ==> rows[j] < table.rows)
    requires Verdict(a, table.schema).Done? && !a.CountRows?
    ensures Input(a, Picked(table, rows)) == Pick(Input(a, table), rows)
  {
    hide Converted;
  }

  lemma PickedModest(a: Aggregate, table: Batch, rows: seq<nat>)
    requires WellFormed(table) && (forall j :: 0 <= j < |rows| ==> rows[j] < table.rows) && Modest(a, table)
    ensures Modest(a, Picked(table, rows))
  {
    hide Input;
    if IsSum(a) && Verdict(a, table.schema).Done? {
      InputPicked(a, table, rows);
      var vs := Input(a, table);
      forall j | 0 <= j < |rows|
        ensures Pick(vs, rows)[j].Word? && FitsInt64(Pick(vs, rows)[j].n)
      {
        assert Pick(vs, rows)[j] == vs[rows[j]];
      }
    }
  }

  // -------------------------------------------------------------- result names

  function Ascii(s: string): (bs: Bytes)
    ensures |bs| == |s| && forall i :: 0 <= i < |s| ==> s[i] as int < 256 ==> bs[i] == s[i] as int
  {
    seq(|s|, i requires 0 <= i < |s| => s[i] as int % 256)
  }

  // std::to_string.
  function Decimal(n: int): Bytes
    decreases if n < 0 then 1 else 0, if n < 0 then -n else n
  {
    if n < 0 then Ascii("-") + Decimal(-n)
    else if n < 10 then [48 + n]
    else Decimal(n / 10) + [48 + n % 10]
  }

  // The number decimal digits stand for.
  function DigitsValue(bs: Bytes): int {
    if |bs| == 0 then 0 else 10 * DigitsValue(bs[..|bs| - 1]) + bs[|bs| - 1] as int - 48
  }

  lemma NoDigits()
    ensures DigitsValue([]) == 0
  {
  }

  lemma DigitsSnoc(front: Bytes, digit: Byte)
    ensures DigitsValue(front + [digit]) == 10 * DigitsValue(front) + digit as int - 48
  {
    assert (front + [digit])[..|front|] == front;
  }

  // Digits that stand for the number, without leading zeros, behind a minus sign if it is negative.
  lemma {:induction false} DecimalIs(n: int)
    ensures n >= 0 ==>
      && (forall i :: 0 <= i < |Decimal(n)| ==> 48 <= Decimal(n)[i] <= 57)
      && DigitsValue(Decimal(n)) == n && |Decimal(n)| > 0 && (Decimal(n)[0] == 48 ==> n == 0)
    ensures n < 0 ==> Decimal(n) == [45] + Decimal(-n)
    decreases if n < 0 then 1 else 0, if n < 0 then -n else n
  {
    hide DigitsValue;
    if n < 0 {
      DecimalIs(-n);
    } else if n < 10 {
      NoDigits();
      DigitsSnoc([], 48 + n);
      assert [] + [48 + n] == Decimal(n);
    } else {
      DecimalIs(n / 10);
      DigitsSnoc(Decimal(n / 10), 48 + n % 10);
    }
  }

  function NameOf(a: Aggregate): Bytes {
    match a
    case CountRows => Ascii("count(*)")
    case CountDistinct(column) => Ascii("count(distinct ") + column + Ascii(")")
    case Sum(column) => Ascii("sum(") + column + Ascii(")")
    case SumWithOffset(column, offset) => Ascii("sum(") + column + Ascii("+") + Decimal(offset) + Ascii(")")
    case Avg(column) => Ascii("avg(") + column + Ascii(")")
    case Min(column) => Ascii("min(") + column + Ascii(")")
    case Max(column) => Ascii("max(") + column + Ascii(")")
  }
}
