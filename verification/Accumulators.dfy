/** The stateful aggregation objects: fields updated batch by batch, answers as if fed all at once. */
module Accumulators {
  import opened Words
  import opened Values
  import opened Tables
  import opened Floats
  import opened Aggregation

  // None is the exception for strings.
  method ComputeColumnSum(column: seq<Value>, t: Type) returns (r: Option<int>)
    requires AllTyped(t, column) && !t.Int128? && |column| < ROW_LIMIT
    requires !t.String? ==> Summable(ConvertedAll(t, column))
    ensures r == if t.String? then None else Some(SumOf(ConvertedAll(t, column)))
    ensures r.Some? ==> FitsInt128(r.value)
  {
    hide Converted, OffsetSum;
    if t.String? {
      return None;
    }
    ghost var numbers := ConvertedAll(t, column);
    var sum := 0;
    NoSum(numbers[..0]);
    for i := 0 to |column|
      invariant sum == SumOf(numbers[..i]) && FitsInt128(sum)
    {
      assert SummableAt(numbers, i);
      NextSum(numbers, i);
      assert numbers[i] == Converted(t, column[i]);
      sum := sum + Converted(t, column[i]).n;
    }
    assert numbers[..|column|] == numbers;
    r := Some(sum);
  }

  lemma NoSum(none: seq<Value>)
    requires none == []
    ensures SumOf(none) == 0
  {
  }

  lemma NextSum(vs: seq<Value>, i: nat)
    requires i < |vs| && vs[i].Word?
    ensures SumOf(vs[..i + 1]) == SumOf(vs[..i]) + vs[i].n
  {
    assert vs[..i + 1][..i] == vs[..i];
  }

  class AggregationFunction {
    const kind: Aggregate
    var count: int
    var sum: int
    // The set of a distinct count, by what equality tells apart, and how many insertions it has seen.
    var values: set<Label>
    var inserted: nat
    var extreme: Option<Value>
    // The type of the typed function, once an update has built it.
    var function_: Option<Type>

    // Every value and the number of rows fed so far, however they were split into batches.
    ghost var seen: seq<Value>
    ghost var rows: nat

    ghost predicate Valid()
      reads this
    {
      && |seen| <= rows < ROW_LIMIT
      && SumsUp() && Collects()
    }

    ghost predicate SumsUp()
      reads this
    {
      && (IsSum(kind) ==> FitsInt128(sum))
      && (kind.CountRows? ==> count == rows)
      && (kind.Sum? || kind.Avg? ==> sum == SumOf(seen))
      && (kind.SumWithOffset? ==> sum == OffsetSum(seen, kind.offset))
      && (kind.Avg? ==> count == |seen|)
    }

    ghost predicate Collects()
      reads this
    {
      && (kind.CountDistinct? ==>
            values == ElementSet(Labels(ElementType(function_), seen)) && inserted == |seen|)
      && (kind.Min? || kind.Max? ==> extreme == Extreme(ElementType(function_), seen, kind.Max?))
      && (function_.Some? ==> IsTyped(kind) && AllTyped(function_.value, seen) && !function_.value.Int128?)
      && (function_.None? && IsTyped(kind) ==> seen == [])
    }

    constructor (kind: Aggregate)
      ensures Valid() && this.kind == kind && seen == [] && rows == 0 && function_ == None
    {
      this.kind := kind;
      count, sum, values, inserted, extreme, function_ := 0, 0, {}, 0, None, None;
      seen, rows := [], 0;
    }

    method AddToSum(column: seq<Value>, t: Type, ghost more: nat) returns (r: Outcome)
      requires Valid() && IsSum(kind) && rows + more < ROW_LIMIT && |column| <= more
      requires AllTyped(t, column) && !t.Int128?
      requires !t.String? ==> Addable(seen, ConvertedAll(t, column), OffsetOf(kind))
      modifies `sum, `count, `seen, `rows
      ensures Valid() && r == if t.String? then UnsupportedType else Done
      ensures r.Done? ==>
        seen == old(seen) + ConvertedAll(t, column) && rows == old(rows) + more && FitsInt128(sum)
      ensures !r.Done? ==> unchanged(this)
    {
      hide OffsetSum, Converted;
      var s := ComputeColumnSum(column, t);
      if s.None? {
        return UnsupportedType;
      }
      ghost var offset := OffsetOf(kind);
      ghost var numbers := ConvertedAll(t, column);
      OffsetSumConcat(seen, numbers, offset);
      OffsetSumIsLinear(numbers, offset);
      if kind.SumWithOffset? {
        sum := sum + (s.value + kind.offset * |column|);
      } else {
        sum := sum + s.value;
      }
      if kind.Avg? {
        count := count + |column|;
      }
      seen, rows := seen + numbers, rows + more;
      return Done;
    }

    method InsertValues(t: Type, column: seq<Value>)
      requires kind.CountDistinct? && values == ElementSet(Labels(t, seen)) && inserted == |seen|
      modifies `values, `inserted
      ensures values == ElementSet(Labels(t, seen + column)) && inserted == |seen + column|
    {
      hide Labels, LabelAt, ElementSet;
      assert seen + column[..0] == seen;
      for i := 0 to |column|
        invariant values == ElementSet(Labels(t, seen + column[..i])) && inserted == |seen| + i
      {
        assert seen + column[..i + 1] == (seen + column[..i]) + [column[i]];
        LabelsSnoc(t, seen + column[..i], column[i]);
        SetOfSnoc(Labels(t, seen + column[..i]), LabelAt(t, column[i], |seen| + i));
        values := values + {LabelAt(t, column[i], inserted)};
        inserted := inserted + 1;
      }
      assert column[..|column|] == column;
    }

    method Compete(t: Type, column: seq<Value>)
      requires (kind.Min? || kind.Max?) && extreme == Extreme(t, seen, kind.Max?)
      modifies `extreme
      ensures extreme == Extreme(t, seen + column, kind.Max?)
    {
      hide Better, Extreme;
      assert seen + column[..0] == seen;
      for i := 0 to |column|
        invariant extreme == Extreme(t, seen + column[..i], kind.Max?)
      {
        assert seen + column[..i + 1] == (seen + column[..i]) + [column[i]];
        ExtremeSnoc(t, seen + column[..i], column[i], kind.Max?);
        if extreme.None? || Better(t, column[i], extreme.value, kind.Max?) {
          extreme := Some(column[i]);
        }
      }
      assert column[..|column|] == column;
    }

    method Update(batch: Batch) returns (r: Outcome)
      requires Valid() && WellFormed(batch) && InScope(kind, seen, batch)
      requires function_.Some? && Verdict(kind, batch.schema).Done? ==> function_ == TypeFor(kind, batch.schema)
      requires rows + batch.rows < ROW_LIMIT
      modifies this
      ensures Valid() && r == Verdict(kind, batch.schema)
      ensures r.Done? ==> seen == old(seen) + Input(kind, batch) && rows == old(rows) + batch.rows
      ensures r.Done? ==> function_ == TypeFor(kind, batch.schema)
      ensures !r.Done? ==> unchanged(this)
    {
      if kind.CountRows? {
        count := count + batch.rows;
        rows := rows + batch.rows;
        return Done;
      }
      var index := FindColumn(batch.schema, kind.column);
      if index == |batch.schema.names| {
        return ColumnNotFound;
      }
      var t, column := batch.schema.types[index], batch.columns[index];
      if IsSum(kind) {
        r := AddToSum(column, t, batch.rows);
        return;
      }
      function_ := Some(t);
      if kind.CountDistinct? {
        InsertValues(t, column);
      } else {
        Compete(t, column);
      }
      seen, rows := seen + column, rows + batch.rows;
      return Done;
    }

    function GetType(): Type
      reads this
    {
      ResultType(kind, function_)
    }

    // The answer for everything seen so far.
    ghost function Result(): Value
      reads this
    {
      Answer(kind, function_, seen, rows)
    }

    lemma ResultHasType()
      requires Valid()
      ensures HasType(GetType(), Result()) && !GetType().Int128?
    {
      hide OffsetSum, Better;
      match kind {
        case CountRows => Int64Range(rows);
        case CountDistinct(_) =>
          DistinctNumberIs(ElementType(function_), seen);
          Int64Range(DistinctNumber(ElementType(function_), seen));
        case Sum(_) => Int64Range(ToInt64(SumOf(seen)));
        case SumWithOffset(_, offset) => Int64Range(ToInt64(OffsetSum(seen, offset)));
        case Avg(_) =>
          Int64Range(0);
          if seen != [] {
            Int64Range(ToInt64(Quotient(SumOf(seen), |seen|)));
          }
        case _ =>
          ExtremeIsBest(ElementType(function_), seen, kind.Max?);
      }
    }

    method IntegerResult() returns (value: int)
      requires Valid() && !kind.Min? && !kind.Max?
      ensures Result() == Word(value) && HasType(Int64, Word(value))
    {
      ResultHasType();
      match kind {
        case CountRows => value := count;
        case CountDistinct(_) =>
          DistinctCount(Labels(ElementType(function_), seen));
          value := |values|;
        case Sum(_) => value := ToInt64(sum);
        case SumWithOffset(_, _) => value := ToInt64(sum);
        case Avg(_) => value := if count > 0 then ToInt64(Quotient(sum, count)) else 0;
      }
    }

    method AppendResultBytes(buf: Bytes) returns (buf': Bytes)
      requires Valid()
      ensures HasType(GetType(), Result()) && buf' == buf + ElementBytes(GetType(), Result())
    {
      ResultHasType();
      if kind.Min? || kind.Max? {
        if function_.None? {
          assert ElementBytes(String, Text([])) == ToBytes(0, SIZE_BYTES);
          return buf + ToBytes(0, SIZE_BYTES);
        }
        var value := if extreme.Some? then extreme.value else DefaultValue(function_.value);
        return buf + ElementBytes(function_.value, value);
      }
      var value := IntegerResult();
      return buf + ElementBytes(Int64, Word(value));
    }
  }

  ghost predicate Separate(aggregations: seq<AggregationFunction>) {
    forall i, j :: 0 <= i < j < |aggregations| ==> aggregations[i] != aggregations[j]
  }

  function Kinds(aggregations: seq<AggregationFunction>): (kinds: seq<Aggregate>)
    ensures |kinds| == |aggregations|
    ensures forall i :: 0 <= i < |kinds| ==> kinds[i] == aggregations[i].kind
  {
    seq(|aggregations|, i requires 0 <= i < |aggregations| => aggregations[i].kind)
  }

  // What one aggregation needs of the next batch.
  ghost predicate Ready(a: AggregationFunction, batch: Batch)
    requires WellFormed(batch)
    reads a
  {
    && a.Valid() && InScope(a.kind, a.seen, batch) && a.rows + batch.rows < ROW_LIMIT
    && (a.function_.Some? && Verdict(a.kind, batch.schema).Done? ==> a.function_ == TypeFor(a.kind, batch.schema))
  }

  // Aggregations are updated in order until one throws.
  method UpdateAll(aggregations: seq<AggregationFunction>, batch: Batch) returns (r: Outcome)
    requires WellFormed(batch) && Separate(aggregations)
    requires forall i :: 0 <= i < |aggregations| ==> Ready(aggregations[i], batch)
    modifies aggregations
    ensures r == Fault(Kinds(aggregations), batch.schema)
    ensures r.Done? ==> forall i :: 0 <= i < |aggregations| ==>
      var a := aggregations[i];
      && Verdict(a.kind, batch.schema).Done?
      && a.Valid() && a.seen == old(a.seen) + Input(a.kind, batch) && a.rows == old(a.rows) + batch.rows
      && a.function_ == TypeFor(a.kind, batch.schema)
  {
    hide InScope, Verdict, Input, TypeFor;
    for i := 0 to |aggregations|
      invariant forall j :: 0 <= j < i ==>
        var a := aggregations[j];
        && Verdict(a.kind, batch.schema).Done?
        && a.Valid() && a.seen == old(a.seen) + Input(a.kind, batch) && a.rows == old(a.rows) + batch.rows
        && a.function_ == TypeFor(a.kind, batch.schema)
      invariant forall j :: i <= j < |aggregations| ==> unchanged(aggregations[j])
    {
      var outcome := aggregations[i].Update(batch);
      if !outcome.Done? {
        FaultIs(Kinds(aggregations), batch.schema, i);
        return outcome;
      }
    }
    FaultIs(Kinds(aggregations), batch.schema, |aggregations|);
    return Done;
  }
}
