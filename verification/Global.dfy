/** Aggregation of a whole stream into one row. */
module Global {
  import opened Words
  import opened Values
  import opened Tables
  import opened Source
  import opened Aggregation
  import opened Accumulators

  // The null pointer, a batch, an exception, or a read past the end of a buffer, which C++ leaves undefined.
  datatype Reply = Null | Delivered(batch: Batch) | Thrown(error: Outcome) | OutOfBounds

  method MakeColumnFromBytes(buf: Bytes, t: Type, rowsNumber: nat) returns (column: seq<Value>)
    requires ParseValues(t, buf, rowsNumber).Some?
    ensures column == ParseValues(t, buf, rowsNumber).value.value
  {
    var offset;
    assert buf[0..] == buf;
    column, offset := ReadValues(t, buf, 0, rowsNumber);
  }

  // The values fed to an aggregate by all batches of a stream.
  function Fed(a: Aggregate, batches: seq<Batch>, schema: Schema): seq<Value>
    requires schema.Valid() && SameSchema(batches, schema) && Verdict(a, schema).Done?
  {
    if a.CountRows? then []
    else
      var column := ConcatColumn(batches, schema, PlaceIn(a, schema));
      if IsSum(a) then ConvertedAll(schema.types[PlaceIn(a, schema)], column) else column
  }

  lemma FedNext(a: Aggregate, batches: seq<Batch>, schema: Schema, n: nat)
    requires schema.Valid() && SameSchema(batches, schema) && Verdict(a, schema).Done? && n < |batches|
    ensures Fed(a, batches[..n + 1], schema) == Fed(a, batches[..n], schema) + Input(a, batches[n])
    ensures n == 0 ==> Fed(a, batches[..n], schema) == []
  {
    hide Converted;
    assert batches[..n + 1][..n] == batches[..n];
    if !a.CountRows? {
      var place := PlaceIn(a, schema);
      ConvertedConcat(schema.types[place], ConcatColumn(batches[..n], schema, place), batches[n].columns[place]);
    }
  }

  lemma ConvertedConcat(t: Type, a: seq<Value>, b: seq<Value>)
    ensures ConvertedAll(t, a + b) == ConvertedAll(t, a) + ConvertedAll(t, b)
  {
    hide Converted;
  }

  // Feeding the batches one by one is feeding their concatenation.
  lemma FedIsMerged(a: Aggregate, batches: seq<Batch>, schema: Schema)
    requires schema.Valid() && SameSchema(batches, schema) && Verdict(a, schema).Done?
    requires forall c :: 0 <= c < |schema.types| ==> !schema.types[c].Int128?
    ensures WellFormed(MergedBatch(batches, schema))
    ensures Fed(a, batches, schema) == Input(a, MergedBatch(batches, schema))
    ensures RowCount(batches) == |AllRows(batches)|
  {
    MergedRows(batches, schema);
  }

  // What an aggregate answers for a table.
  function AnswerOf(a: Aggregate, table: Batch): Value
    requires WellFormed(table) && Verdict(a, table.schema).Done?
  {
    Answer(a, TypeFor(a, table.schema), Input(a, table), table.rows)
  }

  function AnswerType(a: Aggregate, schema: Schema): Type
    requires schema.Valid() && Verdict(a, schema).Done?
  {
    ResultType(a, TypeFor(a, schema))
  }

  // One row: the answers for the table, named and typed.
  ghost predicate IsAnswerRow(r: Batch, kinds: seq<Aggregate>, table: Batch)
    requires WellFormed(table)
    requires forall i :: 0 <= i < |kinds| ==> Verdict(kinds[i], table.schema).Done?
  {
    && WellFormed(r) && r.rows == 1 && |r.columns| == |kinds|
    && forall i :: 0 <= i < |kinds| ==>
         && r.schema.names[i] == NameOf(kinds[i])
         && r.schema.types[i] == AnswerType(kinds[i], table.schema)
         && r.columns[i] == [AnswerOf(kinds[i], table)]
  }

  method ResultColumn(a: AggregationFunction) returns (column: seq<Value>)
    requires a.Valid()
    ensures column == [a.Result()] && HasType(a.GetType(), a.Result()) && !a.GetType().Int128?
  {
    hide AggregationFunction.Result, ElementBytes, ParseValues;
    a.ResultHasType();
    var buf := a.AppendResultBytes([]);
    OneValue(a.GetType(), a.Result(), buf);
    column := MakeColumnFromBytes(buf, a.GetType(), 1);
  }

  lemma OneValue(t: Type, v: Value, buf: Bytes)
    requires HasType(t, v) && buf == [] + ElementBytes(t, v)
    ensures ParseValues(t, buf, 1) == Some(Parsed([v], |buf|))
  {
    assert [v][1..] == [];
    assert ValuesBytes(t, [v]) == ElementBytes(t, v) + [];
    assert buf == ValuesBytes(t, [v]) + [];
    ParseValuesBytes(t, [v], []);
  }

  ghost predicate Fresh(a: AggregationFunction)
    reads a
  {
    a.Valid() && a.seen == [] && a.rows == 0 && a.function_ == None
  }

  // The aggregation stands where feeding it these batches leaves it.
  ghost predicate HasSeen(a: AggregationFunction, batches: seq<Batch>, schema: Schema)
    requires schema.Valid() && SameSchema(batches, schema)
    reads a
  {
    if batches == [] then Fresh(a)
    else
      && a.Valid() && Verdict(a.kind, schema).Done?
      && a.seen == Fed(a.kind, batches, schema) && a.rows == RowCount(batches)
      && a.function_ == TypeFor(a.kind, schema)
  }

  lemma FreshHasSeenNothing(a: AggregationFunction, batches: seq<Batch>, schema: Schema)
    requires schema.Valid() && batches == [] && Fresh(a)
    ensures HasSeen(a, batches, schema)
  {
  }

  lemma ValidSchema(all: seq<Batch>, schema: Schema)
    requires all != [] && SameSchema(all, schema)
    ensures schema.Valid() && forall c :: 0 <= c < |schema.types| ==> !schema.types[c].Int128?
  {
    assert WellFormed(all[0]);
  }

  lemma SeenAnswers(a: AggregationFunction, batches: seq<Batch>, schema: Schema)
    requires schema.Valid() && SameSchema(batches, schema) && HasSeen(a, batches, schema) && batches != []
    requires forall c :: 0 <= c < |schema.types| ==> !schema.types[c].Int128?
    ensures WellFormed(MergedBatch(batches, schema))
    ensures a.Result() == AnswerOf(a.kind, MergedBatch(batches, schema))
    ensures a.GetType() == AnswerType(a.kind, schema)
  {
    FedIsMerged(a.kind, batches, schema);
  }

  lemma {:induction false} RowsLeft(all: seq<Batch>, n: nat)
    requires n < |all|
    ensures RowCount(all[..n]) + all[n].rows == RowCount(all[..n + 1]) <= RowCount(all)
    decreases |all| - n
  {
    assert all[..n + 1][..n] == all[..n];
    if n + 1 < |all| {
      RowsLeft(all, n + 1);
    } else {
      assert all[..n + 1] == all;
    }
  }

  // Every update a stream causes has defined arithmetic.
  ghost predicate FeedInScope(a: Aggregate, batches: seq<Batch>, schema: Schema)
    requires schema.Valid() && SameSchema(batches, schema)
  {
    forall n :: 0 <= n < |batches| ==> InScope(a, SeenBefore(a, batches, schema, n), batches[n])
  }

  // What an aggregate has seen when batch n comes.
  function SeenBefore(a: Aggregate, batches: seq<Batch>, schema: Schema, n: nat): seq<Value>
    requires schema.Valid() && SameSchema(batches, schema) && n <= |batches|
  {
    if Verdict(a, schema).Done? then Fed(a, batches[..n], schema) else []
  }

  ghost predicate StreamInScope(kinds: seq<Aggregate>, batches: seq<Batch>, schema: Schema)
    requires schema.Valid() && SameSchema(batches, schema)
  {
    forall i :: 0 <= i < |kinds| ==> FeedInScope(kinds[i], batches, schema)
  }

  // Streams of fewer than 2^63 rows with 64-bit numbers in the summed columns are in scope, however they are split.
  lemma ModestStreamInScope(kinds: seq<Aggregate>, batches: seq<Batch>, schema: Schema)
    requires schema.Valid() && SameSchema(batches, schema) && RowCount(batches) < ROW_LIMIT
    requires forall i, n :: 0 <= i < |kinds| && 0 <= n < |batches| ==> Modest(kinds[i], batches[n])
    ensures StreamInScope(kinds, batches, schema)
  {
    hide InScope, Modest, Fed, RowCount;
    forall i | 0 <= i < |kinds|
      ensures FeedInScope(kinds[i], batches, schema)
    {
      forall n | 0 <= n < |batches|
        ensures InScope(kinds[i], SeenBefore(kinds[i], batches, schema, n), batches[n])
      {
        ModestFed(kinds[i], batches, schema, n);
        RowsLeft(batches, n);
        ModestInScope(kinds[i], SeenBefore(kinds[i], batches, schema, n), batches[n]);
      }
    }
  }

  lemma {:induction false} ModestFed(a: Aggregate, batches: seq<Batch>, schema: Schema, n: nat)
    requires schema.Valid() && SameSchema(batches, schema) && n <= |batches|
    requires forall i :: 0 <= i < |batches| ==> Modest(a, batches[i])
    ensures IsSum(a) ==> var seen := SeenBefore(a, batches, schema, n);
                         Numbers(seen) && |seen| <= RowCount(batches[..n])
  {
    hide Input, Fed, RowCount;
    if n == 0 {
      NothingFed(a, batches[..0], schema);
    } else if Verdict(a, schema).Done? {
      ModestFed(a, batches, schema, n - 1);
      FedNext(a, batches, schema, n - 1);
      assert Modest(a, batches[n - 1]);
      RowsLeft(batches, n - 1);
    }
  }

  lemma NothingFed(a: Aggregate, none: seq<Batch>, schema: Schema)
    requires schema.Valid() && none == []
    ensures Verdict(a, schema).Done? ==> Fed(a, none, schema) == []
  {
  }

  lemma ReadyForNext(a: AggregationFunction, all: seq<Batch>, n: nat, schema: Schema)
    requires schema.Valid() && SameSchema(all, schema) && n < |all| && RowCount(all) < ROW_LIMIT
    requires FeedInScope(a.kind, all, schema) && HasSeen(a, all[..n], schema)
    ensures Ready(a, all[n])
  {
    hide Verdict, InScope, TypeFor, Fed;
    RowsLeft(all, n);
    if n == 0 {
      NothingFed(a.kind, all[..0], schema);
    }
  }

  lemma FrontsUniform(all: seq<Batch>, n: nat, schema: Schema)
    requires SameSchema(all, schema) && n < |all|
    ensures SameSchema(all[..n], schema) && SameSchema(all[..n + 1], schema)
  {
    hide WellFormed;
  }

  // One turn of the operator's loop.
  method Feed(aggregations: seq<AggregationFunction>, batch: Batch, ghost all: seq<Batch>, ghost n: nat,
      ghost schema: Schema, ghost before: seq<Batch>, ghost after: seq<Batch>)
    returns (r: Outcome)
    requires schema.Valid() && SameSchema(all, schema) && n < |all| && batch == all[n]
    requires SameSchema(before, schema) && SameSchema(after, schema) && before == all[..n] && after == all[..n + 1]
    requires Separate(aggregations) && RowCount(all) < ROW_LIMIT && StreamInScope(Kinds(aggregations), all, schema)
    requires forall i :: 0 <= i < |aggregations| ==> HasSeen(aggregations[i], before, schema)
    modifies aggregations
    ensures r == Fault(Kinds(aggregations), schema)
    ensures r.Done? ==> forall i :: 0 <= i < |aggregations| ==> HasSeen(aggregations[i], after, schema)
  {
    hide AggregationFunction.Valid, Ready, InScope, Verdict, Input, TypeFor, Fault, Fed;
    forall i | 0 <= i < |aggregations|
      ensures Ready(aggregations[i], batch)
    {
      ReadyForNext(aggregations[i], all, n, schema);
    }
    RowsLeft(all, n);
    r := UpdateAll(aggregations, batch);
    if r.Done? {
      forall i | 0 <= i < |aggregations|
        ensures HasSeen(aggregations[i], after, schema)
      {
        FedNext(aggregations[i].kind, all, schema, n);
      }
    }
  }

  class GlobalAggregationOperator {
    const next: BatchSource
    const aggregations: seq<AggregationFunction>
    var done: bool

    constructor (next: BatchSource, aggregations: seq<AggregationFunction>)
      ensures this.next == next && this.aggregations == aggregations && !done
    {
      this.next := next;
      this.aggregations := aggregations;
      done := false;
    }

    // One row with every aggregate of all rows, however they were split into batches.
    method Next() returns (r: Reply)
      requires Uniform(next.pending) && RowCount(next.pending) < ROW_LIMIT && Separate(aggregations)
      requires !done && next.pending != [] ==> forall i :: 0 <= i < |aggregations| ==>
        Fresh(aggregations[i])
      requires next.pending != [] ==>
        var schema := next.pending[0].schema;
        schema.Valid() && SameSchema(next.pending, schema) && StreamInScope(Kinds(aggregations), next.pending, schema)
      modifies this, next, aggregations
      ensures done && (old(done) ==> r == Null)
      ensures old(next.pending) == [] ==> r == Null
      ensures !old(done) && old(next.pending) != [] ==>
        var all := old(next.pending);
        var schema := all[0].schema;
        var fault := Fault(Kinds(aggregations), schema);
        && SameSchema(all, schema)
        && (!fault.Done? ==> r == Thrown(fault))
        && (fault.Done? ==>
              && next.pending == [] && r.Delivered?
              && WellFormed(MergedBatch(all, schema))
              && (forall i :: 0 <= i < |aggregations| ==> Verdict(Kinds(aggregations)[i], schema).Done?)
              && IsAnswerRow(r.batch, Kinds(aggregations), MergedBatch(all, schema)))
    {
      hide HasSeen, Verdict, StreamInScope, IsAnswerRow, MergedBatch, WellFormed;
      if done {
        return Null;
      }
      done := true;
      ghost var all := next.pending;
      var first := next.Next();
      if first.None? {
        return Null;
      }
      ValidSchema(all, all[0].schema);
      forall i | 0 <= i < |aggregations|
        ensures HasSeen(aggregations[i], all[..0], all[0].schema)
      {
        FreshHasSeenNothing(aggregations[i], all[..0], all[0].schema);
      }
      r := Run(first.value, all, all[0].schema);
    }

    method Run(first: Batch, ghost all: seq<Batch>, ghost schema: Schema) returns (r: Reply)
      requires all == [first] + next.pending && schema.Valid() && SameSchema(all, schema) && Separate(aggregations)
      requires forall i :: 0 <= i < |aggregations| ==> HasSeen(aggregations[i], all[..0], schema)
      requires RowCount(all) < ROW_LIMIT && StreamInScope(Kinds(aggregations), all, schema)
      modifies next, aggregations
      ensures var fault := Fault(Kinds(aggregations), schema);
        && (!fault.Done? ==> r == Thrown(fault))
        && (fault.Done? ==>
              && next.pending == [] && r.Delivered?
              && WellFormed(MergedBatch(all, schema))
              && (forall i :: 0 <= i < |aggregations| ==> Verdict(Kinds(aggregations)[i], schema).Done?)
              && IsAnswerRow(r.batch, Kinds(aggregations), MergedBatch(all, schema)))
    {
      hide HasSeen, Verdict, StreamInScope, IsAnswerRow, MergedBatch, WellFormed;
      var batch := Some(first);
      ghost var n := 0;
      while batch.Some?
        invariant n <= |all| && all[n..] == (if batch.Some? then [batch.value] else []) + next.pending
        invariant batch.None? ==> next.pending == [] && n > 0
        invariant forall i :: 0 <= i < |aggregations| ==> HasSeen(aggregations[i], all[..n], schema)
        decreases |next.pending|, batch.Some?
      {
        NextBatch(all, n, batch.value, next.pending);
        FrontsUniform(all, n, schema);
        var outcome := Feed(aggregations, batch.value, all, n, schema, all[..n], all[..n + 1]);
        if !outcome.Done? {
          return Thrown(outcome);
        }
        n := n + 1;
        batch := next.Next();
      }
      assert all[..n] == all;
      r := Answers(all, schema);
    }

    method Answers(ghost all: seq<Batch>, ghost schema: Schema) returns (r: Reply)
      requires all != [] && schema.Valid() && SameSchema(all, schema) && Separate(aggregations)
      requires forall i :: 0 <= i < |aggregations| ==> HasSeen(aggregations[i], all, schema)
      ensures Fault(Kinds(aggregations), schema).Done? && r.Delivered?
      ensures WellFormed(MergedBatch(all, schema))
      ensures forall i :: 0 <= i < |aggregations| ==> Verdict(Kinds(aggregations)[i], schema).Done?
      ensures IsAnswerRow(r.batch, Kinds(aggregations), MergedBatch(all, schema))
    {
      hide Verdict, InScope, Fault, AnswerOf, AnswerType, Fed, TypeFor, NameOf, WellFormed;
      ValidSchema(all, schema);
      FaultIs(Kinds(aggregations), schema, |aggregations|);
      MergedRows(all, schema);
      var row := ResultRow(aggregations);
      forall i | 0 <= i < |aggregations|
        ensures aggregations[i].Result() == AnswerOf(aggregations[i].kind, MergedBatch(all, schema))
        ensures aggregations[i].GetType() == AnswerType(aggregations[i].kind, schema)
      {
        SeenAnswers(aggregations[i], all, schema);
      }
      r := Delivered(row);
    }
  }

  method ResultRow(aggregations: seq<AggregationFunction>) returns (row: Batch)
    requires forall i :: 0 <= i < |aggregations| ==> aggregations[i].Valid()
    ensures WellFormed(row) && row.rows == 1 && |row.columns| == |aggregations|
    ensures forall i :: 0 <= i < |aggregations| ==>
      && row.schema.names[i] == NameOf(aggregations[i].kind) && row.schema.types[i] == aggregations[i].GetType()
      && row.columns[i] == [aggregations[i].Result()]
  {
    hide AggregationFunction.Valid, AggregationFunction.Result, AggregationFunction.GetType, HasType, NameOf;
    var types: seq<Type>, names: seq<Bytes>, columns: seq<seq<Value>> := [], [], [];
    for i := 0 to |aggregations|
      invariant |types| == |names| == |columns| == i
      invariant forall j :: 0 <= j < i ==>
        var a := aggregations[j];
        && names[j] == NameOf(a.kind) && types[j] == a.GetType() && columns[j] == [a.Result()]
        && HasType(types[j], columns[j][0]) && !types[j].Int128?
    {
      names := names + [NameOf(aggregations[i].kind)];
      types := types + [aggregations[i].GetType()];
      var column := ResultColumn(aggregations[i]);
      columns := columns + [column];
    }
    row := Batch(1, Schema(names, types), columns);
  }
}
