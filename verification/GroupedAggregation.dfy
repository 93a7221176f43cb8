/** The batch one group is aggregated from, and the answers of fresh aggregates for it. */
module GroupedAggregation {
  import opened Words
  import opened Values
  import opened Tables
  import opened Aggregation
  import opened Accumulators
  import opened Global
  import opened GroupBy

  // ---------------------------------------------------------------- sub-tables

  // The schema of the batch a group is aggregated from: the named columns aggregates need, in any order.
  ghost predicate IsSubSchema(sub: Schema, schema: Schema, kinds: seq<Aggregate>)
    requires schema.Valid()
  {
    && sub.Valid()
    && (forall j :: 0 <= j < |sub.names| ==>
          && sub.names[j] != [] && ColumnIndex(schema.names, sub.names[j]) < |schema.names|
          && sub.types[j] == schema.types[ColumnIndex(schema.names, sub.names[j])])
    && forall i :: 0 <= i < |kinds| && NeededColumn(kinds[i]) != [] ==> NeededColumn(kinds[i]) in sub.names
  }

  // What an update on a group's batch does: a column without a name is never put into it.
  function GroupVerdict(a: Aggregate, schema: Schema): Outcome
    requires schema.Valid()
  {
    if !a.CountRows? && a.column == [] then ColumnNotFound else Verdict(a, schema)
  }

  function GroupFault(kinds: seq<Aggregate>, schema: Schema): Outcome
    requires schema.Valid()
  {
    FirstFault(GroupVerdicts(kinds, schema))
  }

  function GroupVerdicts(kinds: seq<Aggregate>, schema: Schema): (outcomes: seq<Outcome>)
    requires schema.Valid()
    ensures |outcomes| == |kinds|
  {
    seq(|kinds|, i requires 0 <= i < |kinds| => GroupVerdict(kinds[i], schema))
  }

  lemma {:induction false} FoundIn(names: seq<Bytes>, name: Bytes)
    ensures name in names <==> ColumnIndex(names, name) < |names|
  {
    if |names| > 0 && names[0] != name {
      FoundIn(names[1..], name);
      assert names == [names[0]] + names[1..];
    }
  }

  lemma SubVerdict(a: Aggregate, sub: Schema, schema: Schema, kinds: seq<Aggregate>)
    requires schema.Valid() && IsSubSchema(sub, schema, kinds) && a in kinds
    ensures Verdict(a, sub) == GroupVerdict(a, schema)
    ensures GroupVerdict(a, schema).Done? ==> TypeFor(a, sub) == TypeFor(a, schema)
  {
    if !a.CountRows? {
      FoundIn(sub.names, a.column);
      var i :| 0 <= i < |kinds| && kinds[i] == a;
      assert NeededColumn(kinds[i]) == a.column;
    }
  }

  lemma SubFault(sub: Schema, schema: Schema, kinds: seq<Aggregate>)
    requires schema.Valid() && IsSubSchema(sub, schema, kinds)
    ensures Fault(kinds, sub) == GroupFault(kinds, schema)
  {
    hide FirstFault, Verdict, GroupVerdict;
    forall i | 0 <= i < |kinds|
      ensures Verdict(kinds[i], sub) == GroupVerdict(kinds[i], schema)
    {
      SubVerdict(kinds[i], sub, schema, kinds);
    }
    assert Verdicts(kinds, sub) == GroupVerdicts(kinds, schema);
  }

  // The batch of one group holds the needed columns of the group's rows.
  ghost predicate IsSubBatch(b: Batch, sub: Schema, table: Batch, rows: seq<nat>, kinds: seq<Aggregate>)
    requires WellFormed(table) && forall j :: 0 <= j < |rows| ==> rows[j] < table.rows
  {
    && WellFormed(b) && b.schema == sub && b.rows == |rows| && IsSubSchema(sub, table.schema, kinds)
    && forall j :: 0 <= j < |sub.names| ==>
         b.columns[j] == Pick(table.columns[ColumnIndex(table.schema.names, sub.names[j])], rows)
  }

  // The batch's values are values of the table.
  lemma SubInput(a: Aggregate, b: Batch, sub: Schema, table: Batch, rows: seq<nat>, kinds: seq<Aggregate>)
    requires WellFormed(table) && forall j :: 0 <= j < |rows| ==> rows[j] < table.rows
    requires IsSubBatch(b, sub, table, rows, kinds) && a in kinds && GroupVerdict(a, table.schema).Done?
    ensures Verdict(a, b.schema).Done? && Input(a, b) == Input(a, Picked(table, rows))
  {
    hide ConvertedAll;
    SubVerdict(a, sub, table.schema, kinds);
  }

  // Aggregating a group's batch is aggregating the group's rows of the table.
  lemma SubAnswer(a: Aggregate, b: Batch, sub: Schema, table: Batch, rows: seq<nat>, kinds: seq<Aggregate>)
    requires WellFormed(table) && forall j :: 0 <= j < |rows| ==> rows[j] < table.rows
    requires IsSubBatch(b, sub, table, rows, kinds) && a in kinds && GroupVerdict(a, table.schema).Done?
    ensures Verdict(a, b.schema).Done? && AnswerOf(a, b) == AnswerOf(a, Picked(table, rows))
  {
    hide Answer, Input;
    SubVerdict(a, sub, table.schema, kinds);
    SubInput(a, b, sub, table, rows, kinds);
  }

  // The batch's arithmetic is that of the group's rows.
  lemma SubInScope(a: Aggregate, b: Batch, sub: Schema, table: Batch, rows: seq<nat>, kinds: seq<Aggregate>)
    requires WellFormed(table) && forall j :: 0 <= j < |rows| ==> rows[j] < table.rows
    requires IsSubBatch(b, sub, table, rows, kinds) && a in kinds && InScope(a, [], Picked(table, rows))
    ensures InScope(a, [], b)
  {
    hide Input, Addable;
    SubVerdict(a, sub, table.schema, kinds);
    if GroupVerdict(a, table.schema).Done? {
      SubInput(a, b, sub, table, rows, kinds);
    }
  }

  method ListColumns(kinds: seq<Aggregate>) returns (names: seq<Bytes>)
    ensures forall n :: n in names <==> n != [] && exists i :: 0 <= i < |kinds| && NeededColumn(kinds[i]) == n
  {
    var needed: set<Bytes> := {};
    for i := 0 to |kinds|
      invariant forall n :: n in needed <==> n != [] && exists j :: 0 <= j < i && NeededColumn(kinds[j]) == n
    {
      if NeededColumn(kinds[i]) != [] {
        needed := needed + {NeededColumn(kinds[i])};
      }
    }
    names := [];
    ghost var all := needed;
    while needed != {}
      invariant forall n :: n in all <==> n in needed || n in names
      decreases |needed|
    {
      var name :| name in needed;
      names := names + [name];
      needed := needed - {name};
    }
  }

  method FindPlaces(schema: Schema, names: seq<Bytes>) returns (places: seq<nat>)
    requires HasColumns(schema, names)
    ensures places == Places(schema, names)
  {
    places := [];
    for i := 0 to |names|
      invariant |places| == i && forall j :: 0 <= j < i ==> places[j] == ColumnIndex(schema.names, names[j])
    {
      var index := FindColumn(schema, names[i]);
      places := places + [index];
    }
  }

  method SubBatch(table: Batch, sub: Schema, places: seq<nat>, rows: seq<nat>, ghost kinds: seq<Aggregate>)
    returns (b: Batch)
    requires WellFormed(table) && forall j :: 0 <= j < |rows| ==> rows[j] < table.rows
    requires IsSubSchema(sub, table.schema, kinds)
    requires HasColumns(table.schema, sub.names) && places == Places(table.schema, sub.names)
    ensures IsSubBatch(b, sub, table, rows, kinds)
  {
    var columns := [];
    for j := 0 to |places|
      invariant |columns| == j
      invariant forall k :: 0 <= k < j ==> columns[k] == Pick(table.columns[places[k]], rows)
    {
      var column := CopyRowsTyped(table.columns[places[j]], rows);
      columns := columns + [column];
    }
    b := Batch(|rows|, sub, columns);
  }

  // ------------------------------------------------------------------ one group

  // The aggregation factory.
  method MakeAggregations(kinds: seq<Aggregate>) returns (aggregations: seq<AggregationFunction>)
    ensures |aggregations| == |kinds| && Separate(aggregations) && Kinds(aggregations) == kinds
    ensures forall i :: 0 <= i < |kinds| ==>
      var a := aggregations[i];
      fresh(a) && a.kind == kinds[i] && a.Valid() && a.seen == [] && a.rows == 0 && a.function_ == None
  {
    hide AggregationFunction.Valid;
    aggregations := [];
    for i := 0 to |kinds|
      invariant |aggregations| == i && Separate(aggregations)
      invariant forall j :: 0 <= j < i ==>
        var a := aggregations[j];
        fresh(a) && a.kind == kinds[j] && a.Valid() && a.seen == [] && a.rows == 0 && a.function_ == None
    {
      var a := new AggregationFunction(kinds[i]);
      aggregations := aggregations + [a];
    }
  }

  // Every aggregate's result for a batch, appended to that aggregate's buffer.
  method AggregateGroup(kinds: seq<Aggregate>, b: Batch, bufs: seq<Bytes>) returns (r: Outcome, bufs': seq<Bytes>)
    requires WellFormed(b) && b.rows < ROW_LIMIT && |bufs| == |kinds|
    requires forall i :: 0 <= i < |kinds| ==> InScope(kinds[i], [], b)
    ensures r == Fault(kinds, b.schema)
    ensures r.Done? ==> |bufs'| == |kinds| && forall i :: 0 <= i < |kinds| ==>
      && Verdict(kinds[i], b.schema).Done?
      && HasType(AnswerType(kinds[i], b.schema), AnswerOf(kinds[i], b))
      && bufs'[i] == bufs[i] + ElementBytes(AnswerType(kinds[i], b.schema), AnswerOf(kinds[i], b))
  {
    hide AggregationFunction.Valid, Verdict, Input, Answer, ResultType, Fault, TypeFor, ElementBytes, HasType;
    bufs' := bufs;
    var aggregations := MakeAggregations(kinds);
    r := UpdateAll(aggregations, b);
    if !r.Done? {
      return;
    }
    forall i | 0 <= i < |kinds|
      ensures aggregations[i].Valid() && Verdict(kinds[i], b.schema).Done?
      ensures aggregations[i].Result() == AnswerOf(kinds[i], b)
      ensures aggregations[i].GetType() == AnswerType(kinds[i], b.schema)
    {
      assert aggregations[i].seen == [] + Input(kinds[i], b) == Input(kinds[i], b);
    }
    for i := 0 to |kinds|
      modifies {}
      invariant |bufs'| == |kinds|
      invariant forall j :: i <= j < |kinds| ==> bufs'[j] == bufs[j]
      invariant forall j :: 0 <= j < i ==>
        && HasType(AnswerType(kinds[j], b.schema), AnswerOf(kinds[j], b))
        && bufs'[j] == bufs[j] + ElementBytes(AnswerType(kinds[j], b.schema), AnswerOf(kinds[j], b))
    {
      var buf := aggregations[i].AppendResultBytes(bufs'[i]);
      bufs' := bufs'[i := buf];
    }
  }

  // The groups' updates throw what the first aggregate that throws does: one over a column without a name finds none.
  lemma GroupFaultIs(kinds: seq<Aggregate>, schema: Schema, i: nat)
    requires schema.Valid() && i <= |kinds|
    requires forall j :: 0 <= j < i ==> GroupVerdict(kinds[j], schema).Done?
    requires i < |kinds| ==> !GroupVerdict(kinds[i], schema).Done?
    ensures GroupFault(kinds, schema) == if i < |kinds| then GroupVerdict(kinds[i], schema) else Done
    ensures forall j :: 0 <= j < |kinds| ==>
      GroupVerdict(kinds[j], schema) == if !kinds[j].CountRows? && kinds[j].column == [] then ColumnNotFound
                                        else Verdict(kinds[j], schema)
  {
    hide Verdict;
    FirstFaultIs(GroupVerdicts(kinds, schema), i);
  }
}
