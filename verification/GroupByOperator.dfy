/** The group-by operator: one row per group, and exactly when its answers can be read back. */
module GroupByOperator {
  import opened Words
  import opened Values
  import opened Tables
  import opened Source
  import opened Aggregation
  import opened Global
  import opened Grouping
  import opened GroupBy
  import opened GroupedAggregation
  import D = Distinct

  // ---------------------------------------------------------------- all groups

  predicate InTable(table: Batch, lists: seq<seq<nat>>) {
    forall g :: 0 <= g < |lists| ==> forall j :: 0 <= j < |lists[g]| ==> lists[g][j] < table.rows
  }

  // An aggregate's answers, group by group.
  function GroupAnswers(a: Aggregate, table: Batch, lists: seq<seq<nat>>): (answers: seq<Value>)
    requires WellFormed(table) && Verdict(a, table.schema).Done? && InTable(table, lists)
    ensures |answers| == |lists|
  {
    seq(|lists|, g requires 0 <= g < |lists| => AnswerOf(a, Picked(table, lists[g])))
  }

  // The buffers after these groups hold every aggregate's answers, image after image.
  ghost predicate Buffered(bufs: seq<Bytes>, kinds: seq<Aggregate>, table: Batch, lists: seq<seq<nat>>)
    requires WellFormed(table) && InTable(table, lists)
  {
    && |bufs| == |kinds|
    && if lists == [] then forall i :: 0 <= i < |kinds| ==> bufs[i] == []
       else forall i :: 0 <= i < |kinds| ==> BufferHolds(bufs[i], kinds[i], table, lists)
  }

  ghost predicate BufferHolds(buf: Bytes, a: Aggregate, table: Batch, lists: seq<seq<nat>>)
    requires WellFormed(table) && InTable(table, lists)
  {
    && Verdict(a, table.schema).Done? && AllTyped(AnswerType(a, table.schema), GroupAnswers(a, table, lists))
    && buf == ValuesBytes(AnswerType(a, table.schema), GroupAnswers(a, table, lists))
  }

  lemma BufferNext(before: Bytes, after: Bytes, a: Aggregate, table: Batch, lists: seq<seq<nat>>, n: nat)
    requires WellFormed(table) && InTable(table, lists) && n < |lists| && Verdict(a, table.schema).Done?
    requires if n == 0 then before == [] else BufferHolds(before, a, table, lists[..n])
    requires var t, v := AnswerType(a, table.schema), AnswerOf(a, Picked(table, lists[n]));
             HasType(t, v) && after == before + ElementBytes(t, v)
    ensures BufferHolds(after, a, table, lists[..n + 1])
  {
    hide AnswerOf, AnswerType, HasType, ElementBytes;
    var t, v, front := AnswerType(a, table.schema), AnswerOf(a, Picked(table, lists[n])),
                       GroupAnswers(a, table, lists[..n]);
    assert GroupAnswers(a, table, lists[..n + 1]) == front + [v];
    assert n == 0 ==> front == [];
    ValuesBytesSnoc(t, front, v);
  }

  lemma SubBatchFacts(b: Batch, sub: Schema, table: Batch, rows: seq<nat>, kinds: seq<Aggregate>)
    requires WellFormed(table) && forall j :: 0 <= j < |rows| ==> rows[j] < table.rows
    requires IsSubBatch(b, sub, table, rows, kinds)
    ensures WellFormed(b) && b.schema == sub && b.rows == |rows|
  {
  }

  lemma NoGroupFault(kinds: seq<Aggregate>, schema: Schema)
    requires schema.Valid() && GroupFault(kinds, schema).Done?
    ensures forall i :: 0 <= i < |kinds| ==> GroupVerdict(kinds[i], schema).Done?
  {
    NoFault(GroupVerdicts(kinds, schema));
    assert forall i :: 0 <= i < |kinds| ==> GroupVerdicts(kinds, schema)[i] == GroupVerdict(kinds[i], schema);
  }

  lemma GroupStep(kinds: seq<Aggregate>, i: nat, b: Batch, sub: Schema, table: Batch, lists: seq<seq<nat>>, g: nat,
      before: Bytes, after: Bytes)
    requires WellFormed(table) && InTable(table, lists) && g < |lists| && i < |kinds|
    requires IsSubBatch(b, sub, table, lists[g], kinds)
    requires Fault(kinds, b.schema).Done? && Fault(kinds, sub) == GroupFault(kinds, table.schema)
    requires if g == 0 then before == [] else BufferHolds(before, kinds[i], table, lists[..g])
    requires Verdict(kinds[i], b.schema).Done?
    requires HasType(AnswerType(kinds[i], b.schema), AnswerOf(kinds[i], b))
    requires after == before + ElementBytes(AnswerType(kinds[i], b.schema), AnswerOf(kinds[i], b))
    ensures BufferHolds(after, kinds[i], table, lists[..g + 1])
  {
    hide Answer, BufferHolds, ElementBytes, HasType, FirstFault;
    NoGroupFault(kinds, table.schema);
    SubVerdict(kinds[i], sub, table.schema, kinds);
    SubAnswer(kinds[i], b, sub, table, lists[g], kinds);
    BufferNext(before, after, kinds[i], table, lists, g);
  }

  // Aggregating the groups, each from nothing, has defined arithmetic.
  ghost predicate ListsInScope(kinds: seq<Aggregate>, table: Batch, lists: seq<seq<nat>>)
    requires WellFormed(table) && InTable(table, lists)
  {
    forall g :: 0 <= g < |lists| ==> ListInScope(kinds, table, lists[g])
  }

  ghost predicate ListInScope(kinds: seq<Aggregate>, table: Batch, rows: seq<nat>)
    requires WellFormed(table) && forall j :: 0 <= j < |rows| ==> rows[j] < table.rows
  {
    forall i :: 0 <= i < |kinds| ==> InScope(kinds[i], [], Picked(table, rows))
  }

  // One turn of the operator's loop over groups.
  method NextGroup(kinds: seq<Aggregate>, table: Batch, sub: Schema, places: seq<nat>, rows: seq<nat>,
      bufs: seq<Bytes>, ghost lists: seq<seq<nat>>, ghost g: nat)
    returns (r: Outcome, bufs': seq<Bytes>)
    requires WellFormed(table) && table.rows < ROW_LIMIT && InTable(table, lists)
    requires g < |lists| && ListInScope(kinds, table, lists[g])
    requires rows == lists[g] && |rows| <= table.rows && IsSubSchema(sub, table.schema, kinds)
    requires HasColumns(table.schema, sub.names) && places == Places(table.schema, sub.names)
    requires Buffered(bufs, kinds, table, lists[..g])
    ensures r == GroupFault(kinds, table.schema)
    ensures r.Done? ==> Buffered(bufs', kinds, table, lists[..g + 1])
  {
    hide BufferHolds, IsSubSchema, InScope, IsSubBatch, GroupFault, ElementBytes, HasType, AnswerOf, AnswerType;
    SubFault(sub, table.schema, kinds);
    var b := SubBatch(table, sub, places, rows, kinds);
    SubBatchFacts(b, sub, table, rows, kinds);
    forall i | 0 <= i < |kinds|
      ensures InScope(kinds[i], [], b)
    {
      SubInScope(kinds[i], b, sub, table, rows, kinds);
    }
    r, bufs' := AggregateGroup(kinds, b, bufs);
    if r.Done? {
      forall i | 0 <= i < |kinds|
        ensures BufferHolds(bufs'[i], kinds[i], table, lists[..g + 1])
      {
        GroupStep(kinds, i, b, sub, table, lists, g, bufs[i], bufs'[i]);
      }
    }
  }

  method AggregateGroups(kinds: seq<Aggregate>, table: Batch, sub: Schema, places: seq<nat>, lists: seq<seq<nat>>)
    returns (r: Outcome, bufs: seq<Bytes>)
    requires WellFormed(table) && table.rows < ROW_LIMIT && InTable(table, lists)
    requires ListsInScope(kinds, table, lists)
    requires forall g :: 0 <= g < |lists| ==> |lists[g]| <= table.rows
    requires IsSubSchema(sub, table.schema, kinds)
    requires HasColumns(table.schema, sub.names) && places == Places(table.schema, sub.names)
    requires |lists| > 0
    ensures r == GroupFault(kinds, table.schema)
    ensures r.Done? ==> Buffered(bufs, kinds, table, lists)
  {
    hide Buffered, IsSubSchema, ListInScope, GroupFault;
    bufs := seq(|kinds|, _ => []);
    NothingBuffered(bufs, kinds, table, lists[..0]);
    r := Done;
    for g := 0 to |lists|
      invariant Buffered(bufs, kinds, table, lists[..g]) && r.Done?
      invariant g > 0 ==> GroupFault(kinds, table.schema).Done?
    {
      r, bufs := NextGroup(kinds, table, sub, places, lists[g], bufs, lists, g);
      if !r.Done? {
        return;
      }
    }
    assert lists[..|lists|] == lists;
  }

  lemma NothingBuffered(bufs: seq<Bytes>, kinds: seq<Aggregate>, table: Batch, lists: seq<seq<nat>>)
    requires WellFormed(table) && lists == []
    requires |bufs| == |kinds| && forall i :: 0 <= i < |kinds| ==> bufs[i] == []
    ensures Buffered(bufs, kinds, table, lists)
  {
  }

  // ----------------------------------------------------- reading the answers back

  // The operator asks for result types before anything is updated.
  function EarlyType(a: Aggregate): Type {
    ResultType(a, None)
  }

  // The column decoded from an aggregate's buffer; None where the engine would read past the buffer.
  function ReadBack(a: Aggregate, table: Batch, lists: seq<seq<nat>>): Option<seq<Value>>
    requires WellFormed(table) && Verdict(a, table.schema).Done? && InTable(table, lists)
    requires AllTyped(AnswerType(a, table.schema), GroupAnswers(a, table, lists))
  {
    var buf := ValuesBytes(AnswerType(a, table.schema), GroupAnswers(a, table, lists));
    match ParseValues(EarlyType(a), buf, |lists|)
    case None => None
    case Some(column) => Some(column.value)
  }

  // A minimum or maximum of strings, or another aggregate.
  predicate Restorable(a: Aggregate, schema: Schema)
    requires schema.Valid() && Verdict(a, schema).Done?
  {
    a.Min? || a.Max? ==> schema.types[PlaceIn(a, schema)].String?
  }

  lemma {:induction false} ParsedStringsAreTexts(bs: Bytes, count: nat, r: Parsed<seq<Value>>)
    requires ParseValues(String, bs, count) == Some(r)
    ensures forall i :: 0 <= i < |r.value| ==> r.value[i].Text?
  {
  }

  // Decoding gives a buffer's answers back if and only if minimum and maximum are over strings.
  lemma ReadBackExactly(buf: Bytes, a: Aggregate, table: Batch, lists: seq<seq<nat>>)
    requires WellFormed(table) && InTable(table, lists) && lists != [] && BufferHolds(buf, a, table, lists)
    ensures ParseValues(EarlyType(a), buf, |lists|) == Some(Parsed(GroupAnswers(a, table, lists), |buf|))
       <==> Restorable(a, table.schema)
    ensures ReadBack(a, table, lists) == Some(GroupAnswers(a, table, lists)) <==> Restorable(a, table.schema)
  {
    hide AnswerOf, ParseValues, HasType;
    var t, answers := AnswerType(a, table.schema), GroupAnswers(a, table, lists);
    if Restorable(a, table.schema) {
      ParseValuesBytes(t, answers, []);
      assert buf + [] == buf;
    } else {
      WordOfFixed(t, answers);
      var read := ParseValues(String, buf, |lists|);
      if read.Some? {
        ParsedStringsAreTexts(buf, |lists|, read.value);
      }
    }
  }

  lemma WordOfFixed(t: Type, vs: seq<Value>)
    requires AllTyped(t, vs) && !t.String? && |vs| > 0
    ensures vs[0].Word?
  {
  }

  // For example, one group's extreme of an Int64 column runs past the end of its buffer unless it is 0.
  lemma IntegerExtremeIsMisread(n: int)
    requires HasType(Int64, Word(n))
    ensures var buf := ElementBytes(Int64, Word(n)); var read := ParseValues(EarlyType(Min([])), buf, 1);
            read == if n == 0 then Some(Parsed([Text([])], 8)) else None
  {
    hide FromBytes, ToBytes;
    var u := AsUnsigned(n, 8);
    var buf := ToBytes(u, 8);
    FromToBytes(u, 8);
    assert buf[..8] == buf;
    if n == 0 {
      assert buf[8..8] == [];
      assert ParseElement(String, buf) == Some(Parsed(Text([]), 8));
      assert [Text([])] + [] == [Text([])];
    }
  }

  // ------------------------------------------------------------- the result

  function GroupLists(table: Batch, places: seq<nat>): (lists: seq<seq<nat>>)
    requires Inside(table, places)
    ensures |lists| == |GroupsOf(table, places)| && InTable(table, lists)
  {
    var gs, groups := GroupValues(table, places), GroupsOf(table, places);
    seq(|groups|, g requires 0 <= g < |groups| => Matching(gs, groups[g]))
  }

  // One row per group: its values in the group columns.
  ghost predicate HasGroupColumns(r: Batch, table: Batch, names: seq<Bytes>, kinds: seq<Aggregate>)
    requires WellFormed(table) && HasColumns(table.schema, names)
  {
    var places := Places(table.schema, names);
    var groups := GroupsOf(table, places);
    && WellFormed(r) && r.rows == |groups| && |r.columns| == |names| + |kinds|
    && r.schema.names == names + seq(|kinds|, i requires 0 <= i < |kinds| => NameOf(kinds[i]))
    && (forall c, g :: 0 <= c < |names| && 0 <= g < |groups| ==> r.columns[c][g] == groups[g][c])
    && forall c :: 0 <= c < |names| ==> r.schema.types[c] == table.schema.types[places[c]]
  }

  // And every aggregate of the table filtered to that group.
  ghost predicate IsGroupTable(r: Batch, table: Batch, names: seq<Bytes>, kinds: seq<Aggregate>)
    requires WellFormed(table) && HasColumns(table.schema, names)
    requires forall i :: 0 <= i < |kinds| ==> Verdict(kinds[i], table.schema).Done?
  {
    var places := Places(table.schema, names);
    var gs, groups := GroupValues(table, places), GroupsOf(table, places);
    && HasGroupColumns(r, table, names, kinds)
    && (forall i :: 0 <= i < |kinds| ==> r.schema.types[|names| + i] == AnswerType(kinds[i], table.schema))
    && forall i, g :: 0 <= i < |kinds| && 0 <= g < |groups| ==>
         r.columns[|names| + i][g] == AnswerOf(kinds[i], Picked(table, Matching(gs, groups[g])))
  }

  // What decoding an aggregate's buffer after these groups returned.
  ghost predicate IsReadBack(column: Option<seq<Value>>, a: Aggregate, table: Batch, lists: seq<seq<nat>>)
    requires WellFormed(table) && InTable(table, lists)
  {
    && Verdict(a, table.schema).Done? && AllTyped(AnswerType(a, table.schema), GroupAnswers(a, table, lists))
    && column == ReadBack(a, table, lists)
  }

  // The group columns, and what was read back for each aggregate; out of bounds where something could not be.
  ghost predicate IsReply(r: Reply, table: Batch, names: seq<Bytes>, kinds: seq<Aggregate>)
    requires WellFormed(table) && HasColumns(table.schema, names)
  {
    var lists := GroupLists(table, Places(table.schema, names));
    match r
    case Null => false
    case Thrown(_) => false
    case OutOfBounds => exists i :: 0 <= i < |kinds| && IsReadBack(None, kinds[i], table, lists)
    case Delivered(b) =>
      HasGroupColumns(b, table, names, kinds) && HasReadColumns(b, |names|, table, lists, kinds)
  }

  ghost predicate HasReadColumns(r: Batch, from: nat, table: Batch, lists: seq<seq<nat>>, kinds: seq<Aggregate>)
    requires WellFormed(table) && InTable(table, lists)
  {
    && |r.columns| == |r.schema.types| == from + |kinds|
    && forall i :: 0 <= i < |kinds| ==>
         && r.schema.types[from + i] == EarlyType(kinds[i])
         && IsReadBack(Some(r.columns[from + i]), kinds[i], table, lists)
  }

  method GroupColumns(table: Batch, places: seq<nat>, first: seq<nat>, ghost lists: seq<seq<nat>>)
    returns (columns: seq<seq<Value>>)
    requires Inside(table, places) && Listed(GroupValues(table, places), first, lists)
    ensures AreGroupColumns(columns, table, places) && |first| == |GroupsOf(table, places)|
  {
    ghost var gs := GroupValues(table, places);
    FirstHasGroup(gs, first, lists);
    columns := [];
    for c := 0 to |places|
      invariant |columns| == c
      invariant forall d :: 0 <= d < c ==> columns[d] == Pick(table.columns[places[d]], first)
    {
      var column := CopyRowsTyped(table.columns[places[c]], first);
      columns := columns + [column];
    }
  }

  lemma FirstHasGroup(gs: seq<Row>, first: seq<nat>, lists: seq<seq<nat>>)
    requires Listed(gs, first, lists)
    ensures |first| == |lists| == |D.Distinct(gs)|
    ensures forall g :: 0 <= g < |first| ==> first[g] < |gs| && gs[first[g]] == D.Distinct(gs)[g]
    ensures forall g :: 0 <= g < |lists| ==>
      |lists[g]| <= |gs| && forall j :: 0 <= j < |lists[g]| ==> lists[g][j] < |gs|
  {
    forall g | 0 <= g < |lists|
      ensures first[g] < |gs| && gs[first[g]] == D.Distinct(gs)[g] && |lists[g]| <= |gs|
    {
      MatchingIs(gs, D.Distinct(gs)[g]);
      assert first[g] in lists[g];
    }
  }

  // None is the read past the end of the buffer.
  method AnswerColumn(a: Aggregate, buf: Bytes, rows: nat, ghost table: Batch, ghost lists: seq<seq<nat>>)
    returns (column: Option<seq<Value>>)
    requires WellFormed(table) && InTable(table, lists) && |lists| == rows
    requires BufferHolds(buf, a, table, lists)
    ensures column == ReadBack(a, table, lists)
    ensures column.Some? ==> |column.value| == rows && AllTyped(EarlyType(a), column.value)
  {
    if ParseValues(EarlyType(a), buf, rows).None? {
      return None;
    }
    var values := MakeColumnFromBytes(buf, EarlyType(a), rows);
    column := Some(values);
  }

  // The read-back columns of all aggregates, up to the first read past the end of a buffer.
  method AnswerColumns(kinds: seq<Aggregate>, bufs: seq<Bytes>, rows: nat, ghost table: Batch,
      ghost lists: seq<seq<nat>>)
    returns (columns: Option<seq<seq<Value>>>)
    requires WellFormed(table) && InTable(table, lists) && |lists| == rows > 0
    requires Buffered(bufs, kinds, table, lists)
    ensures columns.None? ==> exists i :: 0 <= i < |kinds| && IsReadBack(None, kinds[i], table, lists)
    ensures columns.Some? ==> AreReadColumns(columns.value, table, lists, kinds)
  {
    hide BufferHolds, IsReadBack, HasType, EarlyType, ParseValues, AnswerType, GroupAnswers, ReadBack;
    var sofar: seq<seq<Value>> := [];
    for i := 0 to |kinds|
      invariant |sofar| == i
      invariant forall j :: 0 <= j < i ==>
        && |sofar[j]| == |lists| && AllTyped(EarlyType(kinds[j]), sofar[j])
        && IsReadBack(Some(sofar[j]), kinds[j], table, lists)
    {
      HeldIsReadBack(bufs[i], kinds[i], table, lists);
      var column := AnswerColumn(kinds[i], bufs[i], rows, table, lists);
      if column.None? {
        assert IsReadBack(None, kinds[i], table, lists);
        return None;
      }
      sofar := sofar + [column.value];
    }
    columns := Some(sofar);
  }

  lemma HeldIsReadBack(buf: Bytes, a: Aggregate, table: Batch, lists: seq<seq<nat>>)
    requires WellFormed(table) && InTable(table, lists) && BufferHolds(buf, a, table, lists)
    ensures Verdict(a, table.schema).Done? && AllTyped(AnswerType(a, table.schema), GroupAnswers(a, table, lists))
    ensures IsReadBack(ReadBack(a, table, lists), a, table, lists)
  {
  }

  lemma RestoredColumn(a: Aggregate, table: Batch, lists: seq<seq<nat>>, column: Option<seq<Value>>)
    requires WellFormed(table) && InTable(table, lists) && lists != [] && IsReadBack(column, a, table, lists)
    ensures Restorable(a, table.schema) <==> column == Some(GroupAnswers(a, table, lists))
    ensures Restorable(a, table.schema) <==> EarlyType(a) == AnswerType(a, table.schema)
  {
    hide AnswerOf, ValuesBytes, ParseValues;
    ReadBackExactly(ValuesBytes(AnswerType(a, table.schema), GroupAnswers(a, table, lists)), a, table, lists);
  }

  // The reply is the table of every group's aggregates if and only if minimum and maximum are over strings.
  lemma ReplyIsGroupTableExactly(r: Reply, table: Batch, names: seq<Bytes>, kinds: seq<Aggregate>)
    requires WellFormed(table) && table.rows > 0 && HasColumns(table.schema, names) && IsReply(r, table, names, kinds)
    requires forall i :: 0 <= i < |kinds| ==> Verdict(kinds[i], table.schema).Done?
    ensures r.Delivered? && IsGroupTable(r.batch, table, names, kinds)
       <==> forall i :: 0 <= i < |kinds| ==> Restorable(kinds[i], table.schema)
  {
    hide IsReadBack, HasGroupColumns, AnswerOf, AnswerType, Restorable, Verdict;
    var lists := GroupLists(table, Places(table.schema, names));
    SomeGroup(table, Places(table.schema, names));
    if r.Delivered? {
      ColumnsCounted(r.batch, table, names, kinds);
      forall i | 0 <= i < |kinds|
        ensures Restorable(kinds[i], table.schema)
           <==> r.batch.columns[|names| + i] == GroupAnswers(kinds[i], table, lists)
        ensures Restorable(kinds[i], table.schema) <==> EarlyType(kinds[i]) == AnswerType(kinds[i], table.schema)
      {
        RestoredColumn(kinds[i], table, lists, Some(r.batch.columns[|names| + i]));
      }
    } else {
      var i :| 0 <= i < |kinds| && IsReadBack(None, kinds[i], table, lists);
      RestoredColumn(kinds[i], table, lists, None);
    }
  }

  lemma ColumnsCounted(r: Batch, table: Batch, names: seq<Bytes>, kinds: seq<Aggregate>)
    requires WellFormed(table) && HasColumns(table.schema, names) && HasGroupColumns(r, table, names, kinds)
    ensures |r.columns| == |r.schema.types| == |names| + |kinds|
  {
  }

  lemma SomeGroup(table: Batch, places: seq<nat>)
    requires Inside(table, places) && table.rows > 0
    ensures GroupLists(table, places) != []
  {
    D.DistinctFacts(GroupValues(table, places));
  }

  // ---------------------------------------------------------------- one table

  // The program looks needed columns up without checking that they exist.
  predicate HasNeededColumn(a: Aggregate, schema: Schema) {
    NeededColumn(a) != [] ==> ColumnIndex(schema.names, NeededColumn(a)) < |schema.names|
  }

  lemma NeededIsSubSchema(needed: seq<Bytes>, schema: Schema, kinds: seq<Aggregate>)
    requires schema.Valid() && forall i :: 0 <= i < |kinds| ==> HasNeededColumn(kinds[i], schema)
    requires forall n :: n in needed <==> n != [] && exists i :: 0 <= i < |kinds| && NeededColumn(kinds[i]) == n
    ensures HasColumns(schema, needed)
    ensures IsSubSchema(Schema(needed, PlaceTypes(schema, Places(schema, needed))), schema, kinds)
  {
    forall j | 0 <= j < |needed|
      ensures needed[j] != [] && ColumnIndex(schema.names, needed[j]) < |schema.names|
    {
      assert needed[j] in needed;
    }
  }

  lemma ListsAreGroupLists(table: Batch, places: seq<nat>, first: seq<nat>, lists: seq<seq<nat>>)
    requires Inside(table, places) && Listed(GroupValues(table, places), first, lists)
    ensures lists == GroupLists(table, places) && |first| == |lists|
    ensures table.rows > 0 <==> lists != []
  {
    D.DistinctFacts(GroupValues(table, places));
  }

  lemma VerdictsDone(kinds: seq<Aggregate>, schema: Schema)
    requires schema.Valid() && forall i :: 0 <= i < |kinds| ==> GroupVerdict(kinds[i], schema).Done?
    ensures forall i :: 0 <= i < |kinds| ==> Verdict(kinds[i], schema).Done?
  {
  }

  // What the group columns computed so far are.
  ghost predicate AreGroupColumns(columns: seq<seq<Value>>, table: Batch, places: seq<nat>)
    requires Inside(table, places)
  {
    var groups := GroupsOf(table, places);
    && |columns| == |places|
    && forall c :: 0 <= c < |places| ==>
         |columns[c]| == |groups| && AllTyped(table.schema.types[places[c]], columns[c])
         && forall g :: 0 <= g < |groups| ==> columns[c][g] == groups[g][c]
  }

  ghost predicate AreReadColumns(columns: seq<seq<Value>>, table: Batch, lists: seq<seq<nat>>, kinds: seq<Aggregate>)
    requires WellFormed(table) && InTable(table, lists)
  {
    && |columns| == |kinds|
    && forall i :: 0 <= i < |kinds| ==>
         && |columns[i]| == |lists| && AllTyped(EarlyType(kinds[i]), columns[i])
         && IsReadBack(Some(columns[i]), kinds[i], table, lists)
  }

  function ResultSchema(schema: Schema, names: seq<Bytes>, kinds: seq<Aggregate>): (r: Schema)
    requires schema.Valid() && HasColumns(schema, names)
    ensures r.Valid() && |r.names| == |names| + |kinds|
  {
    Schema(names + seq(|kinds|, i requires 0 <= i < |kinds| => NameOf(kinds[i])),
           PlaceTypes(schema, Places(schema, names)) + seq(|kinds|, i requires 0 <= i < |kinds| => EarlyType(kinds[i])))
  }

  lemma IsResult(r: Batch, table: Batch, names: seq<Bytes>, kinds: seq<Aggregate>,
      groupColumns: seq<seq<Value>>, readColumns: seq<seq<Value>>)
    requires WellFormed(table) && HasColumns(table.schema, names)
    requires AreGroupColumns(groupColumns, table, Places(table.schema, names))
    requires AreReadColumns(readColumns, table, GroupLists(table, Places(table.schema, names)), kinds)
    requires r == Batch(|GroupsOf(table, Places(table.schema, names))|, ResultSchema(table.schema, names, kinds),
                        groupColumns + readColumns)
    ensures IsReply(Delivered(r), table, names, kinds)
  {
    hide IsReadBack, GroupsOf, HasType, NameOf, Matching, HasGroupColumns, EarlyType, WellFormed;
    ResultWellFormed(r, table, names, kinds, groupColumns, readColumns);
    ResultGroups(r, table, names, kinds, groupColumns, readColumns);
  }

  lemma ResultWellFormed(r: Batch, table: Batch, names: seq<Bytes>, kinds: seq<Aggregate>,
      groupColumns: seq<seq<Value>>, readColumns: seq<seq<Value>>)
    requires WellFormed(table) && HasColumns(table.schema, names)
    requires AreGroupColumns(groupColumns, table, Places(table.schema, names))
    requires AreReadColumns(readColumns, table, GroupLists(table, Places(table.schema, names)), kinds)
    requires r == Batch(|GroupsOf(table, Places(table.schema, names))|, ResultSchema(table.schema, names, kinds),
                        groupColumns + readColumns)
    ensures WellFormed(r)
  {
    hide IsReadBack, GroupsOf, HasType, NameOf, Matching;
    forall c | 0 <= c < |r.columns|
      ensures |r.columns[c]| == r.rows && !r.schema.types[c].Int128? && AllTyped(r.schema.types[c], r.columns[c])
    {
      if c >= |names| {
        assert r.columns[c] == readColumns[c - |names|];
      }
    }
  }

  lemma ResultGroups(r: Batch, table: Batch, names: seq<Bytes>, kinds: seq<Aggregate>,
      groupColumns: seq<seq<Value>>, readColumns: seq<seq<Value>>)
    requires WellFormed(table) && HasColumns(table.schema, names) && WellFormed(r)
    requires AreGroupColumns(groupColumns, table, Places(table.schema, names)) && |readColumns| == |kinds|
    requires r == Batch(|GroupsOf(table, Places(table.schema, names))|, ResultSchema(table.schema, names, kinds),
                        groupColumns + readColumns)
    ensures HasGroupColumns(r, table, names, kinds)
  {
    hide GroupsOf, HasType, NameOf, WellFormed;
  }

  // What aggregating a table group by group demands of its numbers.
  ghost predicate GroupsInScope(kinds: seq<Aggregate>, table: Batch, names: seq<Bytes>)
    requires WellFormed(table) && HasColumns(table.schema, names)
  {
    ListsInScope(kinds, table, GroupLists(table, Places(table.schema, names)))
  }

  // Tables of fewer than 2^63 rows with 64-bit numbers in the summed columns are in scope, however they are grouped.
  lemma ModestGroupsInScope(kinds: seq<Aggregate>, table: Batch, names: seq<Bytes>)
    requires WellFormed(table) && HasColumns(table.schema, names) && table.rows < ROW_LIMIT
    requires forall i :: 0 <= i < |kinds| ==> Modest(kinds[i], table)
    ensures GroupsInScope(kinds, table, names)
  {
    hide InScope, Modest, Matching;
    var places := Places(table.schema, names);
    forall g | 0 <= g < |GroupsOf(table, places)|
      ensures ListInScope(kinds, table, GroupLists(table, places)[g])
    {
      var rows := GroupLists(table, places)[g];
      MatchingIs(GroupValues(table, places), GroupsOf(table, places)[g]);
      forall i | 0 <= i < |kinds|
        ensures InScope(kinds[i], [], Picked(table, rows))
      {
        PickedModest(kinds[i], table, rows);
        ModestInScope(kinds[i], [], Picked(table, rows));
      }
    }
  }

  method GroupTable(table: Batch, names: seq<Bytes>, kinds: seq<Aggregate>) returns (r: Reply)
    requires WellFormed(table) && table.rows < ROW_LIMIT && HasColumns(table.schema, names)
    requires GroupsInScope(kinds, table, names)
    requires forall i :: 0 <= i < |kinds| ==> HasNeededColumn(kinds[i], table.schema)
    ensures table.rows == 0 ==> r == Null
    ensures var fault := GroupFault(kinds, table.schema);
      table.rows > 0 ==>
        && (!fault.Done? ==> r == Thrown(fault))
        && (fault.Done? ==>
              && (forall i :: 0 <= i < |kinds| ==> Verdict(kinds[i], table.schema).Done?)
              && IsReply(r, table, names, kinds))
  {
    hide GroupFault, ListsInScope, Verdict, GroupVerdict, Buffered, IsSubSchema, HasGroupColumns, AreReadColumns,
         IsReadBack;
    var schema := table.schema;
    var places := FindPlaces(schema, names);
    var needed := ListColumns(kinds);
    NeededIsSubSchema(needed, schema, kinds);
    var subPlaces := FindPlaces(schema, needed);
    var sub := Schema(needed, PlaceTypes(schema, subPlaces));
    var first, lists := BuildGroups(table, places, PlaceTypes(schema, places));
    FirstHasGroup(GroupValues(table, places), first, lists);
    ListsAreGroupLists(table, places, first, lists);
    if |first| == 0 {
      return Null;
    }
    var fault, bufs := AggregateGroups(kinds, table, sub, subPlaces, lists);
    if !fault.Done? {
      return Thrown(fault);
    }
    NoGroupFault(kinds, schema);
    VerdictsDone(kinds, schema);
    var groupColumns := GroupColumns(table, places, first, lists);
    var answerColumns := AnswerColumns(kinds, bufs, |first|, table, lists);
    if answerColumns.None? {
      return OutOfBounds;
    }
    r := Delivered(Batch(|first|, ResultSchema(schema, names, kinds), groupColumns + answerColumns.value));
    IsResult(r.batch, table, names, kinds, groupColumns, answerColumns.value);
  }

  // ------------------------------------------------------------ the operator

  class GroupByAggregationOperator {
    const next: BatchSource
    const groupByColumns: seq<Bytes>
    // What the aggregation factory creates.
    const kinds: seq<Aggregate>
    var done: bool

    constructor (next: BatchSource, groupByColumns: seq<Bytes>, kinds: seq<Aggregate>)
      ensures this.next == next && this.groupByColumns == groupByColumns && this.kinds == kinds && !done
    {
      this.next := next;
      this.groupByColumns := groupByColumns;
      this.kinds := kinds;
      done := false;
    }

    predicate Accepts(schema: Schema) {
      && HasColumns(schema, groupByColumns)
      && forall i :: 0 <= i < |kinds| ==> HasNeededColumn(kinds[i], schema)
    }

    // One row per group of the concatenated batches, or the null pointer when there is no row.
    method Next() returns (r: Reply)
      requires Uniform(next.pending) && RowCount(next.pending) < ROW_LIMIT
      requires next.pending != [] ==> Accepts(next.pending[0].schema)
      requires next.pending != [] ==>
        var table := MergedBatch(next.pending, next.pending[0].schema);
        WellFormed(table) && GroupsInScope(kinds, table, groupByColumns)
      modifies this, next
      ensures done && (old(done) ==> r == Null && next.pending == old(next.pending))
      ensures !old(done) ==> next.pending == []
      ensures !old(done) && old(next.pending) == [] ==> r == Null
      ensures !old(done) && old(next.pending) != [] ==>
        var all := old(next.pending);
        var schema := all[0].schema;
        var fault := GroupFault(kinds, schema);
        && SameSchema(all, schema) && WellFormed(MergedBatch(all, schema))
        && (RowCount(all) == 0 ==> r == Null)
        && (RowCount(all) > 0 && !fault.Done? ==> r == Thrown(fault))
        && (RowCount(all) > 0 && fault.Done? ==>
              && (forall i :: 0 <= i < |kinds| ==> Verdict(kinds[i], schema).Done?)
              && IsReply(r, MergedBatch(all, schema), groupByColumns, kinds))
    {
      hide IsReply, GroupFault, Verdict, GroupsInScope, HasNeededColumn;
      if done {
        return Null;
      }
      done := true;
      var all := Drain(next);
      var merged := MergeBatchesByRows(all);
      if merged.None? {
        return Null;
      }
      r := GroupTable(merged.value, groupByColumns, kinds);
    }
  }
}
