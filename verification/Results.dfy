/** What a delivered result says, row by row and by column name, and a query that sorts by such a name. */
module Results {
  import opened Words
  import opened Values
  import opened Tables
  import opened Source
  import opened Order
  import opened TopK
  import opened Comparison
  import opened Aggregation
  import opened Answers
  import opened Global
  import opened Grouping
  import opened GroupBy
  import opened GroupedAggregation
  import opened GroupByOperator
  import D = Distinct

  // ---------------------------------------------------------------- column names

  // The result column of aggregate i has this name, and unless a column before it has it too, looking the name up or
  // sorting by it finds that column.
  lemma ReplyColumnNamed(b: Batch, table: Batch, names: seq<Bytes>, kinds: seq<Aggregate>, i: nat)
    requires WellFormed(table) && HasColumns(table.schema, names) && i < |kinds|
    requires IsReply(Delivered(b), table, names, kinds)
    ensures |b.schema.names| == |b.schema.types| == |names| + |kinds| && b.schema.names[..|names|] == names
    ensures
      var text := match kinds[i]
        case CountRows => Ascii("count(*)")
        case CountDistinct(c) => Ascii("count(distinct ") + c + Ascii(")")
        case Sum(c) => Ascii("sum(") + c + Ascii(")")
        case SumWithOffset(c, offset) => Ascii("sum(") + c + Ascii("+") + Decimal(offset) + Ascii(")")
        case Avg(c) => Ascii("avg(") + c + Ascii(")")
        case Min(c) => Ascii("min(") + c + Ascii(")")
        case Max(c) => Ascii("max(") + c + Ascii(")");
      && b.schema.names[|names| + i] == text
      && (text !in b.schema.names[..|names| + i] ==>
            && ColumnIndex(b.schema.names, text) == |names| + i
            && SortKeys(b.schema, [text])
               == [SortKey(|names| + i, if kinds[i].Min? || kinds[i].Max? then String else Int64)])
    ensures b.schema.types[|names| + i] == if kinds[i].Min? || kinds[i].Max? then String else Int64
  {
    hide IsReadBack, GroupsOf, Matching, SortKeys, Decimal;
    var text := NameOf(kinds[i]);
    assert b.schema.names[..|names|] == names;
    assert b.schema.names[|names| + i] == text;
    if text !in b.schema.names[..|names| + i] {
      forall k | 0 <= k < |names| + i
        ensures b.schema.names[k] != text
      {
        assert b.schema.names[..|names| + i][k] == b.schema.names[k];
      }
      ColumnIndexIs(b.schema.names, text, |names| + i);
      OneKeyOf(b.schema, text);
    }
  }

  lemma OneKeyOf(schema: Schema, name: Bytes)
    requires schema.Valid() && ColumnIndex(schema.names, name) < |schema.names|
    ensures var index := ColumnIndex(schema.names, name);
            SortKeys(schema, [name]) == [SortKey(index, schema.types[index])]
  {
    assert [name][..0] == [];
    assert SortKeys(schema, []) == [];
  }

  // The one row of a global aggregation: under these names, what each aggregate answers.
  lemma AnswerRowNamed(r: Batch, kinds: seq<Aggregate>, table: Batch, i: nat)
    requires WellFormed(table) && i < |kinds|
    requires forall i :: 0 <= i < |kinds| ==> Verdict(kinds[i], table.schema).Done?
    requires IsAnswerRow(r, kinds, table)
    ensures r.rows == 1 && |r.schema.names| == |r.columns| == |kinds|
    ensures r.columns[i] == [AnswerOf(kinds[i], table)] && r.schema.types[i] == AnswerType(kinds[i], table.schema)
    ensures r.schema.names[i] ==
      match kinds[i]
      case CountRows => Ascii("count(*)")
      case CountDistinct(c) => Ascii("count(distinct ") + c + Ascii(")")
      case Sum(c) => Ascii("sum(") + c + Ascii(")")
      case SumWithOffset(c, offset) => Ascii("sum(") + c + Ascii("+") + Decimal(offset) + Ascii(")")
      case Avg(c) => Ascii("avg(") + c + Ascii(")")
      case Min(c) => Ascii("min(") + c + Ascii(")")
      case Max(c) => Ascii("max(") + c + Ascii(")")
  {
    hide AnswerOf, AnswerType, Decimal;
  }

  // A global count of distinct values, as delivered.
  lemma DistinctDelivered(r: Batch, kinds: seq<Aggregate>, table: Batch, i: nat, name: Bytes, c: nat)
    requires WellFormed(table) && i < |kinds| && kinds[i] == CountDistinct(name)
    requires forall i :: 0 <= i < |kinds| ==> Verdict(kinds[i], table.schema).Done?
    requires IsAnswerRow(r, kinds, table)
    requires IsColumn(table.schema, name, c) && !IsFloat(table.schema.types[c])
    ensures |r.columns| == |kinds| && r.columns[i] == [Word(|set v | v in table.columns[c]|)]
  {
    hide AnswerOf;
    DistinctAnswer(name, table, c);
  }

  // ---------------------------------------------------------------- result rows

  // Row j of the table has the group values of result row g.
  predicate InGroup(b: Batch, table: Batch, names: seq<Bytes>, g: nat, j: nat)
    requires WellFormed(table) && HasColumns(table.schema, names) && WellFormed(b) && |names| <= |b.columns|
    requires g < b.rows && j < table.rows
  {
    forall n :: 0 <= n < |names| ==>
      table.columns[ColumnIndex(table.schema.names, names[n])][j] == b.columns[n][g]
  }

  // A result row stands for the rows of the table that have its group values, and aggregates exactly these.
  lemma ResultRowIs(b: Batch, table: Batch, names: seq<Bytes>, kinds: seq<Aggregate>, g: nat) returns (rows: seq<nat>)
    requires WellFormed(table) && HasColumns(table.schema, names) && table.rows > 0
    requires IsReply(Delivered(b), table, names, kinds) && g < b.rows
    requires forall i :: 0 <= i < |kinds| ==> Verdict(kinds[i], table.schema).Done?
    ensures WellFormed(b) && |b.columns| == |names| + |kinds|
    ensures |rows| > 0 && forall p :: 0 <= p < |rows| ==> rows[p] < table.rows
    ensures forall p, q :: 0 <= p < q < |rows| ==> rows[p] < rows[q]
    ensures forall j: nat :: j < table.rows ==> (j in rows <==> InGroup(b, table, names, g, j))
    ensures forall i :: 0 <= i < |kinds| && Restorable(kinds[i], table.schema) ==>
      b.columns[|names| + i][g] == AnswerOf(kinds[i], Picked(table, rows))
  {
    hide IsReadBack, GroupAnswers, AnswerOf, Matching, D.Distinct, NameOf;
    var places := Places(table.schema, names);
    var gs, groups := GroupValues(table, places), GroupsOf(table, places);
    ResultRowGroups(b, table, names, kinds, g);
    rows := Matching(gs, groups[g]);
    MatchingIs(gs, groups[g]);
    var first := FirstRowOfGroup(gs, g);
    forall i | 0 <= i < |kinds| && Restorable(kinds[i], table.schema)
      ensures b.columns[|names| + i][g] == AnswerOf(kinds[i], Picked(table, rows))
    {
      ResultOf(b, table, names, kinds, i, g);
    }
  }

  lemma ResultOf(b: Batch, table: Batch, names: seq<Bytes>, kinds: seq<Aggregate>, i: nat, g: nat)
    requires WellFormed(table) && HasColumns(table.schema, names) && table.rows > 0
    requires IsReply(Delivered(b), table, names, kinds) && i < |kinds|
    requires Verdict(kinds[i], table.schema).Done? && Restorable(kinds[i], table.schema)
    requires g < |GroupsOf(table, Places(table.schema, names))|
    ensures |b.columns| == |names| + |kinds| && g < |b.columns[|names| + i]|
    ensures var places := Places(table.schema, names);
      b.columns[|names| + i][g]
      == AnswerOf(kinds[i], Picked(table, Matching(GroupValues(table, places), GroupsOf(table, places)[g])))
  {
    hide IsReadBack, AnswerOf, Matching, D.Distinct, NameOf;
    SomeGroup(table, Places(table.schema, names));
    RestoredColumn(kinds[i], table, GroupLists(table, Places(table.schema, names)), Some(b.columns[|names| + i]));
  }

  // The group columns of result row g tell its rows.
  lemma ResultRowGroups(b: Batch, table: Batch, names: seq<Bytes>, kinds: seq<Aggregate>, g: nat)
    requires WellFormed(table) && HasColumns(table.schema, names)
    requires IsReply(Delivered(b), table, names, kinds) && g < b.rows
    ensures WellFormed(b) && |b.columns| == |names| + |kinds|
    ensures var places := Places(table.schema, names);
      var gs, groups := GroupValues(table, places), GroupsOf(table, places);
      && b.rows == |groups| && |gs| == table.rows
      && forall j: nat :: j < table.rows ==> (gs[j] == groups[g] <==> InGroup(b, table, names, g, j))
  {
    hide HasReadColumns, D.Distinct, NameOf;
    var places := Places(table.schema, names);
    var gs, groups := GroupValues(table, places), GroupsOf(table, places);
    forall j: nat | j < table.rows
      ensures gs[j] == groups[g] <==> InGroup(b, table, names, g, j)
    {
      assert forall n :: 0 <= n < |names| ==> gs[j][n] == table.columns[places[n]][j];
      if InGroup(b, table, names, g, j) {
        assert forall n :: 0 <= n < |names| ==> gs[j][n] == groups[g][n];
      }
    }
  }

  // A row of group h lies before row j.
  ghost predicate MetBefore(b: Batch, table: Batch, names: seq<Bytes>, h: nat, j: nat)
    requires WellFormed(table) && HasColumns(table.schema, names) && WellFormed(b) && |names| <= |b.columns|
    requires h < b.rows && j <= table.rows
  {
    exists i: nat :: i < j && InGroup(b, table, names, h, i)
  }

  // Every row of the table is in exactly one group, and groups come in the order of their first rows.
  lemma RowsAreGrouped(b: Batch, table: Batch, names: seq<Bytes>, kinds: seq<Aggregate>, j: nat) returns (g: nat)
    requires WellFormed(table) && HasColumns(table.schema, names)
    requires IsReply(Delivered(b), table, names, kinds) && j < table.rows
    ensures WellFormed(b) && |names| <= |b.columns| && g < b.rows && InGroup(b, table, names, g, j)
    ensures forall h: nat :: h < b.rows && h != g ==> !InGroup(b, table, names, h, j)
    ensures forall h: nat :: h < g ==> MetBefore(b, table, names, h, j)
  {
    hide IsReply, D.Distinct, Matching;
    var places := Places(table.schema, names);
    var gs, groups := GroupValues(table, places), GroupsOf(table, places);
    GroupsCounted(b, table, names, kinds);
    GroupsPartition(gs, j);
    g := D.IndexOf(groups, gs[j]);
    ResultRowGroups(b, table, names, kinds, g);
    forall h: nat | h < b.rows && h != g
      ensures !InGroup(b, table, names, h, j)
    {
      ResultRowGroups(b, table, names, kinds, h);
    }
    forall h: nat | h < g
      ensures MetBefore(b, table, names, h, j)
    {
      ResultRowGroups(b, table, names, kinds, h);
      var i := FirstRowOfGroup(gs, h);
      var mine := FirstRowOfGroup(gs, g);
      FirstRowsAscend(gs, h, g);
      MatchingIs(gs, groups[g]);
      assert j in Matching(gs, groups[g]);
      assert InGroup(b, table, names, h, i);
    }
  }

  lemma GroupsCounted(b: Batch, table: Batch, names: seq<Bytes>, kinds: seq<Aggregate>)
    requires WellFormed(table) && HasColumns(table.schema, names) && IsReply(Delivered(b), table, names, kinds)
    ensures WellFormed(b) && |b.columns| == |names| + |kinds|
    ensures b.rows == |GroupsOf(table, Places(table.schema, names))|
  {
    hide HasReadColumns, D.Distinct, NameOf;
  }

  // A group's count of distinct values is the size of the set of values its rows have.
  lemma GroupedDistinct(b: Batch, table: Batch, names: seq<Bytes>, kinds: seq<Aggregate>, g: nat, i: nat,
      name: Bytes, c: nat)
    requires WellFormed(table) && HasColumns(table.schema, names) && table.rows > 0
    requires IsReply(Delivered(b), table, names, kinds) && g < b.rows
    requires forall i :: 0 <= i < |kinds| ==> Verdict(kinds[i], table.schema).Done?
    requires i < |kinds| && kinds[i] == CountDistinct(name)
    requires IsColumn(table.schema, name, c) && !IsFloat(table.schema.types[c])
    ensures WellFormed(b) && |b.columns| == |names| + |kinds|
    ensures b.columns[|names| + i][g]
         == Word(|set j | 0 <= j < table.rows && InGroup(b, table, names, g, j) :: table.columns[c][j]|)
  {
    hide IsReply, AnswerOf, InGroup;
    var rows := ResultRowIs(b, table, names, kinds, g);
    PickedColumn(table, rows, c);
    DistinctAnswer(name, Picked(table, rows), c);
    var column := Picked(table, rows).columns[c];
    var values := set j | 0 <= j < table.rows && InGroup(b, table, names, g, j) :: table.columns[c][j];
    forall v | v in column
      ensures v in values
    {
      var p :| 0 <= p < |column| && column[p] == v;
      assert rows[p] in rows;
    }
    forall v | v in values
      ensures v in column
    {
      var j: nat :| j < table.rows && InGroup(b, table, names, g, j) && table.columns[c][j] == v;
      var p :| 0 <= p < |rows| && rows[p] == j;
      assert column[p] == v;
    }
    assert (set v | v in column) == values;
  }

  // A group's row count is the number of its rows.
  lemma GroupedCount(b: Batch, table: Batch, names: seq<Bytes>, kinds: seq<Aggregate>, g: nat, i: nat)
    requires WellFormed(table) && HasColumns(table.schema, names) && table.rows > 0
    requires IsReply(Delivered(b), table, names, kinds) && g < b.rows
    requires forall i :: 0 <= i < |kinds| ==> Verdict(kinds[i], table.schema).Done?
    requires i < |kinds| && kinds[i] == CountRows
    ensures WellFormed(b) && |b.columns| == |names| + |kinds|
    ensures b.columns[|names| + i][g] == Word(|set j | 0 <= j < table.rows && InGroup(b, table, names, g, j)|)
  {
    hide IsReply, InGroup;
    var rows := ResultRowIs(b, table, names, kinds, g);
    CountAnswer(Picked(table, rows));
    var all := set j | 0 <= j < table.rows && InGroup(b, table, names, g, j);
    assert all == ElementSet(rows) by {
      forall j | j in rows
        ensures j in all
      {
      }
    }
    AscendingAreDistinct(rows);
    DistinctCount(rows);
  }

  lemma AscendingAreDistinct(rows: seq<nat>)
    requires forall p, q :: 0 <= p < q < |rows| ==> rows[p] < rows[q]
    ensures |D.Distinct(rows)| == |rows|
  {
    D.DistinctOfUnique(rows);
  }

  // ----------------------------------------------------------------- one query

  // SELECT names, COUNT(DISTINCT column) ... GROUP BY names ORDER BY COUNT(DISTINCT column) DESC LIMIT k: what the
  // operators put one behind the other answer. `groups` is the whole grouped table, `rest` what the limit leaves out.
  method TopGroups(batches: seq<Batch>, names: seq<Bytes>, column: Bytes, k: nat)
    returns (r: Option<Batch>, ghost groups: Option<Batch>, ghost rest: seq<Row>)
    requires batches != [] && Uniform(batches) && RowCount(batches) < ROW_LIMIT && column != []
    requires HasColumns(batches[0].schema, names) && column in batches[0].schema.names
    requires Ascii("count(distinct ") + column + Ascii(")") !in names
    ensures SameSchema(batches, batches[0].schema) && WellFormed(MergedBatch(batches, batches[0].schema))
    ensures r.None? <==> RowCount(batches) == 0
    ensures r.Some? <==> groups.Some?
    ensures r.Some? ==>
      var table := MergedBatch(batches, batches[0].schema);
      && WellFormed(r.value) && WellFormed(groups.value) && r.value.schema == groups.value.schema
      && IsReply(Delivered(groups.value), table, names, [CountDistinct(column)])
      && IsBestOf(RowsOf(r.value), rest, RowsOf(groups.value), k, |names|)
  {
    hide IsReply, GroupFault, MergedBatch, RowsOf, IsTopKOf, IsBestOf, SortKeys, InScope, Ascii, WellFormed;
    var kinds := [CountDistinct(column)];
    ghost var schema := batches[0].schema;
    ghost var table := MergedBatch(batches, schema);
    MergedIs(batches);
    Accepted(kinds, table, names, column);
    r, groups, rest := None, None, [];
    var source := new BatchSource(batches);
    var groupBy := new GroupByAggregationOperator(source, names, kinds);
    var reply := groupBy.Next();
    if RowCount(batches) == 0 {
      return;
    }
    GroupsDelivered(reply, table, names, column);
    var b := reply.batch;
    groups := Some(b);
    var text := NameOf(kinds[0]);
    ReplySorts(b, table, names, column, text);
    var delivered := new BatchSource([b]);
    var topK := new TopKOperator(delivered, [text], k, true);
    r := topK.Next();
    AllRowsOfOne(b);
    rest := BestGroups(RowsOf(r.value), b, k, |names|);
  }

  // The greatest numbers in the column, in order, and none left out greater.
  ghost predicate IsBestOf(top: seq<Row>, rest: seq<Row>, rows: seq<Row>, k: nat, index: nat) {
    && HaveNumbers(top, index) && HaveNumbers(rest, index)
    && |top| == (if k < |rows| then k else |rows|) && multiset(top) + multiset(rest) == multiset(rows)
    && (forall i, j :: 0 <= i < j < |top| ==> top[i][index].n >= top[j][index].n)
    && (forall i, j :: 0 <= i < |top| && 0 <= j < |rest| ==> top[i][index].n >= rest[j][index].n)
  }

  lemma MergedIs(batches: seq<Batch>)
    requires batches != [] && Uniform(batches)
    ensures var schema := batches[0].schema;
      && SameSchema(batches, schema) && WellFormed(MergedBatch(batches, schema))
      && MergedBatch(batches, schema).schema == schema && MergedBatch(batches, schema).rows == RowCount(batches)
  {
    ValidSchema(batches, batches[0].schema);
    MergedRows(batches, batches[0].schema);
  }

  lemma Accepted(kinds: seq<Aggregate>, table: Batch, names: seq<Bytes>, column: Bytes)
    requires WellFormed(table) && kinds == [CountDistinct(column)] && column != []
    requires HasColumns(table.schema, names) && column in table.schema.names
    ensures HasNeededColumn(kinds[0], table.schema) && GroupFault(kinds, table.schema) == Done
    ensures GroupsInScope(kinds, table, names)
  {
    FoundIn(table.schema.names, column);
    FirstFaultIs(GroupVerdicts(kinds, table.schema), 1);
  }

  lemma GroupsDelivered(reply: Reply, table: Batch, names: seq<Bytes>, column: Bytes)
    requires WellFormed(table) && table.rows > 0 && HasColumns(table.schema, names)
    requires Verdict(CountDistinct(column), table.schema).Done?
    requires IsReply(reply, table, names, [CountDistinct(column)])
    ensures reply.Delivered?
  {
    hide IsReply;
    ReplyIsGroupTableExactly(reply, table, names, [CountDistinct(column)]);
  }

  lemma ReplySorts(b: Batch, table: Batch, names: seq<Bytes>, column: Bytes, text: Bytes)
    requires WellFormed(table) && HasColumns(table.schema, names)
    requires IsReply(Delivered(b), table, names, [CountDistinct(column)])
    requires text == Ascii("count(distinct ") + column + Ascii(")") && text !in names
    ensures WellFormed(b) && |b.columns| == |names| + 1 && b.schema.types[|names|] == Int64
    ensures SortKeys(b.schema, [text]) == [SortKey(|names|, Int64)]
    ensures CanSort([b], [text], true)
  {
    hide Ascii, SortKeys, RowsOf, IsReply, AllComparable;
    ReplyColumnNamed(b, table, names, [CountDistinct(column)], 0);
    GroupsCounted(b, table, names, [CountDistinct(column)]);
    IntegersComparable(b, |names|);
  }

  lemma IntegersComparable(b: Batch, index: nat)
    requires WellFormed(b) && index < |b.columns|
    ensures AllComparable(RowsOf(b), Ordering([SortKey(index, Int64)], true))
  {
  }

  lemma BestGroups(top: seq<Row>, b: Batch, k: nat, index: nat) returns (rest: seq<Row>)
    requires WellFormed(b) && index < |b.columns| && b.schema.types[index] == Int64
    requires IsTopKOf(top, RowsOf(b), k, Ordering([SortKey(index, Int64)], true))
    ensures IsBestOf(top, rest, RowsOf(b), k, index)
  {
    forall i | 0 <= i < b.rows
      ensures RowsOf(b)[i][index].Word?
    {
      assert HasType(b.schema.types[index], b.columns[index][i]);
    }
    rest := TopKOfIntegers(top, RowsOf(b), k, index, Int64, true);
  }
}
