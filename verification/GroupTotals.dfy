/** What a grouped result keeps of the table: row counts, sums, and nothing of how rows were batched. */
module GroupTotals {
  import opened Words
  import opened Values
  import opened Tables
  import opened Aggregation
  import opened Global
  import opened Grouping
  import opened GroupBy
  import opened GroupByOperator
  import D = Distinct

  // How the rows were split into batches does not matter to any operator that merges them.
  lemma SplitIndependent(a: seq<Batch>, b: seq<Batch>, schema: Schema)
    requires a != [] && SameSchema(a, schema) && SameSchema(b, schema)
    requires AllRows(a) == AllRows(b)
    ensures MergedBatch(a, schema) == MergedBatch(b, schema)
  {
    assert WellFormed(a[0]);
    MergedRows(a, schema);
    MergedRows(b, schema);
    RowsDetermineBatch(MergedBatch(a, schema), MergedBatch(b, schema));
  }

  // ------------------------------------------------------------------- counts

  lemma {:induction false} WeightOfOnes(rows: seq<nat>)
    ensures Weight(rows, (_: nat) => 1) == |rows|
  {
    if |rows| > 0 {
      WeightOfOnes(rows[..|rows| - 1]);
    }
  }

  lemma {:induction false} AddGroups(vs: seq<Value>, gs: seq<Row>, groups: seq<Row>, w: nat -> int)
    requires |vs| == |groups|
    requires forall g :: 0 <= g < |vs| ==> vs[g] == Word(Weight(Matching(gs, groups[g]), w))
    ensures SumOf(vs) == GroupedWeight(gs, groups, w)
  {
    if |vs| > 0 {
      AddGroups(vs[..|vs| - 1], gs, groups[..|groups| - 1], w);
    }
  }

  // A restorable aggregate's result column is its answers, group by group.
  lemma ColumnOfAnswers(r: Batch, table: Batch, names: seq<Bytes>, kinds: seq<Aggregate>, i: nat)
    requires WellFormed(table) && HasColumns(table.schema, names)
    requires IsReply(Delivered(r), table, names, kinds) && i < |kinds| && table.rows > 0
    requires Verdict(kinds[i], table.schema).Done? && Restorable(kinds[i], table.schema)
    ensures |r.columns| == |names| + |kinds|
    ensures r.columns[|names| + i] == GroupAnswers(kinds[i], table, GroupLists(table, Places(table.schema, names)))
  {
    hide HasGroupColumns, IsReadBack, GroupAnswers, AnswerOf;
    SomeGroup(table, Places(table.schema, names));
    RestoredColumn(kinds[i], table, GroupLists(table, Places(table.schema, names)), Some(r.columns[|names| + i]));
  }

  // The groups' row counts add up to the number of rows.
  lemma CountsAddUp(r: Batch, table: Batch, names: seq<Bytes>, kinds: seq<Aggregate>, i: nat)
    requires WellFormed(table) && HasColumns(table.schema, names)
    requires IsReply(Delivered(r), table, names, kinds) && table.rows > 0
    requires i < |kinds| && kinds[i] == CountRows
    ensures |r.columns| == |names| + |kinds| && SumOf(r.columns[|names| + i]) == table.rows
  {
    hide IsReply;
    var places := Places(table.schema, names);
    var gs, groups := GroupValues(table, places), GroupsOf(table, places);
    var ones := (_: nat) => 1;
    D.DistinctFacts(gs);
    ColumnOfAnswers(r, table, names, kinds, i);
    var column := r.columns[|names| + i];
    forall g | 0 <= g < |groups|
      ensures column[g] == Word(Weight(Matching(gs, groups[g]), ones))
    {
      WeightOfOnes(Matching(gs, groups[g]));
    }
    AddGroups(column, gs, groups, ones);
    GroupingConserves(gs, groups, ones);
    WeightOfOnes(AllIndices(|gs|));
  }

  // --------------------------------------------------------------------- sums

  predicate Congruent(a: int, b: int) {
    (a - b) % SIZE_LIMIT == 0
  }

  lemma CongruentSum(a: int, b: int, c: int, d: int)
    requires Congruent(a, b) && Congruent(c, d)
    ensures Congruent(a + c, b + d)
  {
  }

  lemma CastIsCongruent(n: int, m: int)
    ensures Congruent(ToInt64(n), n)
    ensures Congruent(n, m) ==> ToInt64(n) == ToInt64(m)
  {
    var q := n / SIZE_LIMIT;
    DivModUnique(ToInt64(n) - n, SIZE_LIMIT, if n % SIZE_LIMIT < INT64_LIMIT then -q else -q - 1, 0);
    if Congruent(n, m) {
      DivModUnique(n, SIZE_LIMIT, (n - m) / SIZE_LIMIT + m / SIZE_LIMIT, m % SIZE_LIMIT);
    }
  }

  // What row i adds to a sum over the column.
  function Addend(column: seq<Value>, offset: int): nat -> int {
    (i: nat) => if i < |column| then (if column[i].Word? then column[i].n else 0) + offset else 0
  }

  lemma {:induction false} WeightIsSum(column: seq<Value>, offset: int, rows: seq<nat>)
    requires forall j :: 0 <= j < |rows| ==> rows[j] < |column|
    ensures Weight(rows, Addend(column, offset)) == OffsetSum(Pick(column, rows), offset)
  {
    if |rows| > 0 {
      WeightIsSum(column, offset, rows[..|rows| - 1]);
      assert Pick(column, rows)[..|rows| - 1] == Pick(column, rows[..|rows| - 1]);
    }
  }

  lemma {:induction false} AddGroupsModulo(vs: seq<Value>, gs: seq<Row>, groups: seq<Row>, w: nat -> int)
    requires |vs| == |groups|
    requires forall g :: 0 <= g < |vs| ==> vs[g].Word? && Congruent(vs[g].n, Weight(Matching(gs, groups[g]), w))
    ensures Congruent(SumOf(vs), GroupedWeight(gs, groups, w))
  {
    if |vs| > 0 {
      var n := |vs| - 1;
      AddGroupsModulo(vs[..n], gs, groups[..n], w);
      CongruentSum(SumOf(vs[..n]), GroupedWeight(gs, groups[..n], w), vs[n].n, Weight(Matching(gs, groups[n]), w));
    }
  }

  // Adding up the groups' sums gives the sum over the whole table, casts to 64 bits included.
  lemma SumsAddUp(r: Batch, table: Batch, names: seq<Bytes>, kinds: seq<Aggregate>, i: nat)
    requires WellFormed(table) && HasColumns(table.schema, names)
    requires IsReply(Delivered(r), table, names, kinds) && table.rows > 0
    requires i < |kinds| && (kinds[i].Sum? || kinds[i].SumWithOffset?) && Verdict(kinds[i], table.schema).Done?
    ensures |r.columns| == |names| + |kinds|
    ensures Word(ToInt64(SumOf(r.columns[|names| + i]))) == AnswerOf(kinds[i], table)
  {
    hide OffsetSum, Congruent, ToInt64, Weight, IsReply, GroupAnswers, Input, D.Distinct, Matching, GroupValues;
    var a := kinds[i];
    var places := Places(table.schema, names);
    var gs, groups := GroupValues(table, places), GroupsOf(table, places);
    var offset := if a.Sum? then 0 else a.offset;
    var values := Input(a, table);
    var w := Addend(values, offset);
    D.DistinctFacts(gs);
    ColumnOfAnswers(r, table, names, kinds, i);
    var column := r.columns[|names| + i];
    forall g | 0 <= g < |groups|
      ensures column[g].Word? && Congruent(column[g].n, Weight(Matching(gs, groups[g]), w))
    {
      GroupSum(a, table, places, offset, g);
    }
    AddGroupsModulo(column, gs, groups, w);
    GroupingConserves(gs, groups, w);
    WeightIsSum(values, offset, AllIndices(|gs|));
    assert Pick(values, AllIndices(|gs|)) == values;
    CastIsCongruent(SumOf(column), OffsetSum(values, offset));
  }

  // One group's answer is the total of its rows, but for multiples of 2^64.
  lemma GroupSum(a: Aggregate, table: Batch, places: seq<nat>, offset: int, g: nat)
    requires Inside(table, places) && g < |GroupsOf(table, places)|
    requires (a.Sum? || a.SumWithOffset?) && Verdict(a, table.schema).Done?
    requires offset == if a.Sum? then 0 else a.offset
    ensures var answer := GroupAnswers(a, table, GroupLists(table, places))[g];
      var rows := Matching(GroupValues(table, places), GroupsOf(table, places)[g]);
      answer.Word? && Congruent(answer.n, Weight(rows, Addend(Input(a, table), offset)))
  {
    hide Congruent, ToInt64, Input, OffsetSum, Matching, GroupsOf;
    var rows := Matching(GroupValues(table, places), GroupsOf(table, places)[g]);
    var values := Input(a, table);
    WeightIsSum(values, offset, rows);
    InputPicked(a, table, rows);
    CastIsCongruent(OffsetSum(Pick(values, rows), offset), 0);
  }
}
