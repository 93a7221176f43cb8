/** What each aggregate answers for a table, in terms of the column's elements alone. */
module Answers {
  import opened Words
  import opened Values
  import opened Floats
  import opened Tables
  import opened Order
  import opened Aggregation
  import opened Global
  import D = Distinct

  // The column an aggregate is over: the first of that name.
  predicate IsColumn(schema: Schema, name: Bytes, c: nat) {
    c < |schema.names| && schema.names[c] == name && forall d :: 0 <= d < c ==> schema.names[d] != name
  }

  lemma ColumnFound(schema: Schema, name: Bytes, c: nat)
    requires IsColumn(schema, name, c)
    ensures ColumnIndex(schema.names, name) == c
  {
    ColumnIndexIs(schema.names, name, c);
  }

  // ------------------------------------------------------------------ exceptions

  // Counting rows never throws; another aggregate throws for a name no column has, and a sum or average for strings.
  lemma VerdictIs(a: Aggregate, schema: Schema)
    requires schema.Valid()
    ensures a.CountRows? ==> Verdict(a, schema) == Done
    ensures !a.CountRows? && a.column !in schema.names ==> Verdict(a, schema) == ColumnNotFound
    ensures forall c :: 0 <= c < |schema.names| && !a.CountRows? && IsColumn(schema, a.column, c) ==>
      Verdict(a, schema) ==
        if (a.Sum? || a.SumWithOffset? || a.Avg?) && schema.types[c].String? then UnsupportedType else Done
  {
    if !a.CountRows? {
      forall c | 0 <= c < |schema.names| && IsColumn(schema, a.column, c)
        ensures PlaceIn(a, schema) == c
      {
        ColumnFound(schema, a.column, c);
      }
    }
  }

  // Minimum and maximum have the column's type, everything else is a 64-bit integer.
  lemma AnswerTypeIs(a: Aggregate, schema: Schema, c: nat)
    requires schema.Valid() && Verdict(a, schema).Done? && (!a.CountRows? ==> IsColumn(schema, a.column, c))
    ensures AnswerType(a, schema) == if a.Min? || a.Max? then schema.types[c] else Int64
  {
    if !a.CountRows? {
      ColumnFound(schema, a.column, c);
    }
  }

  // ------------------------------------------------------------------- counting

  lemma CountAnswer(table: Batch)
    requires WellFormed(table)
    ensures AnswerOf(CountRows, table) == Word(table.rows)
  {
  }

  // Other than for floats, the size of the set of the column's values.
  lemma DistinctAnswer(name: Bytes, table: Batch, c: nat)
    requires WellFormed(table) && IsColumn(table.schema, name, c)
    requires !table.schema.types[c].Float? && !table.schema.types[c].Double?
    ensures Verdict(CountDistinct(name), table.schema) == Done
    ensures AnswerOf(CountDistinct(name), table) == Word(|set v | v in table.columns[c]|)
  {
    hide D.Distinct;
    var column := table.columns[c];
    ColumnFound(table.schema, name, c);
    DistinctNumberIs(table.schema.types[c], column);
    DistinctCount(column);
    assert ElementSet(column) == set v | v in column;
  }

  // For floats, the size of the set of its numbers, and one for every NaN.
  lemma DistinctFloatAnswer(name: Bytes, table: Batch, c: nat)
    requires WellFormed(table) && IsColumn(table.schema, name, c)
    requires table.schema.types[c].Float? || table.schema.types[c].Double?
    ensures Verdict(CountDistinct(name), table.schema) == Done
    ensures var t, column := table.schema.types[c], table.columns[c];
      var numbers := set i | 0 <= i < table.rows && !IsNaN(t, column[i]) :: Number(t, column[i].n);
      var nans := set i | 0 <= i < table.rows && IsNaN(t, column[i]);
      AnswerOf(CountDistinct(name), table) == Word(|numbers| + |nans|)
  {
    hide D.Distinct, IsNaN, Number;
    var t, column := table.schema.types[c], table.columns[c];
    ColumnFound(table.schema, name, c);
    DistinctNumberIs(t, column);
    DistinctCount(RankedNumbers(t, column));
    NumberSet(t, column);
    NaNSet(t, column, table.rows);
    assert column[..table.rows] == column;
  }

  function NaNPlaces(t: Type, vs: seq<Value>, n: nat): set<int>
    requires n <= |vs|
  {
    set i | 0 <= i < n && IsNaN(t, vs[i])
  }

  lemma NextNaN(t: Type, vs: seq<Value>, n: nat)
    requires n < |vs|
    ensures n !in NaNPlaces(t, vs, n)
    ensures NaNPlaces(t, vs, n + 1) == NaNPlaces(t, vs, n) + if IsNaN(t, vs[n]) then {n} else {}
  {
    hide IsNaN;
  }

  lemma {:induction false} NaNSet(t: Type, vs: seq<Value>, n: nat)
    requires n <= |vs|
    ensures |NaNPlaces(t, vs, n)| == NaNCount(t, vs[..n])
  {
    hide IsNaN;
    if n > 0 {
      NaNSet(t, vs, n - 1);
      NextNaN(t, vs, n - 1);
      assert vs[..n][..n - 1] == vs[..n - 1];
    }
  }

  lemma {:induction false} RankedAre(t: Type, vs: seq<Value>)
    requires IsFloat(t) && AllTyped(t, vs)
    ensures forall x :: x in RankedNumbers(t, vs) ==>
      exists i :: 0 <= i < |vs| && !IsNaN(t, vs[i]) && x == Word(Number(t, vs[i].n))
    ensures forall i :: 0 <= i < |vs| && !IsNaN(t, vs[i]) ==> Word(Number(t, vs[i].n)) in RankedNumbers(t, vs)
  {
    hide IsNaN, Number;
    if |vs| > 0 {
      var n := |vs| - 1;
      RankedAre(t, vs[..n]);
      forall x | x in RankedNumbers(t, vs)
        ensures exists i :: 0 <= i < |vs| && !IsNaN(t, vs[i]) && x == Word(Number(t, vs[i].n))
      {
        if x in RankedNumbers(t, vs[..n]) {
          var i :| 0 <= i < n && !IsNaN(t, vs[..n][i]) && x == Word(Number(t, vs[..n][i].n));
          assert vs[i] == vs[..n][i];
        }
      }
      forall i | 0 <= i < |vs| && !IsNaN(t, vs[i])
        ensures Word(Number(t, vs[i].n)) in RankedNumbers(t, vs)
      {
        if i < n {
          assert vs[..n][i] == vs[i];
        }
      }
    }
  }

  lemma NumberSet(t: Type, vs: seq<Value>)
    requires IsFloat(t) && AllTyped(t, vs)
    ensures |set i | 0 <= i < |vs| && !IsNaN(t, vs[i]) :: Number(t, vs[i].n)| == |ElementSet(RankedNumbers(t, vs))|
  {
    hide IsNaN, Number, RankedNumbers;
    RankedAre(t, vs);
    var numbers := set i | 0 <= i < |vs| && !IsNaN(t, vs[i]) :: Number(t, vs[i].n);
    var words := ElementSet(RankedNumbers(t, vs));
    forall x | x in words
      ensures x.Word? && x.n in numbers
    {
      var i :| 0 <= i < |vs| && !IsNaN(t, vs[i]) && x == Word(Number(t, vs[i].n));
    }
    WordsOfNumbers(numbers, words);
  }

  lemma SomeMember<T>(s: set<T>) returns (x: T)
    requires s != {}
    ensures x in s
  {
    x :| x in s;
  }

  lemma {:induction false} WordsOfNumbers(numbers: set<int>, words: set<Value>)
    requires (forall n :: n in numbers ==> Word(n) in words) && forall x :: x in words ==> x.Word? && x.n in numbers
    ensures |numbers| == |words|
  {
    if numbers == {} {
      assert words == {};
    } else {
      var n := SomeMember(numbers);
      WordsOfNumbers(numbers - {n}, words - {Word(n)});
    }
  }

  // ---------------------------------------------------------------------- sums

  // totals[i] adds up the first i elements, floats by their integer parts, each with the offset.
  ghost predicate AreTotals(totals: seq<int>, t: Type, column: seq<Value>, offset: int) {
    && AllTyped(t, column) && !t.String? && |totals| == |column| + 1 && totals[0] == 0
    && forall i :: 0 <= i < |column| ==>
         totals[i + 1] == totals[i] + offset
           + if t.Float? || t.Double? then IntegerPart(t, column[i].n) else column[i].n
  }

  lemma {:induction false} TotalsAre(totals: seq<int>, t: Type, column: seq<Value>, offset: int, n: nat)
    requires AreTotals(totals, t, column, offset) && n <= |column|
    ensures OffsetSum(ConvertedAll(t, column[..n]), offset) == totals[n]
  {
    hide IntegerPart;
    if n > 0 {
      TotalsAre(totals, t, column, offset, n - 1);
      assert ConvertedAll(t, column[..n])[..n - 1] == ConvertedAll(t, column[..n - 1]);
    }
  }

  // A sum is the total modulo 2^64, and the total where it fits 64 bits.
  lemma SumAnswer(name: Bytes, table: Batch, c: nat, totals: seq<int>)
    requires WellFormed(table) && IsColumn(table.schema, name, c) && !table.schema.types[c].String?
    requires AreTotals(totals, table.schema.types[c], table.columns[c], 0)
    ensures Verdict(Sum(name), table.schema) == Done
    ensures IsCast(AnswerOf(Sum(name), table), totals[table.rows])
  {
    hide IntegerPart, OffsetSum;
    ColumnFound(table.schema, name, c);
    TotalsAre(totals, table.schema.types[c], table.columns[c], 0, table.rows);
    assert table.columns[c][..table.rows] == table.columns[c];
    CastIs(totals[table.rows]);
  }

  // So is a sum with an offset, which every element adds.
  lemma OffsetSumAnswer(name: Bytes, offset: int, table: Batch, c: nat, totals: seq<int>)
    requires WellFormed(table) && IsColumn(table.schema, name, c) && !table.schema.types[c].String?
    requires AreTotals(totals, table.schema.types[c], table.columns[c], offset)
    ensures Verdict(SumWithOffset(name, offset), table.schema) == Done
    ensures IsCast(AnswerOf(SumWithOffset(name, offset), table), totals[table.rows])
  {
    hide IntegerPart, OffsetSum;
    ColumnFound(table.schema, name, c);
    TotalsAre(totals, table.schema.types[c], table.columns[c], offset, table.rows);
    assert table.columns[c][..table.rows] == table.columns[c];
    CastIs(totals[table.rows]);
  }

  // An average is the total divided by the number of rows, toward zero; 0 without rows.
  lemma AverageAnswer(name: Bytes, table: Batch, c: nat, totals: seq<int>) returns (quotient: int)
    requires WellFormed(table) && IsColumn(table.schema, name, c) && !table.schema.types[c].String?
    requires AreTotals(totals, table.schema.types[c], table.columns[c], 0)
    ensures Verdict(Avg(name), table.schema) == Done
    ensures IsCast(AnswerOf(Avg(name), table), quotient)
    ensures var n, total := table.rows, totals[table.rows];
      if n == 0 then quotient == 0
      else if total >= 0 then n * quotient <= total < n * quotient + n
      else n * quotient - n < total <= n * quotient
  {
    hide IntegerPart, OffsetSum;
    ColumnFound(table.schema, name, c);
    TotalsAre(totals, table.schema.types[c], table.columns[c], 0, table.rows);
    assert table.columns[c][..table.rows] == table.columns[c];
    quotient := if table.rows == 0 then 0 else Quotient(totals[table.rows], table.rows);
    if table.rows > 0 {
      QuotientRoundsTowardZero(totals[table.rows], table.rows);
    }
    CastIs(quotient);
  }

  // A 64-bit word that agrees with n modulo 2^64, and is n where n fits.
  predicate IsCast(v: Value, n: int) {
    && v.Word? && -0x8000_0000_0000_0000 <= v.n < 0x8000_0000_0000_0000
    && (v.n - n) % 0x1_0000_0000_0000_0000 == 0
  }

  lemma CastIs(n: int)
    ensures IsCast(Word(ToInt64(n)), n)
    ensures -0x8000_0000_0000_0000 <= n < 0x8000_0000_0000_0000 ==> ToInt64(n) == n
  {
    var q := n / SIZE_LIMIT;
    DivModUnique(ToInt64(n) - n, SIZE_LIMIT, if n % SIZE_LIMIT < INT64_LIMIT then -q else -q - 1, 0);
  }

  // ------------------------------------------------------------------- extremes

  // The least element, the first of equal ones, NaNs passed over unless the first element is one.
  lemma MinimumAnswer(name: Bytes, table: Batch, c: nat) returns (i: nat)
    requires WellFormed(table) && IsColumn(table.schema, name, c)
    ensures Verdict(Min(name), table.schema) == Done
    ensures table.rows == 0 ==>
      AnswerOf(Min(name), table) == if table.schema.types[c].String? then Text([]) else Word(0)
    ensures table.rows > 0 ==>
      var t, column := table.schema.types[c], table.columns[c];
      && i < table.rows && AnswerOf(Min(name), table) == column[i]
      && (forall j :: 0 <= j < table.rows ==> CompareElements(t, column[i], column[j]) <= 0)
      && (forall j :: 0 <= j < i ==> IsNaN(t, column[j]) || CompareElements(t, column[i], column[j]) < 0)
      && (IsNaN(t, column[i]) <==> IsNaN(t, column[0]))
  {
    i := ExtremeAnswer(name, table, c, false);
  }

  // The greatest, likewise.
  lemma MaximumAnswer(name: Bytes, table: Batch, c: nat) returns (i: nat)
    requires WellFormed(table) && IsColumn(table.schema, name, c)
    ensures Verdict(Max(name), table.schema) == Done
    ensures table.rows == 0 ==>
      AnswerOf(Max(name), table) == if table.schema.types[c].String? then Text([]) else Word(0)
    ensures table.rows > 0 ==>
      var t, column := table.schema.types[c], table.columns[c];
      && i < table.rows && AnswerOf(Max(name), table) == column[i]
      && (forall j :: 0 <= j < table.rows ==> CompareElements(t, column[i], column[j]) >= 0)
      && (forall j :: 0 <= j < i ==> IsNaN(t, column[j]) || CompareElements(t, column[i], column[j]) > 0)
      && (IsNaN(t, column[i]) <==> IsNaN(t, column[0]))
  {
    i := ExtremeAnswer(name, table, c, true);
  }

  lemma ExtremeAnswer(name: Bytes, table: Batch, c: nat, greatest: bool) returns (i: nat)
    requires WellFormed(table) && IsColumn(table.schema, name, c)
    ensures var a := if greatest then Max(name) else Min(name);
      && Verdict(a, table.schema) == Done
      && (table.rows == 0 ==> AnswerOf(a, table) == if table.schema.types[c].String? then Text([]) else Word(0))
      && (table.rows > 0 ==>
            var t, column := table.schema.types[c], table.columns[c];
            && i < table.rows && AnswerOf(a, table) == column[i]
            && (forall j :: 0 <= j < table.rows ==> !Better(t, column[j], column[i], greatest))
            && (forall j :: 0 <= j < table.rows ==>
                  CompareElements(t, column[j], column[i]) == -CompareElements(t, column[i], column[j]))
            && (forall j :: 0 <= j < i ==> IsNaN(t, column[j]) || Better(t, column[i], column[j], greatest))
            && (IsNaN(t, column[i]) <==> IsNaN(t, column[0])))
  {
    hide Extreme, CompareElements, IsNaN;
    var a := if greatest then Max(name) else Min(name);
    var t, column := table.schema.types[c], table.columns[c];
    ColumnFound(table.schema, name, c);
    ExtremeIsBest(t, column, greatest);
    i := 0;
    if table.rows > 0 {
      i := ExtremeIsFirst(t, column, greatest);
      ExtremeIsNaN(t, column, greatest);
      forall j | 0 <= j < table.rows
        ensures CompareElements(t, column[j], column[i]) == -CompareElements(t, column[i], column[j])
      {
        ElementsReverse(t, column[i], column[j]);
      }
    }
  }

  lemma ElementsReverse(t: Type, a: Value, b: Value)
    ensures CompareElements(t, b, a) == -CompareElements(t, a, b)
  {
    hide Ranked, IsNaN;
    ValuesOrdered(Ranked(t, a), Ranked(t, b), Ranked(t, b));
  }
}
