/** Group columns, row keys, and the pass that lists every group's rows. */
module GroupBy {
  import opened Words
  import opened Values
  import opened Tables
  import opened Grouping
  import D = Distinct

  // ------------------------------------------------------------ group columns

  predicate HasColumns(schema: Schema, names: seq<Bytes>) {
    forall i :: 0 <= i < |names| ==> ColumnIndex(schema.names, names[i]) < |schema.names|
  }

  function Places(schema: Schema, names: seq<Bytes>): (places: seq<nat>)
    requires HasColumns(schema, names)
    ensures |places| == |names| && forall c :: 0 <= c < |places| ==> places[c] < |schema.names|
  {
    seq(|names|, i requires 0 <= i < |names| => ColumnIndex(schema.names, names[i]))
  }

  function PlaceTypes(schema: Schema, places: seq<nat>): (types: seq<Type>)
    requires schema.Valid() && forall c :: 0 <= c < |places| ==> places[c] < |schema.names|
    ensures |types| == |places|
  {
    Pick(schema.types, places)
  }

  predicate Inside(table: Batch, places: seq<nat>) {
    WellFormed(table) && forall c :: 0 <= c < |places| ==> places[c] < |table.columns|
  }

  // Each row's values in the group columns.
  function GroupValues(table: Batch, places: seq<nat>): (gs: seq<Row>)
    requires Inside(table, places)
    ensures |gs| == table.rows
    ensures forall i :: 0 <= i < |gs| ==> Typed(PlaceTypes(table.schema, places), gs[i])
  {
    seq(table.rows, i requires 0 <= i < table.rows => Pick(RowAt(table, i), places))
  }

  // The groups, in the order in which their first rows come.
  function GroupsOf(table: Batch, places: seq<nat>): (groups: seq<Row>)
    requires Inside(table, places)
    ensures forall g :: 0 <= g < |groups| ==> |groups[g]| == |places|
  {
    D.DistinctFacts(GroupValues(table, places));
    D.Distinct(GroupValues(table, places))
  }

  method AppendToKey(key: Bytes, column: seq<Value>, t: Type, index: nat) returns (key': Bytes)
    requires AllTyped(t, column) && index < |column| && !t.Int128?
    ensures key' == key + ElementBytes(t, column[index])
  {
    if t.String? {
      var s := column[index].s;
      ConcatAssociates(key, ToBytes(|s|, SIZE_BYTES), s);
      key' := key + ToBytes(|s|, SIZE_BYTES);
      key' := key' + s;
    } else {
      key' := key + ToBytes(AsUnsigned(column[index].n, Width(t)), Width(t));
    }
  }

  method RowKey(table: Batch, places: seq<nat>, types: seq<Type>, row: nat) returns (key: Bytes)
    requires Inside(table, places) && types == PlaceTypes(table.schema, places) && row < table.rows
    ensures key == KeyBytes(types, GroupValues(table, places)[row])
  {
    hide ElementBytes, HasType;
    key := [];
    ghost var vs := GroupValues(table, places)[row];
    for i := 0 to |places|
      invariant Typed(types[..i], vs[..i]) && key == KeyBytes(types[..i], vs[..i])
    {
      assert types[..i + 1][..i] == types[..i] && vs[..i + 1][..i] == vs[..i];
      key := AppendToKey(key, table.columns[places[i]], types[i], row);
    }
    assert types[..|places|] == types && vs[..|places|] == vs;
  }

  // -------------------------------------------------------------- the row lists

  predicate AllTypedRows(types: seq<Type>, rows: seq<Row>) {
    forall i :: 0 <= i < |rows| ==> Typed(types, rows[i])
  }

  // The hash map sends the key of every group to the group's number, and has no other keys.
  ghost predicate Indexed(groups: seq<Row>, types: seq<Type>, keyToIndex: map<Bytes, nat>) {
    && AllTypedRows(types, groups)
    && (forall g :: 0 <= g < |groups| ==> KeyBytes(types, groups[g]) in keyToIndex)
    && forall k :: k in keyToIndex ==> keyToIndex[k] < |groups| && KeyBytes(types, groups[keyToIndex[k]]) == k
  }

  // Every group has its first row and the list of its rows.
  ghost predicate Listed(gs: seq<Row>, first: seq<nat>, lists: seq<seq<nat>>) {
    var groups := D.Distinct(gs);
    && |first| == |lists| == |groups|
    && forall g :: 0 <= g < |groups| ==>
         lists[g] == Matching(gs, groups[g]) && |lists[g]| > 0 && first[g] == lists[g][0]
  }

  lemma MatchingNext(gs: seq<Row>, n: nat, v: Row)
    requires n < |gs|
    ensures Matching(gs[..n + 1], v) == if gs[n] == v then Matching(gs[..n], v) + [n] else Matching(gs[..n], v)
  {
    assert gs[..n + 1][..n] == gs[..n];
  }

  lemma {:induction false} NoneMatch(gs: seq<Row>, v: Row)
    requires v !in D.Distinct(gs)
    ensures Matching(gs, v) == []
  {
    if |gs| > 0 {
      NoneMatch(gs[..|gs| - 1], v);
    }
  }

  lemma NewGroup(gs: seq<Row>, n: nat, first: seq<nat>, lists: seq<seq<nat>>)
    requires n < |gs| && Listed(gs[..n], first, lists) && gs[n] !in D.Distinct(gs[..n])
    ensures Listed(gs[..n + 1], first + [n], lists + [[n]])
  {
    hide Matching;
    var groups := D.Distinct(gs[..n]);
    D.DistinctNext(gs, n);
    NoneMatch(gs[..n], gs[n]);
    forall g | 0 <= g <= |groups|
      ensures Matching(gs[..n + 1], D.Distinct(gs[..n + 1])[g]) == (lists + [[n]])[g]
    {
      MatchingNext(gs, n, D.Distinct(gs[..n + 1])[g]);
    }
  }

  lemma OldGroup(gs: seq<Row>, n: nat, first: seq<nat>, lists: seq<seq<nat>>, index: nat)
    requires n < |gs| && Listed(gs[..n], first, lists)
    requires index < |lists| && gs[n] == D.Distinct(gs[..n])[index]
    ensures Listed(gs[..n + 1], first, lists[index := lists[index] + [n]])
    ensures D.Distinct(gs[..n + 1]) == D.Distinct(gs[..n])
  {
    hide Matching, D.Distinct;
    var groups := D.Distinct(gs[..n]);
    D.DistinctNext(gs, n);
    D.DistinctFacts(gs[..n]);
    forall g | 0 <= g < |groups|
      ensures Matching(gs[..n + 1], groups[g]) == lists[index := lists[index] + [n]][g]
    {
      MatchingNext(gs, n, groups[g]);
    }
  }

  // The key tells whether the group is new, and if not, which it is.
  lemma KeyFindsGroup(groups: seq<Row>, types: seq<Type>, keyToIndex: map<Bytes, nat>, v: Row)
    requires Indexed(groups, types, keyToIndex) && Typed(types, v)
    ensures var key := KeyBytes(types, v);
      && (key in keyToIndex <==> v in groups)
      && (key in keyToIndex ==> groups[keyToIndex[key]] == v)
      && (key !in keyToIndex ==> Indexed(groups + [v], types, keyToIndex[key := |groups|]))
  {
    hide KeyBytes, Typed;
    var key := KeyBytes(types, v);
    if key in keyToIndex {
      KeyIsInjective(types, groups[keyToIndex[key]], v);
    }
  }

  method BuildGroups(table: Batch, places: seq<nat>, types: seq<Type>)
    returns (first: seq<nat>, lists: seq<seq<nat>>)
    requires Inside(table, places) && types == PlaceTypes(table.schema, places)
    ensures Listed(GroupValues(table, places), first, lists)
  {
    hide GroupValues, KeyBytes, Matching, Typed, WellFormed, D.Distinct, Listed, Indexed;
    ghost var gs := GroupValues(table, places);
    var keyToIndex: map<Bytes, nat> := map[];
    first, lists := [], [];
    NothingGrouped(gs[..0], types);
    for row := 0 to table.rows
      invariant Listed(gs[..row], first, lists) && |first| == |D.Distinct(gs[..row])|
      invariant Indexed(D.Distinct(gs[..row]), types, keyToIndex)
    {
      var key := RowKey(table, places, types, row);
      ListedSizes(gs[..row], first, lists);
      KeyFindsGroup(D.Distinct(gs[..row]), types, keyToIndex, gs[row]);
      D.DistinctNext(gs, row);
      if key !in keyToIndex {
        NewGroup(gs, row, first, lists);
        keyToIndex := keyToIndex[key := |first|];
        first := first + [row];
        lists := lists + [[row]];
      } else {
        var index := keyToIndex[key];
        IndexInRange(D.Distinct(gs[..row]), types, keyToIndex, key);
        OldGroup(gs, row, first, lists, index);
        lists := lists[index := lists[index] + [row]];
      }
    }
    assert gs[..table.rows] == gs;
  }

  lemma NothingGrouped(gs: seq<Row>, types: seq<Type>)
    requires gs == []
    ensures D.Distinct(gs) == [] && Listed(gs, [], []) && Indexed(D.Distinct(gs), types, map[])
  {
  }

  lemma ListedSizes(gs: seq<Row>, first: seq<nat>, lists: seq<seq<nat>>)
    requires Listed(gs, first, lists)
    ensures |first| == |lists| == |D.Distinct(gs)|
  {
  }

  lemma IndexInRange(groups: seq<Row>, types: seq<Type>, keyToIndex: map<Bytes, nat>, key: Bytes)
    requires Indexed(groups, types, keyToIndex) && key in keyToIndex
    ensures keyToIndex[key] < |groups|
  {
  }
}
