/** The layout each encoding step writes, and where its runs begin. */
module Steps {
  import opened Words
  import opened BitPack
  import opened Values
  import opened Floats
  import opened PackedWords
  import opened Images
  import opened Rle
  import opened Dict
  import opened Delta

  // --------------------------------------------------------------------- delta

  // Unpacked, the differences lie one behind the other.
  lemma RawDeltaLayout(t: Type, v: seq<Value>, i: nat, at: nat)
    requires IsWord(t) && AllTyped(t, v) && i < |v| && at == i * Width(t)
    ensures |DeltaBytes(t, v, false)| == |v| * Width(t) && at + Width(t) <= |DeltaBytes(t, v, false)|
    ensures DeltaBytes(t, v, false)[at..at + Width(t)] == ElementBytes(t, Differences(t, v)[i])
  {
    hide ElementBytes, ValuesBytes, PackedValues, Differences, HasType;
    var d := Differences(t, v);
    ValueImage(t, d, i);
    FixedValuesSize(t, d);
    FixedImage(t, d[i]);
  }

  // The differences from the second on, as the packer sees them.
  function LaterDifferences(t: Type, v: seq<Value>): (us: seq<nat>)
    requires IsWord(t) && AllTyped(t, v) && |v| > 1
    ensures |us| == |v| - 1 && AllBelow(us, SIZE_LIMIT)
  {
    Unsigned(t, Differences(t, v)[1..])
  }

  // Packed, the first element, the least width that holds the others as unsigned differences, and these packed.
  lemma PackedDeltaLayout(t: Type, v: seq<Value>)
    requires IsWord(t) && AllTyped(t, v) && |v| > 1
    ensures var us := LaterDifferences(t, v);
      DeltaBytes(t, v, true) == ElementBytes(t, v[0]) + [WidthByte(us)] + PackBits(us, WidthByte(us))
  {
    hide ElementBytes, ValuesBytes, PackBits, HasType, WidthByte, Unsigned, Pow2;
    var us := LaterDifferences(t, v);
    ConcatAssociates(ElementBytes(t, v[0]), [WidthByte(us)], PackBits(us, WidthByte(us)));
  }

  // Number i of these is v[i + 1] - v[i] modulo 2^(8w).
  lemma LaterDifferenceIs(t: Type, v: seq<Value>, i: nat)
    requires IsWord(t) && AllTyped(t, v) && |v| > i + 1
    ensures LaterDifferences(t, v)[i] == (v[i + 1].n - v[i].n) % Pow2(8 * Width(t))
  {
    hide Pow2, Minus, AsUnsigned, LaterDifferences;
    var w, d := Width(t), Differences(t, v)[i + 1].n;
    LaterDifferenceAt(t, v, i);
    DifferencesAre(t, v, i + 1);
    UnsignedIsModulo(d, w);
    SameRemainder(d, v[i + 1].n - v[i].n, Pow2(8 * w));
  }

  lemma LaterDifferenceAt(t: Type, v: seq<Value>, i: nat)
    requires IsWord(t) && AllTyped(t, v) && |v| > i + 1
    ensures LaterDifferences(t, v)[i] == AsUnsigned(Differences(t, v)[i + 1].n, Width(t))
  {
    hide AsUnsigned;
  }

  lemma SameRemainder(a: int, b: int, p: nat)
    requires p > 0 && (a - b) % p == 0
    ensures a % p == b % p
  {
    var k := (a - b) / p;
    assert a == (k + b / p) * p + b % p;
    DivModUnique(a, p, k + b / p, b % p);
  }

  lemma FixedImage(t: Type, v: Value)
    requires HasType(t, v) && !t.String?
    ensures |ElementBytes(t, v)| == Width(t)
  {
  }

  // ---------------------------------------------------------------------- runs

  // Run i begins where the runs before it end, and holds elements equal to its first.
  lemma {:induction false} RunBegins<T, U>(ls: seq<T>, v: seq<U>, i: nat)
    requires |ls| == |v| && i < |RunCounts(ls)|
    ensures var at, n := Sum(RunCounts(ls)[..i]), RunCounts(ls)[i];
      && at + n <= |v| && n > 0 && RunHeads(ls, v)[i] == v[at]
      && forall k :: at <= k < at + n ==> ls[k] == ls[at]
    decreases i
  {
    var first := RunLength(ls);
    FirstRun(ls, first, ls[first..]);
    FirstHead(ls, v, first);
    if i > 0 {
      RunBegins(ls[first..], v[first..], i - 1);
      LaterRun(ls, first, RunCounts(ls), RunCounts(ls[first..]), i);
    } else {
      assert RunCounts(ls)[..0] == [];
    }
  }

  lemma LaterRun<T>(ls: seq<T>, first: nat, counts: seq<nat>, tail: seq<nat>, i: nat)
    requires first <= |ls| && counts == [first] + tail && 0 < i < |counts|
    requires var at, n := Sum(tail[..i - 1]), tail[i - 1];
      at + n <= |ls[first..]| && forall k :: at <= k < at + n ==> ls[first..][k] == ls[first..][at]
    ensures Sum(counts[..i]) == first + Sum(tail[..i - 1]) && counts[i] == tail[i - 1]
    ensures var at, n := Sum(counts[..i]), counts[i];
      at + n <= |ls| && forall k :: at <= k < at + n ==> ls[k] == ls[at]
  {
    assert counts[..i][0] == first && counts[..i][1..] == tail[..i - 1];
    var at, n := Sum(counts[..i]), counts[i];
    forall k | at <= k < at + n
      ensures ls[k] == ls[at]
    {
      assert ls[first..][k - first] == ls[k];
    }
  }

  lemma RunIs(t: Type, v: seq<Value>, i: nat)
    requires i < |RunCounts(Labels(t, v))|
    ensures var counts := RunCounts(Labels(t, v));
      var at, n := Sum(counts[..i]), counts[i];
      && at + n <= |v| && n > 0 && RunHeads(Labels(t, v), v)[i] == v[at]
      && forall k :: at < k < at + n ==> Equal(t, v[k], v[at])
  {
    hide Labels, Equal, RunHeads, RunCounts, RunLength;
    var ls, counts := Labels(t, v), RunCounts(Labels(t, v));
    RunBegins(ls, v, i);
    var at, n := Sum(counts[..i]), counts[i];
    forall k | at < k < at + n
      ensures Equal(t, v[k], v[at])
    {
      LabelsAreEquality(t, v, k, at);
    }
  }

  // Eight bytes of run count, the run values, then the counts: eight bytes each, or a width byte and packed.
  lemma RleLayout(t: Type, v: seq<Value>)
    requires InMemory(t, v)
    ensures var heads, counts := RunHeads(Labels(t, v), v), RunCounts(Labels(t, v));
      && AllTyped(t, heads) && AllBelow(counts, SIZE_LIMIT)
      && var values := ValuesBytes(t, heads);
         var at := 8 + |values|;
         var raw, packed := RleBytes(t, v, false), RleBytes(t, v, true);
         && raw == ToBytes(|heads|, 8) + values + RawWords(counts, 8)
         && (v != [] ==> packed == ToBytes(|heads|, 8) + values + [WidthByte(counts)]
                                   + PackBits(counts, WidthByte(counts)))
         && (v == [] ==> packed == raw)
  {
    hide PackBits, ToBytes, ValuesBytes, HasType, WidthByte;
    CountsFit(t, v);
    RunsAreMaximal(Labels(t, v));
    var heads, counts := RunHeads(Labels(t, v), v), RunCounts(Labels(t, v));
    if v != [] {
      ConcatAssociates(ToBytes(|heads|, 8) + ValuesBytes(t, heads), [WidthByte(counts)],
                       PackBits(counts, WidthByte(counts)));
    }
  }

  // --------------------------------------------------------------- dictionaries

  // Eight bytes of entry count, the entries, then the codes: four bytes each, or a width byte and packed.
  lemma DictLayout(t: Type, v: seq<Value>)
    requires InMemory(t, v)
    ensures var entries, codes := Dictionary(t, v), Codes(t, v);
      && AllTyped(t, entries) && |entries| < SIZE_LIMIT
      && var values := ValuesBytes(t, entries);
         var raw, packed := DictBytes(t, v, false), DictBytes(t, v, true);
         && raw == ToBytes(|entries|, 8) + values + RawWords(codes, 4)
         && (v != [] ==> packed == ToBytes(|entries|, 8) + values + [CodeBits(|entries|)]
                                   + PackBits(codes, CodeBits(|entries|)))
         && (v == [] ==> packed == raw)
  {
    hide PackBits, ToBytes, ValuesBytes, HasType, CodeBits, Codes;
    DictionaryTyped(t, v);
    var entries, codes := Dictionary(t, v), Codes(t, v);
    if v != [] {
      ConcatAssociates(ToBytes(|entries|, 8) + ValuesBytes(t, entries), [CodeBits(|entries|)],
                       PackBits(codes, CodeBits(|entries|)));
    }
  }
}
