/** What each bit of a flag word does to a column, and which candidate adaptive mode takes. */
module FlagWords {
  import opened Words
  import opened Values
  import opened Rle
  import opened Dict
  import opened Delta
  import opened Encoding
  import opened Lz4
  import opened Codecs

  // Bit 4 writes runs of strings, else bit 5 a dictionary; bit 6 packs.
  lemma StringSteps(v: seq<Value>, flags: nat)
    requires flags / 2048 % 2 == 0 && Encodable(String, v, flags)
    ensures ColumnBytes(String, v, flags) ==
      if flags / 16 % 2 == 1 then RleBytes(String, v, flags / 64 % 2 == 1)
      else if flags / 32 % 2 == 1 then DictBytes(String, v, flags / 64 % 2 == 1)
      else ValuesBytes(String, v)
  {
  }

  // Bit 8 writes a dictionary of floats, else bit 7 runs; bit 9 packs.
  lemma FloatSteps(t: Type, v: seq<Value>, flags: nat)
    requires (t.Float? || t.Double?) && flags / 2048 % 2 == 0 && Encodable(t, v, flags)
    ensures ColumnBytes(t, v, flags) ==
      if flags / 256 % 2 == 1 then DictBytes(t, v, flags / 512 % 2 == 1)
      else if flags / 128 % 2 == 1 then RleBytes(t, v, flags / 512 % 2 == 1)
      else ValuesBytes(t, v)
  {
  }

  // Bit 1 takes differences first; bit 2 writes a dictionary of integers, else bit 0 runs; bit 3 packs.
  lemma IntegerSteps(t: Type, v: seq<Value>, flags: nat)
    requires !t.String? && !t.Int128? && !t.Float? && !t.Double? && flags / 2048 % 2 == 0 && Encodable(t, v, flags)
    ensures
      var delta, packed := flags / 2 % 2 == 1, flags / 8 % 2 == 1;
      var base := if delta then Differences(t, v) else v;
      && InMemory(t, base)
      && ColumnBytes(t, v, flags) ==
           if flags / 4 % 2 == 1 then DictBytes(t, base, packed)
           else if flags % 2 == 1 then RleBytes(t, base, packed)
           else if delta then DeltaBytes(t, v, packed)
           else if packed && v != [] then PackedValues(t, v)
           else ValuesBytes(t, v)
  {
    hide DictBytes, RleBytes, DeltaBytes, PackedValues, ValuesBytes, Differences, HasType;
    assert InMemory(t, Base(t, v, ModeOf(t, flags)));
  }

  // Bit 11 lets the encoder choose: the flags chosen, then what they alone would give.
  lemma AdaptiveSteps(t: Type, v: seq<Value>, flags: nat)
    requires flags / 2048 % 2 == 1 && Encodable(t, v, flags)
    ensures var chosen := Best(t, v).flags;
      && chosen < 1024 && Encodable(t, v, chosen)
      && ColumnBytes(t, v, flags) == ToBytes(chosen, 8) + ColumnBytes(t, v, chosen)
  {
    hide ModeOf, PlainBytes, HasType;
    BestUpToSize(t, v, |Candidates(t)|);
    SmallFlagsSuit(t, v, Best(t, v).flags);
  }

  lemma SmallFlagsSuit(t: Type, v: seq<Value>, flags: nat)
    requires SuitsAdaptive(t, v) && flags < 1024
    ensures !HasFlag(flags, FLAG_ADAPTIVE) && Suits(t, v, ModeOf(t, flags)) && Encodable(t, v, flags)
    ensures PlainSize(t, v, flags) == |ColumnBytes(t, v, flags)|
  {
    hide PlainBytes;
  }

  // Bit 10 puts the LZ4 step on top.
  lemma Lz4Steps(library: Library, t: Type, v: seq<Value>, flags: nat)
    requires Encodable(t, v, flags)
    ensures StoredBytes(library, t, v, flags) ==
      if flags / 1024 % 2 == 1 then Compressed(library, ColumnBytes(t, v, flags)) else Some(ColumnBytes(t, v, flags))
  {
    hide ColumnBytes, Compressed;
  }

  // The flag words tried, in this order.
  predicate Tried(t: Type, tried: seq<nat>) {
    if t.String? then tried == [0, 16, 80, 32, 96]
    else if t.Float? || t.Double? then tried == [0, 128, 640, 256, 768]
    else tried == [0, 8, 10, 1, 9, 3, 11, 4, 12, 6, 14]
  }

  // The first one tried that has the shortest encoding is taken.
  lemma FirstShortestIsTaken(t: Type, v: seq<Value>, tried: seq<nat>) returns (k: nat)
    requires SuitsAdaptive(t, v) && Tried(t, tried)
    ensures k < |tried| && Best(t, v).flags == tried[k]
    ensures forall i :: 0 <= i < |tried| ==> Encodable(t, v, tried[i])
    ensures forall i :: 0 <= i < k ==> |ColumnBytes(t, v, tried[i])| > |ColumnBytes(t, v, tried[k])|
    ensures forall i :: k <= i < |tried| ==> |ColumnBytes(t, v, tried[i])| >= |ColumnBytes(t, v, tried[k])|
  {
    hide ColumnBytes, PlainBytes, PlainSize, BestUpTo, Encodable;
    TriedAreCandidates(t, tried);
    k := FirstShortest(t, v, tried, |Candidates(t)|);
    forall i | 0 <= i < |tried|
      ensures Encodable(t, v, tried[i]) && PlainSize(t, v, tried[i]) == |ColumnBytes(t, v, tried[i])|
    {
      SmallFlagsSuit(t, v, tried[i]);
    }
  }

  lemma TriedAreCandidates(t: Type, tried: seq<nat>)
    requires Tried(t, tried)
    ensures tried == [0] + Candidates(t)
    ensures forall i :: 0 <= i < |tried| ==> tried[i] < 1024
  {
  }

  lemma {:induction false} FirstShortest(t: Type, v: seq<Value>, tried: seq<nat>, n: nat) returns (k: nat)
    requires SuitsAdaptive(t, v) && tried == [0] + Candidates(t) && n <= |Candidates(t)|
    ensures k <= n && BestUpTo(t, v, n) == Candidate(tried[k], PlainSize(t, v, tried[k]))
    ensures forall i :: 0 <= i < k ==> PlainSize(t, v, tried[i]) > PlainSize(t, v, tried[k])
    ensures forall i :: k <= i <= n ==> PlainSize(t, v, tried[i]) >= PlainSize(t, v, tried[k])
    decreases n
  {
    hide PlainSize, Candidates;
    if n == 0 {
      k := 0;
    } else {
      k := FirstShortest(t, v, tried, n - 1);
      assert tried[n] == Candidates(t)[n - 1];
      if PlainSize(t, v, tried[n]) < PlainSize(t, v, tried[k]) {
        k := n;
      }
    }
  }
}
