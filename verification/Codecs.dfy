/** Encoding and decoding of whole columns: adaptive flags stored in front, dispatch by type, and LZ4 on top. */
module Codecs {
  import opened Words
  import opened BitPack
  import opened Values
  import opened Floats
  import opened PackedWords
  import opened Rle
  import opened Dict
  import opened Delta
  import opened Encoding
  import opened Lz4
  import D = Distinct

  // What the engine asks of a column: no 128-bit elements, and an element where DoDelta runs.
  predicate Encodable(t: Type, v: seq<Value>, flags: nat) {
    if HasFlag(flags, FLAG_ADAPTIVE) then SuitsAdaptive(t, v) else Suits(t, v, ModeOf(t, flags))
  }

  function UsedMode(t: Type, v: seq<Value>, flags: nat): (mode: Mode)
    requires Encodable(t, v, flags)
    ensures Suits(t, v, mode)
  {
    ModeOf(t, if HasFlag(flags, FLAG_ADAPTIVE) then Best(t, v).flags else flags)
  }

  function ColumnBytes(t: Type, v: seq<Value>, flags: nat): Bytes
    requires Encodable(t, v, flags)
  {
    var body := PlainBytes(t, v, UsedMode(t, v, flags));
    if HasFlag(flags, FLAG_ADAPTIVE) then ToBytes(Best(t, v).flags, SIZE_BYTES) + body else body
  }

  // None where the engine would read out of bounds.
  function ParseColumn(t: Type, bs: Bytes, size: nat, flags: nat): Option<seq<Value>>
    requires !t.Int128?
  {
    if HasFlag(flags, FLAG_ADAPTIVE) then
      if |bs| < SIZE_BYTES then None
      else ParsePlain(t, bs[SIZE_BYTES..], size, ModeOf(t, FromBytes(bs[..SIZE_BYTES])))
    else ParsePlain(t, bs, size, ModeOf(t, flags))
  }

  // What decoding a column's own encoding returns; the column itself, if it survives.
  function Reread(t: Type, v: seq<Value>, flags: nat): (r: seq<Value>)
    requires Encodable(t, v, flags)
    ensures ParseColumn(t, ColumnBytes(t, v, flags), |v|, flags) == Some(r)
    ensures |r| == |v| && AllTyped(t, r)
  {
    ColumnDecodes(t, v, flags);
    ParseColumn(t, ColumnBytes(t, v, flags), |v|, flags).value
  }

  lemma ColumnDecodes(t: Type, v: seq<Value>, flags: nat)
    requires Encodable(t, v, flags)
    ensures ParseColumn(t, ColumnBytes(t, v, flags), |v|, flags)
         == ParsePlain(t, PlainBytes(t, v, UsedMode(t, v, flags)), |v|, UsedMode(t, v, flags))
    ensures var r := ParseColumn(t, ColumnBytes(t, v, flags), |v|, flags);
            r.Some? && |r.value| == |v| && AllTyped(t, r.value)
  {
    hide PlainBytes, ParsePlain;
    AlwaysDecodes(t, v, UsedMode(t, v, flags));
    if HasFlag(flags, FLAG_ADAPTIVE) {
      BestFlagsAreSmall(t, v);
      SizeRoundTrip(Best(t, v).flags);
      DropPrefix(ToBytes(Best(t, v).flags, SIZE_BYTES), PlainBytes(t, v, UsedMode(t, v, flags)));
    }
  }

  lemma BestFlagsAreSmall(t: Type, v: seq<Value>)
    requires SuitsAdaptive(t, v)
    ensures Best(t, v).flags < SIZE_LIMIT
  {
    BestIsLeast(t, v, 0);
  }

  // Decoding with the column's type, length and flags restores it for every flag word, exactly when the column
  // survives the steps used: a dictionary has no more entries than a code can number, and no zero loses its sign.
  lemma ColumnRoundTrip(t: Type, v: seq<Value>, flags: nat)
    requires Encodable(t, v, flags)
    ensures ParseColumn(t, ColumnBytes(t, v, flags), |v|, flags) == Some(v)
       <==> Survives(t, v, UsedMode(t, v, flags))
  {
    hide ColumnBytes, ParseColumn, PlainBytes, ParsePlain, Survives;
    PlainRoundTrip(t, v, UsedMode(t, v, flags));
    ColumnDecodes(t, v, flags);
  }

  // So every column of at most 2^32 values without both zeros comes back, whatever the flags and whatever adaptive
  // mode chooses; only floats have two zeros.
  lemma ShortColumnRoundTrip(t: Type, v: seq<Value>, flags: nat)
    requires Encodable(t, v, flags) && |v| <= 0x1_0000_0000 && ZerosAgree(t, v)
    ensures ParseColumn(t, ColumnBytes(t, v, flags), |v|, flags) == Some(v)
  {
    hide ColumnBytes, ParseColumn, Dictionary, PlacesSurvive;
    ColumnRoundTrip(t, v, flags);
    var mode := UsedMode(t, v, flags);
    var base := Base(t, v, mode);
    DictionaryTyped(t, base);
    PlacesSurviveExactly(t, base);
    if !IsFloat(t) {
      OneWordExactly(t, base);
      SteadyExactly(t, base);
    }
  }

  lemma WordsHaveOneZero(t: Type, v: seq<Value>)
    requires AllTyped(t, v) && !IsFloat(t)
    ensures ZerosAgree(t, v)
  {
    OneWordExactly(t, v);
  }

  // A column that does not: one number more than there are codes, as a dictionary of 64-bit integers.
  lemma LongColumnIsLost(v: seq<Value>)
    requires |v| == 0x1_0000_0001 && forall i :: 0 <= i < |v| ==> v[i] == Word(i)
    ensures Encodable(Int64, v, FLAG_DICT_INT)
    ensures ParseColumn(Int64, ColumnBytes(Int64, v, FLAG_DICT_INT), |v|, FLAG_DICT_INT) != Some(v)
  {
    hide ColumnBytes, ParseColumn, ModeOf, ValuesBytes, Labels, Dictionary;
    LongColumnInMemory(v);
    DictionaryFlag(Int64, FLAG_DICT_INT);
    LongDictionary(v);
    ColumnRoundTrip(Int64, v, FLAG_DICT_INT);
    SurvivesExactly(Int64, v, Mode(true, false, false, false));
  }

  lemma LongDictionary(v: seq<Value>)
    requires forall i :: 0 <= i < |v| ==> v[i] == Word(i)
    ensures |Dictionary(Int64, v)| == |v|
  {
    hide Entries, D.Distinct;
    D.DistinctOfUnique(Labels(Int64, v));
  }

  lemma LongColumnInMemory(v: seq<Value>)
    requires |v| == 0x1_0000_0001 && forall i :: 0 <= i < |v| ==> v[i] == Word(i)
    ensures InMemory(Int64, v)
  {
    hide Pow2, ValuesBytes;
    Pow2Literals();
    FixedValuesSize(Int64, v);
  }

  lemma DictionaryFlag(t: Type, flag: nat)
    requires (t == Int64 && flag == FLAG_DICT_INT) || (t == Float && flag == FLAG_DICT_FLOAT)
    ensures ModeOf(t, flag) == Mode(true, false, false, false) && !HasFlag(flag, FLAG_ADAPTIVE)
  {
  }

  // There is such a column.
  lemma SomeColumnIsLost() returns (v: seq<Value>)
    ensures Encodable(Int64, v, FLAG_DICT_INT)
    ensures ParseColumn(Int64, ColumnBytes(Int64, v, FLAG_DICT_INT), |v|, FLAG_DICT_INT) != Some(v)
  {
    v := seq(0x1_0000_0001, i requires 0 <= i => Word(i));
    LongColumnIsLost(v);
  }

  // And a short column of floats that does not: 0.0 and -0.0 become one entry, and both come back as 0.0.
  lemma SignOfZeroIsLost(v: seq<Value>)
    requires v == [Word(0), Word(-0x8000_0000)]
    ensures Encodable(Float, v, FLAG_DICT_FLOAT)
    ensures ParseColumn(Float, ColumnBytes(Float, v, FLAG_DICT_FLOAT), |v|, FLAG_DICT_FLOAT) != Some(v)
  {
    hide ColumnBytes, ParseColumn, ModeOf, ValuesBytes, PlacesSurvive, Pow2;
    Pow2Literals();
    DictionaryFlag(Float, FLAG_DICT_FLOAT);
    FixedValuesSize(Float, v);
    assert IsZero(Float, v[0]) && IsZero(Float, v[1]);
    ColumnRoundTrip(Float, v, FLAG_DICT_FLOAT);
  }

  // The adaptive encoding is its flag word plus the shortest of all plain encodings.
  lemma AdaptiveIsOptimal(t: Type, v: seq<Value>, adaptive: nat, flags: nat)
    requires SuitsAdaptive(t, v) && HasFlag(adaptive, FLAG_ADAPTIVE)
    ensures |ColumnBytes(t, v, adaptive)| == SIZE_BYTES + PlainSize(t, v, Best(t, v).flags)
    ensures |ColumnBytes(t, v, adaptive)| <= SIZE_BYTES + PlainSize(t, v, flags)
    ensures !HasFlag(flags, FLAG_ADAPTIVE) ==> PlainSize(t, v, flags) == |ColumnBytes(t, v, flags)|
  {
    BestIsLeast(t, v, flags);
  }

  // ------------------------------------------------------------- with LZ4 on top

  // The flags of a file, and the LZ4 library the program is linked with.
  datatype Codec = Codec(flags: nat, library: Library)

  // None is the exception of the LZ4 step.
  function StoredBytes(library: Library, t: Type, v: seq<Value>, flags: nat): Option<Bytes>
    requires Encodable(t, v, flags)
  {
    if HasFlag(flags, FLAG_LZ4) then Compressed(library, ColumnBytes(t, v, flags))
    else Some(ColumnBytes(t, v, flags))
  }

  // None is that exception, or a read out of bounds.
  function ParseStored(library: Library, t: Type, bs: Bytes, size: nat, flags: nat): Option<seq<Value>>
    requires !t.Int128?
  {
    if HasFlag(flags, FLAG_LZ4) then
      match Decompressed(library, bs)
      case None => None
      case Some(plain) => ParseColumn(t, plain, size, flags)
    else ParseColumn(t, bs, size, flags)
  }

  // The LZ4 step, where it is used, takes no more bytes than its library.
  predicate Compressible(t: Type, v: seq<Value>, flags: nat)
    requires Encodable(t, v, flags)
  {
    HasFlag(flags, FLAG_LZ4) ==> |ColumnBytes(t, v, flags)| <= MAX_INPUT
  }

  // Then storing does not throw, and reading returns what decoding the column's own encoding does.
  lemma StoredRoundTrip(library: Library, t: Type, v: seq<Value>, flags: nat)
    requires Encodable(t, v, flags) && Compressible(t, v, flags) && Sound(library)
    ensures var stored := StoredBytes(library, t, v, flags);
      && stored.Some?
      && ParseStored(library, t, stored.value, |v|, flags) == Some(Reread(t, v, flags))
    ensures Reread(t, v, flags) == v <==> Survives(t, v, UsedMode(t, v, flags))
  {
    hide ColumnBytes, ParseColumn, Compressed, Decompressed, Survives;
    ColumnRoundTrip(t, v, flags);
    if HasFlag(flags, FLAG_LZ4) {
      Lz4RoundTrip(library, ColumnBytes(t, v, flags));
    }
  }

  // --------------------------------------------------------- choosing the flags

  method ChooseBestFlags(bestFlags: nat, bestSize: nat, flags: nat, size: nat)
    returns (bestFlags': nat, bestSize': nat)
    ensures bestSize' <= bestSize && bestSize' <= size
    ensures Candidate(bestFlags', bestSize') in {Candidate(bestFlags, bestSize), Candidate(flags, size)}
    ensures size == bestSize ==> bestFlags' == bestFlags
  {
    bestFlags', bestSize' := bestFlags, bestSize;
    if size < bestSize {
      bestSize' := size;
      bestFlags' := flags;
    }
  }

  // An estimate is as good as the real length where it leads to the same choice.
  predicate Estimates(t: Type, v: seq<Value>, best: Candidate, flags: nat, size: nat)
    requires SuitsAdaptive(t, v)
  {
    Choose(best, flags, size) == Choose(best, flags, PlainSize(t, v, flags))
  }

  method ConsiderCandidate(t: Type, v: seq<Value>, k: nat, bestFlags: nat, bestSize: nat, flags: nat, size: nat)
    returns (bestFlags': nat, bestSize': nat)
    requires SuitsAdaptive(t, v) && k < |Candidates(t)| && Candidates(t)[k] == flags
    requires Candidate(bestFlags, bestSize) == BestUpTo(t, v, k)
    requires Estimates(t, v, BestUpTo(t, v, k), flags, size)
    ensures Candidate(bestFlags', bestSize') == BestUpTo(t, v, k + 1)
  {
    bestFlags', bestSize' := ChooseBestFlags(bestFlags, bestSize, flags, size);
  }

  // Runs of the vector or of its differences, without and with bit packing.
  method ConsiderRuns(t: Type, v: seq<Value>, base: seq<Value>, k: nat, next: nat, delta: bool,
      bestFlags: nat, bestSize: nat, flags: nat, packedFlags: nat)
    returns (bestFlags': nat, bestSize': nat)
    requires SuitsAdaptive(t, v) && (delta ==> IsInteger(t)) && base == if delta then Differences(t, v) else v
    requires IsPair(t, k, next, flags, packedFlags, Mode(false, true, delta, false))
    requires Candidate(bestFlags, bestSize) == BestUpTo(t, v, k)
    ensures Candidate(bestFlags', bestSize') == BestUpTo(t, v, next)
  {
    hide RleBytes, DictBytes, DeltaBytes, ModeOf, Candidates, BestUpTo, InMemory, Differences, HasType;
    assert base == Base(t, v, ModeOf(t, flags));
    var without, with := EstimateRle(t, base);
    assert PlainSize(t, v, flags) == without && PlainSize(t, v, packedFlags) == with;
    bestFlags', bestSize' := ConsiderCandidate(t, v, k, bestFlags, bestSize, flags, without);
    bestFlags', bestSize' := ConsiderCandidate(t, v, k + 1, bestFlags', bestSize', packedFlags, with);
  }

  // A dictionary of the vector or of its differences, without and with bit packing.
  method ConsiderDictionary(t: Type, v: seq<Value>, base: seq<Value>, k: nat, next: nat, delta: bool,
      bestFlags: nat, bestSize: nat, flags: nat, packedFlags: nat)
    returns (bestFlags': nat, bestSize': nat)
    requires SuitsAdaptive(t, v) && (delta ==> IsInteger(t)) && base == if delta then Differences(t, v) else v
    requires IsPair(t, k, next, flags, packedFlags, Mode(true, false, delta, false))
    requires Candidate(bestFlags, bestSize) == BestUpTo(t, v, k)
    ensures Candidate(bestFlags', bestSize') == BestUpTo(t, v, next)
  {
    hide RleBytes, DictBytes, DeltaBytes, ModeOf, Candidates, BestUpTo, InMemory, Differences, HasType;
    assert base == Base(t, v, ModeOf(t, flags));
    var without, with := EstimateDict(t, base);
    assert PlainSize(t, v, flags) == without && PlainSize(t, v, packedFlags) == with;
    bestFlags', bestSize' := ConsiderCandidate(t, v, k, bestFlags, bestSize, flags, without);
    bestFlags', bestSize' := ConsiderCandidate(t, v, k + 1, bestFlags', bestSize', packedFlags, with);
  }

  method EstimateIntegerBitpack(t: Type, input: seq<Value>, usedDelta: bool) returns (size: nat)
    requires IsInteger(t) && AllTyped(t, input)
    ensures |input| == 0 ==> size == 1
    ensures |input| > 0 && !usedDelta ==> size == |PackedValues(t, input)|
    ensures |input| > 1 && usedDelta ==> size == Width(t) + |PackedValues(t, input[1..])|
    ensures |input| == 1 && usedDelta ==> size == Width(t) + 1
  {
    if |input| == 0 {
      return 1;
    }
    if usedDelta {
      var us := Unsigned(t, input[1..]);
      var maxDiff := MaxValue(us);
      var bits := 1;
      if |input| > 1 {
        bits := BitsRequired(maxDiff);
        WordsBytesSize(us, true, bits, Width(t));
      }
      return Width(t) + 1 + ((|input| - 1) * bits + 7) / 8;
    }
    var us := Unsigned(t, input);
    var maxValue := MaxValue(us);
    var bits := BitsRequired(maxValue);
    WordsBytesSize(us, true, bits, Width(t));
    size := 1 + (|input| * bits + 7) / 8;
  }

  lemma RawIsFirst(t: Type, v: seq<Value>)
    requires SuitsAdaptive(t, v)
    ensures BestUpTo(t, v, 0) == Candidate(0, |ValuesBytes(t, v)|)
  {
    NoFlags(t);
  }

  lemma FirstIsNoLonger(t: Type, v: seq<Value>)
    requires SuitsAdaptive(t, v)
    ensures BestUpTo(t, v, 1).size <= |ValuesBytes(t, v)|
  {
    RawIsFirst(t, v);
  }

  // The estimate of packed delta is a byte too long for one element, and then never chosen.
  lemma PackedDeltaEstimate(t: Type, v: seq<Value>, d: seq<Value>, best: Candidate, flags: nat, size: nat)
    requires IsInteger(t) && SuitsAdaptive(t, v) && d == Differences(t, v)
    requires ModeOf(t, flags) == Mode(false, false, true, true)
    requires best.size <= |ValuesBytes(t, v)|
    requires |v| > 1 ==> size == Width(t) + |PackedValues(t, d[1..])|
    requires |v| == 1 ==> size == Width(t) + 1
    ensures Estimates(t, v, best, flags, size)
  {
    assert PlainSize(t, v, flags) == |DeltaBytes(t, v, true)|;
    FixedValuesSize(t, v);
    FixedValuesSize(t, d);
  }

  lemma PackedEstimate(t: Type, v: seq<Value>, best: Candidate, flags: nat)
    requires IsInteger(t) && SuitsAdaptive(t, v) && ModeOf(t, flags) == Mode(false, false, false, true)
    ensures Estimates(t, v, best, flags, |PackedValues(t, v)|)
  {
    assert PlainSize(t, v, flags) == |PackedValues(t, v)|;
  }

  // The two candidates that only pack: the words themselves, or their differences.
  method ConsiderPacking(t: Type, v: seq<Value>, d: seq<Value>, bestFlags: nat, bestSize: nat,
      flags: nat, deltaFlags: nat)
    returns (bestFlags': nat, bestSize': nat)
    requires IsInteger(t) && SuitsAdaptive(t, v) && d == Differences(t, v)
    requires IsCandidate(t, 0, flags, Mode(false, false, false, true))
    requires IsCandidate(t, 1, deltaFlags, Mode(false, false, true, true))
    requires Candidate(bestFlags, bestSize) == BestUpTo(t, v, 0)
    ensures Candidate(bestFlags', bestSize') == BestUpTo(t, v, 2)
  {
    hide BestUpTo, PlainSize, Estimates, Differences, Candidates, ModeOf, ValuesBytes, HasType, PackedValues;
    RawIsFirst(t, v);
    FirstIsNoLonger(t, v);
    var packed := EstimateIntegerBitpack(t, v, false);
    var deltaPacked := EstimateIntegerBitpack(t, d, true);
    PackedEstimate(t, v, BestUpTo(t, v, 0), flags);
    bestFlags', bestSize' := ConsiderCandidate(t, v, 0, bestFlags, bestSize, flags, packed);
    PackedDeltaEstimate(t, v, d, BestUpTo(t, v, 1), deltaFlags, deltaPacked);
    bestFlags', bestSize' := ConsiderCandidate(t, v, 1, bestFlags', bestSize', deltaFlags, deltaPacked);
  }

  // The six integer candidates without a dictionary.
  method ConsiderWithoutDictionary(t: Type, input: seq<Value>, deltaInput: seq<Value>) returns (best: nat, size: nat)
    requires IsInteger(t) && SuitsAdaptive(t, input) && deltaInput == Differences(t, input)
    ensures 6 <= |Candidates(t)| && Candidate(best, size) == BestUpTo(t, input, 6)
  {
    IntegerModes(t);
    IntegerRlePairs(t);
    RawIsFirst(t, input);
    best := 0;
    size := EstimateRaw(t, input);
    best, size := ConsiderPacking(t, input, deltaInput, best, size,
                                  FLAG_BITPACK_INT, FLAG_DELTA_INT + FLAG_BITPACK_INT);
    best, size := ConsiderRuns(t, input, input, 2, 4, false, best, size,
                               FLAG_RLE_INT, FLAG_RLE_INT + FLAG_BITPACK_INT);
    best, size := ConsiderRuns(t, input, deltaInput, 4, 6, true, best, size,
                               FLAG_DELTA_INT + FLAG_RLE_INT, FLAG_DELTA_INT + FLAG_RLE_INT + FLAG_BITPACK_INT);
  }

  // The four integer candidates with a dictionary.
  method ConsiderDictionaries(t: Type, input: seq<Value>, deltaInput: seq<Value>, bestFlags: nat, bestSize: nat)
    returns (best: nat, size: nat)
    requires IsInteger(t) && SuitsAdaptive(t, input) && deltaInput == Differences(t, input)
    requires 6 <= |Candidates(t)| && Candidate(bestFlags, bestSize) == BestUpTo(t, input, 6)
    ensures |Candidates(t)| == 10 && Candidate(best, size) == BestUpTo(t, input, 10)
  {
    IntegerDictPairs(t);
    best, size := ConsiderDictionary(t, input, input, 6, 8, false, bestFlags, bestSize,
                                     FLAG_DICT_INT, FLAG_DICT_INT + FLAG_BITPACK_INT);
    best, size := ConsiderDictionary(t, input, deltaInput, 8, 10, true, best, size,
                                     FLAG_DELTA_INT + FLAG_DICT_INT,
                                     FLAG_DELTA_INT + FLAG_DICT_INT + FLAG_BITPACK_INT);
  }

  method AdaptiveIntegerFlags(t: Type, input: seq<Value>) returns (flags: nat)
    requires IsInteger(t) && SuitsAdaptive(t, input)
    ensures flags == Best(t, input).flags
  {
    hide BestUpTo, Candidates, HasType;
    var deltaInput := DeltaCopy(t, input);
    var best, size := ConsiderWithoutDictionary(t, input, deltaInput);
    best, size := ConsiderDictionaries(t, input, deltaInput, best, size);
    flags := best;
  }

  method AdaptiveTableFlags(t: Type, input: seq<Value>, rle: nat, dict: nat, packed: nat) returns (flags: nat)
    requires TableFlags(t, rle, dict, packed) && SuitsAdaptive(t, input)
    ensures flags == Best(t, input).flags
  {
    hide BestUpTo, Candidates, ModeOf, ValuesBytes, HasType;
    TablePairs(t, rle, dict, packed);
    RawIsFirst(t, input);
    var best := 0;
    var size := EstimateRaw(t, input);
    best, size := ConsiderRuns(t, input, input, 0, 2, false, best, size, rle, rle + packed);
    best, size := ConsiderDictionary(t, input, input, 2, 4, false, best, size, dict, dict + packed);
    flags := best;
  }

  // ----------------------------------------------------------- integer vectors

  method EncodeIntegerPlain(t: Type, input: seq<Value>, mode: Mode) returns (encoded: Bytes)
    requires IsInteger(t) && Suits(t, input, mode)
    ensures encoded == PlainBytes(t, input, mode)
  {
    if mode.dict {
      assert InMemory(t, Base(t, input, mode));
      if mode.delta {
        var deltaInput := DeltaCopy(t, input);
        encoded := EncodeDict(t, deltaInput, mode.packed);
      } else {
        encoded := EncodeDict(t, input, mode.packed);
      }
    } else if mode.rle {
      assert InMemory(t, Base(t, input, mode));
      if mode.delta {
        var deltaInput := DeltaCopy(t, input);
        encoded := EncodeRle(t, deltaInput, mode.packed);
      } else {
        encoded := EncodeRle(t, input, mode.packed);
      }
    } else if mode.delta {
      encoded := EncodeDelta(t, input, mode.packed);
    } else if mode.packed {
      encoded := [];
      if |input| > 0 {
        encoded := WritePackedValues(t, input);
      }
    } else {
      encoded := ValuesBytes(t, input);
    }
  }

  method EncodeIntegerVector(t: Type, input: seq<Value>, flags: nat) returns (output: Bytes)
    requires IsInteger(t) && Encodable(t, input, flags)
    ensures output == ColumnBytes(t, input, flags)
  {
    var used := flags;
    if HasFlag(flags, FLAG_ADAPTIVE) {
      used := AdaptiveIntegerFlags(t, input);
    }
    output := EncodeIntegerPlain(t, input, ModeOf(t, used));
    if HasFlag(flags, FLAG_ADAPTIVE) {
      output := ToBytes(used, SIZE_BYTES) + output;
    }
  }

  // A copy of the vector with UndoDelta applied where delta was used.
  method UndoneWhere(t: Type, d: seq<Value>, delta: bool) returns (output: seq<Value>)
    requires delta ==> IsWord(t) && AllTyped(t, d)
    ensures output == Undone(t, d, delta)
  {
    output := d;
    if delta {
      output := UndoneCopy(t, d);
    }
  }

  method DecodeIntegerVector(t: Type, input: Bytes, size: nat, flags: nat) returns (output: seq<Value>)
    requires IsInteger(t) && ParseColumn(t, input, size, flags).Some?
    ensures ParseColumn(t, input, size, flags) == Some(output)
  {
    var offset, used := 0, flags;
    if HasFlag(flags, FLAG_ADAPTIVE) {
      used := FromBytes(input[..SIZE_BYTES]);
      offset := SIZE_BYTES;
    }
    var mode := ModeOf(t, used);
    assert offset == 0 ==> input[offset..] == input;
    var offset';
    if mode.dict {
      output, offset' := DecodeDict(t, input, offset, size, mode.packed);
      output := UndoneWhere(t, output, mode.delta);
    } else if mode.rle {
      output, offset' := DecodeRle(t, input, offset, mode.packed);
      output := UndoneWhere(t, output, mode.delta);
    } else if mode.delta {
      output, offset' := DecodeDelta(t, input, offset, size, mode.packed);
    } else if mode.packed && size > 0 {
      output, offset' := ReadPackedValues(t, input, offset, size);
    } else {
      output, offset' := ReadValues(t, input, offset, size);
    }
  }

  // ------------------------------------------------- float and string vectors

  method EncodeFloatPlain(t: Type, input: seq<Value>, flags: nat) returns (encoded: Bytes)
    requires IsFloat(t) && Suits(t, input, ModeOf(t, flags))
    ensures encoded == PlainBytes(t, input, ModeOf(t, flags))
  {
    var useBitpack := HasFlag(flags, FLAG_BITPACK_FLOAT);
    if HasFlag(flags, FLAG_DICT_FLOAT) {
      encoded := EncodeDict(t, input, useBitpack);
    } else if HasFlag(flags, FLAG_RLE_FLOAT) {
      encoded := EncodeRle(t, input, useBitpack);
    } else {
      encoded := ValuesBytes(t, input);
    }
  }

  method EncodeFloatVector(t: Type, input: seq<Value>, flags: nat) returns (output: Bytes)
    requires IsFloat(t) && Encodable(t, input, flags)
    ensures output == ColumnBytes(t, input, flags)
  {
    var used := flags;
    if HasFlag(flags, FLAG_ADAPTIVE) {
      used := AdaptiveTableFlags(t, input, FLAG_RLE_FLOAT, FLAG_DICT_FLOAT, FLAG_BITPACK_FLOAT);
    }
    output := EncodeFloatPlain(t, input, used);
    if HasFlag(flags, FLAG_ADAPTIVE) {
      output := ToBytes(used, SIZE_BYTES) + output;
    }
  }

  method DecodeFloatVector(t: Type, input: Bytes, size: nat, flags: nat) returns (output: seq<Value>)
    requires IsFloat(t) && ParseColumn(t, input, size, flags).Some?
    ensures ParseColumn(t, input, size, flags) == Some(output)
  {
    var offset, used := 0, flags;
    if HasFlag(flags, FLAG_ADAPTIVE) {
      used := FromBytes(input[..SIZE_BYTES]);
      offset := offset + SIZE_BYTES;
    }
    assert offset == 0 ==> input[offset..] == input;
    var useBitpack := HasFlag(used, FLAG_BITPACK_FLOAT);
    var offset';
    if HasFlag(used, FLAG_DICT_FLOAT) {
      output, offset' := DecodeDict(t, input, offset, size, useBitpack);
    } else if HasFlag(used, FLAG_RLE_FLOAT) {
      output, offset' := DecodeRle(t, input, offset, useBitpack);
    } else {
      output, offset' := ReadValues(t, input, offset, size);
    }
  }

  method EncodeStringPlain(input: seq<Value>, flags: nat) returns (encoded: Bytes)
    requires Suits(String, input, ModeOf(String, flags))
    ensures encoded == PlainBytes(String, input, ModeOf(String, flags))
  {
    var useBitpack := HasFlag(flags, FLAG_BITPACK_STR);
    if HasFlag(flags, FLAG_RLE_STR) {
      encoded := EncodeRle(String, input, useBitpack);
    } else if HasFlag(flags, FLAG_DICT_STR) {
      encoded := EncodeDict(String, input, useBitpack);
    } else {
      encoded := WriteValues(String, [], input);
    }
  }

  method EncodeStringVector(input: seq<Value>, flags: nat) returns (output: Bytes)
    requires Encodable(String, input, flags)
    ensures output == ColumnBytes(String, input, flags)
  {
    var used := flags;
    if HasFlag(flags, FLAG_ADAPTIVE) {
      used := AdaptiveTableFlags(String, input, FLAG_RLE_STR, FLAG_DICT_STR, FLAG_BITPACK_STR);
    }
    output := EncodeStringPlain(input, used);
    if HasFlag(flags, FLAG_ADAPTIVE) {
      output := ToBytes(used, SIZE_BYTES) + output;
    }
  }

  method DecodeStringVector(input: Bytes, size: nat, flags: nat) returns (output: seq<Value>)
    requires ParseColumn(String, input, size, flags).Some?
    ensures ParseColumn(String, input, size, flags) == Some(output)
  {
    var offset, used := 0, flags;
    if HasFlag(flags, FLAG_ADAPTIVE) {
      used := FromBytes(input[..SIZE_BYTES]);
      offset := offset + SIZE_BYTES;
    }
    assert offset == 0 ==> input[offset..] == input;
    var useBitpack := HasFlag(used, FLAG_BITPACK_STR);
    var offset';
    if HasFlag(used, FLAG_RLE_STR) {
      output, offset' := DecodeRle(String, input, offset, useBitpack);
    } else if HasFlag(used, FLAG_DICT_STR) {
      output, offset' := DecodeDict(String, input, offset, size, useBitpack);
    } else {
      output, offset' := ReadValues(String, input, offset, size);
    }
  }

  // ------------------------------------------------------------ dispatch by type

  // None is the exception for 128-bit columns.
  method EncodeColumn(library: Library, t: Type, column: seq<Value>, flags: nat) returns (encoded: Option<Bytes>)
    requires !t.Int128? ==> Encodable(t, column, flags)
    ensures encoded == if t.Int128? then None else StoredBytes(library, t, column, flags)
  {
    if t.Int128? {
      return None;
    }
    var bytes;
    if t.String? {
      bytes := EncodeStringVector(column, flags);
    } else if IsFloat(t) {
      bytes := EncodeFloatVector(t, column, flags);
    } else {
      bytes := EncodeIntegerVector(t, column, flags);
    }
    if HasFlag(flags, FLAG_LZ4) {
      encoded := Lz4Compress(library, bytes);
    } else {
      encoded := Some(bytes);
    }
  }

  method DecodeColumn(library: Library, t: Type, input: Bytes, rowsNumber: nat, flags: nat)
    returns (column: Option<seq<Value>>)
    requires !t.Int128? ==>
      (HasFlag(flags, FLAG_LZ4) && Decompressed(library, input).None?)
      || ParseStored(library, t, input, rowsNumber, flags).Some?
    ensures column == if t.Int128? then None else ParseStored(library, t, input, rowsNumber, flags)
  {
    if t.Int128? {
      return None;
    }
    var bytes := input;
    if HasFlag(flags, FLAG_LZ4) {
      var decompressed := Lz4Decompress(library, input);
      if decompressed.None? {
        return None;
      }
      bytes := decompressed.value;
    }
    var values;
    if t.String? {
      values := DecodeStringVector(bytes, rowsNumber, flags);
    } else if IsFloat(t) {
      values := DecodeFloatVector(t, bytes, rowsNumber, flags);
    } else {
      values := DecodeIntegerVector(t, bytes, rowsNumber, flags);
    }
    column := Some(values);
  }
}
