/** Flag words: the combination of steps each selects, its round trip, and the adaptive choice of the shortest. */
module Encoding {
  import opened Words
  import opened Values
  import opened Rle
  import opened Dict
  import opened Delta

  const FLAG_RLE_INT: nat := 1
  const FLAG_DELTA_INT: nat := 2
  const FLAG_DICT_INT: nat := 4
  const FLAG_BITPACK_INT: nat := 8
  const FLAG_RLE_STR: nat := 16
  const FLAG_DICT_STR: nat := 32
  const FLAG_BITPACK_STR: nat := 64
  const FLAG_RLE_FLOAT: nat := 128
  const FLAG_DICT_FLOAT: nat := 256
  const FLAG_BITPACK_FLOAT: nat := 512
  const FLAG_LZ4: nat := 1024
  const FLAG_ADAPTIVE: nat := 2048

  // (flags & flag) != 0 for a flag that is a power of two.
  predicate HasFlag(flags: nat, flag: nat)
    requires flag > 0
  {
    (flags / flag) % 2 == 1
  }

  predicate IsInteger(t: Type) {
    IsWord(t) && !IsFloat(t)
  }

  // Which steps a flag word switches on for a column of a given type.
  datatype Mode = Mode(dict: bool, rle: bool, delta: bool, packed: bool)

  // Integers and floats prefer the dictionary over runs, strings the other way round.
  function ModeOf(t: Type, flags: nat): Mode {
    if t.String? then
      var rle := HasFlag(flags, FLAG_RLE_STR);
      Mode(HasFlag(flags, FLAG_DICT_STR) && !rle, rle, false, HasFlag(flags, FLAG_BITPACK_STR))
    else if IsFloat(t) then
      Mode(HasFlag(flags, FLAG_DICT_FLOAT), HasFlag(flags, FLAG_RLE_FLOAT), false, HasFlag(flags, FLAG_BITPACK_FLOAT))
    else
      Mode(HasFlag(flags, FLAG_DICT_INT), HasFlag(flags, FLAG_RLE_INT),
           HasFlag(flags, FLAG_DELTA_INT), HasFlag(flags, FLAG_BITPACK_INT))
  }

  // What the engine asks of a vector in a mode: DoDelta needs a first element.
  predicate Suits(t: Type, v: seq<Value>, mode: Mode) {
    !t.Int128? && InMemory(t, v) && (mode.delta ==> IsInteger(t) && |v| > 0)
  }

  // The vector that dictionary and runs work on.
  function Base(t: Type, v: seq<Value>, mode: Mode): (b: seq<Value>)
    requires Suits(t, v, mode)
    ensures |b| == |v| && InMemory(t, b)
  {
    if mode.delta then
      FixedValuesSize(t, v);
      FixedValuesSize(t, Differences(t, v));
      Differences(t, v)
    else v
  }

  function PlainBytes(t: Type, v: seq<Value>, mode: Mode): Bytes
    requires Suits(t, v, mode)
  {
    if mode.dict then DictBytes(t, Base(t, v, mode), mode.packed)
    else if mode.rle then RleBytes(t, Base(t, v, mode), mode.packed)
    else if mode.delta then DeltaBytes(t, v, mode.packed)
    else if mode.packed && IsInteger(t) && |v| > 0 then PackedValues(t, v)
    else ValuesBytes(t, v)
  }

  function Undone(t: Type, d: seq<Value>, delta: bool): seq<Value>
    requires delta ==> IsWord(t) && AllTyped(t, d)
  {
    if delta then RunningSums(t, d) else d
  }

  // None where the engine would read out of bounds.
  function ParsePlain(t: Type, bs: Bytes, size: nat, mode: Mode): Option<seq<Value>>
    requires mode.delta ==> IsInteger(t)
  {
    if mode.dict then
      match ParseDict(t, bs, size, mode.packed)
      case None => None
      case Some(d) => Some(Undone(t, d.value, mode.delta))
    else if mode.rle then
      match ParseRle(t, bs, mode.packed)
      case None => None
      case Some(d) => Some(Undone(t, d.value, mode.delta))
    else if mode.delta then
      match ParseDelta(t, bs, size, mode.packed)
      case None => None
      case Some(d) => Some(d.value)
    else if mode.packed && IsInteger(t) && size > 0 then
      match ParsePackedValues(t, bs, size)
      case None => None
      case Some(d) => Some(d.value)
    else
      match ParseValues(t, bs, size)
      case None => None
      case Some(d) => Some(d.value)
  }

  // What a vector loses on the way: places codes cannot hold, and the sign of zeros that equal each other.
  predicate Survives(t: Type, v: seq<Value>, mode: Mode)
    requires Suits(t, v, mode)
  {
    var base := Base(t, v, mode);
    if mode.dict then PlacesSurvive(Dictionary(t, base)) && ZerosAgree(t, base)
    else mode.rle ==> ZeroRunsKeepSign(t, base)
  }

  // Other than for floats only a dictionary of more than 2^32 entries does not survive.
  lemma SurvivesExactly(t: Type, v: seq<Value>, mode: Mode)
    requires Suits(t, v, mode)
    ensures !IsFloat(t) ==> (Survives(t, v, mode) <==> mode.dict ==> |Dictionary(t, Base(t, v, mode))| <= 0x1_0000_0000)
  {
    hide Dictionary, PlacesSurvive, ZerosAgree, ZeroRunsKeepSign;
    var base := Base(t, v, mode);
    PlacesSurviveExactly(t, base);
    OneWordExactly(t, base);
    SteadyExactly(t, base);
  }

  lemma UndoneIsInverse(t: Type, v: seq<Value>, mode: Mode, d: seq<Value>)
    requires Suits(t, v, mode) && AllTyped(t, d)
    ensures Undone(t, d, mode.delta) == v <==> d == Base(t, v, mode)
  {
    if mode.delta {
      SumsOfDifferences(t, v);
      DifferencesOfSums(t, d);
    }
  }

  lemma DictModeRoundTrip(t: Type, v: seq<Value>, mode: Mode)
    requires Suits(t, v, mode) && mode.dict
    ensures ParsePlain(t, PlainBytes(t, v, mode), |v|, mode) == Some(v) <==> Survives(t, v, mode)
  {
    hide DictBytes, ParseDict, Dictionary, PlacesSurvive, ZerosAgree;
    var bs, base := PlainBytes(t, v, mode), Base(t, v, mode);
    assert bs + [] == bs;
    ParseDictBytes(t, base, mode.packed, []);
    DictRoundTrip(t, base, mode.packed, []);
    UndoneIsInverse(t, v, mode, ParseDict(t, bs, |v|, mode.packed).value.value);
  }

  lemma RleModeRoundTrip(t: Type, v: seq<Value>, mode: Mode)
    requires Suits(t, v, mode) && !mode.dict && mode.rle
    ensures ParsePlain(t, PlainBytes(t, v, mode), |v|, mode) == Some(v) <==> Survives(t, v, mode)
  {
    hide RleBytes, ParseRle, ZeroRunsKeepSign;
    var bs, base := PlainBytes(t, v, mode), Base(t, v, mode);
    assert bs + [] == bs;
    ParseRleBytes(t, base, mode.packed, []);
    RleRoundTrip(t, base, mode.packed, []);
    UndoneIsInverse(t, v, mode, ParseRle(t, bs, mode.packed).value.value);
  }

  // Decoding what was encoded gives some column of the same type and length, whether or not it is the same.
  lemma AlwaysDecodes(t: Type, v: seq<Value>, mode: Mode)
    requires Suits(t, v, mode)
    ensures var r := ParsePlain(t, PlainBytes(t, v, mode), |v|, mode);
            r.Some? && |r.value| == |v| && AllTyped(t, r.value)
  {
    hide DictBytes, ParseDict, RleBytes, ParseRle, Dictionary;
    var bs := PlainBytes(t, v, mode);
    assert bs + [] == bs;
    if mode.dict {
      ParseDictBytes(t, Base(t, v, mode), mode.packed, []);
    } else if mode.rle {
      ParsedLength(t, Base(t, v, mode), mode.packed);
    } else {
      PlainRoundTrip(t, v, mode);
    }
  }

  // Every combination of steps is undone exactly when the vector survives it.
  lemma PlainRoundTrip(t: Type, v: seq<Value>, mode: Mode)
    requires Suits(t, v, mode)
    ensures ParsePlain(t, PlainBytes(t, v, mode), |v|, mode) == Some(v) <==> Survives(t, v, mode)
  {
    var bs := PlainBytes(t, v, mode);
    if mode.dict {
      DictModeRoundTrip(t, v, mode);
    } else if mode.rle {
      RleModeRoundTrip(t, v, mode);
    } else {
      assert bs + [] == bs;
      if mode.delta {
        DeltaRoundTrip(t, v, mode.packed, []);
      } else if mode.packed && IsInteger(t) && |v| > 0 {
        ParsePackedValuesBytes(t, v, []);
      } else {
        ParseValuesBytes(t, v, []);
      }
    }
  }

  // -------------------------------------------------------------- adaptive mode

  datatype Candidate = Candidate(flags: nat, size: nat)

  function Choose(best: Candidate, flags: nat, size: nat): Candidate {
    if size < best.size then Candidate(flags, size) else best
  }

  predicate SuitsAdaptive(t: Type, v: seq<Value>) {
    !t.Int128? && InMemory(t, v) && (IsInteger(t) ==> |v| > 0)
  }

  // The candidates tried after the raw encoding, in the engine's order.
  function Candidates(t: Type): seq<nat> {
    if t.String? then
      [FLAG_RLE_STR, FLAG_RLE_STR + FLAG_BITPACK_STR, FLAG_DICT_STR, FLAG_DICT_STR + FLAG_BITPACK_STR]
    else if IsFloat(t) then
      [FLAG_RLE_FLOAT, FLAG_RLE_FLOAT + FLAG_BITPACK_FLOAT, FLAG_DICT_FLOAT, FLAG_DICT_FLOAT + FLAG_BITPACK_FLOAT]
    else
      [FLAG_BITPACK_INT, FLAG_DELTA_INT + FLAG_BITPACK_INT,
       FLAG_RLE_INT, FLAG_RLE_INT + FLAG_BITPACK_INT,
       FLAG_DELTA_INT + FLAG_RLE_INT, FLAG_DELTA_INT + FLAG_RLE_INT + FLAG_BITPACK_INT,
       FLAG_DICT_INT, FLAG_DICT_INT + FLAG_BITPACK_INT,
       FLAG_DELTA_INT + FLAG_DICT_INT, FLAG_DELTA_INT + FLAG_DICT_INT + FLAG_BITPACK_INT]
  }

  lemma CandidateIsSmall(t: Type, k: nat)
    requires k < |Candidates(t)|
    ensures Candidates(t)[k] < FLAG_LZ4
  {
  }

  // The real length of a vector's encoding under a flag word.
  function PlainSize(t: Type, v: seq<Value>, flags: nat): nat
    requires SuitsAdaptive(t, v)
  {
    |PlainBytes(t, v, ModeOf(t, flags))|
  }

  // The first of the raw encoding and the first k candidates that has the least real length.
  function BestUpTo(t: Type, v: seq<Value>, k: nat): Candidate
    requires SuitsAdaptive(t, v) && k <= |Candidates(t)|
    decreases v, k
  {
    if k == 0 then Candidate(0, PlainSize(t, v, 0))
    else Choose(BestUpTo(t, v, k - 1), Candidates(t)[k - 1], PlainSize(t, v, Candidates(t)[k - 1]))
  }

  function Best(t: Type, v: seq<Value>): Candidate
    requires SuitsAdaptive(t, v)
  {
    BestUpTo(t, v, |Candidates(t)|)
  }

  lemma {:induction false} BestUpToSize(t: Type, v: seq<Value>, k: nat)
    requires SuitsAdaptive(t, v) && k <= |Candidates(t)|
    ensures BestUpTo(t, v, k).size == PlainSize(t, v, BestUpTo(t, v, k).flags)
    ensures BestUpTo(t, v, k).flags < FLAG_LZ4
    decreases v, k
  {
    hide PlainBytes, PlainSize, Candidates;
    if k > 0 {
      BestUpToSize(t, v, k - 1);
      CandidateIsSmall(t, k - 1);
    }
  }

  lemma {:induction false} BestUpToIsLeast(t: Type, v: seq<Value>, k: nat, i: int)
    requires SuitsAdaptive(t, v) && -1 <= i < k <= |Candidates(t)|
    ensures BestUpTo(t, v, k).size <= PlainSize(t, v, if i < 0 then 0 else Candidates(t)[i])
    decreases v, k
  {
    hide PlainSize, Candidates;
    if i < k - 1 {
      BestUpToIsLeast(t, v, k - 1, i);
    }
  }

  // A candidate's place, flags and meaning.
  predicate IsCandidate(t: Type, k: nat, flags: nat, mode: Mode) {
    k < |Candidates(t)| && Candidates(t)[k] == flags && ModeOf(t, flags) == mode
  }

  // Two candidates in a row that differ in bit packing only; `next` comes after them.
  predicate IsPair(t: Type, k: nat, next: nat, flags: nat, packedFlags: nat, mode: Mode) {
    && next == k + 2
    && IsCandidate(t, k, flags, mode.(packed := false))
    && IsCandidate(t, k + 1, packedFlags, mode.(packed := true))
  }

  lemma IntegerModes(t: Type)
    requires IsInteger(t)
    ensures |Candidates(t)| == 10
    ensures IsCandidate(t, 0, FLAG_BITPACK_INT, Mode(false, false, false, true))
    ensures IsCandidate(t, 1, FLAG_DELTA_INT + FLAG_BITPACK_INT, Mode(false, false, true, true))
    ensures IsCandidate(t, 2, FLAG_RLE_INT, Mode(false, true, false, false))
    ensures IsCandidate(t, 3, FLAG_RLE_INT + FLAG_BITPACK_INT, Mode(false, true, false, true))
    ensures IsCandidate(t, 4, FLAG_DELTA_INT + FLAG_RLE_INT, Mode(false, true, true, false))
    ensures IsCandidate(t, 5, FLAG_DELTA_INT + FLAG_RLE_INT + FLAG_BITPACK_INT, Mode(false, true, true, true))
  {
  }

  lemma IntegerRlePairs(t: Type)
    requires IsInteger(t)
    ensures IsPair(t, 2, 4, FLAG_RLE_INT, FLAG_RLE_INT + FLAG_BITPACK_INT, Mode(false, true, false, false))
    ensures IsPair(t, 4, 6, FLAG_DELTA_INT + FLAG_RLE_INT, FLAG_DELTA_INT + FLAG_RLE_INT + FLAG_BITPACK_INT,
                   Mode(false, true, true, false))
  {
    IntegerModes(t);
  }

  lemma IntegerDictPairs(t: Type)
    requires IsInteger(t)
    ensures |Candidates(t)| == 10
    ensures IsPair(t, 6, 8, FLAG_DICT_INT, FLAG_DICT_INT + FLAG_BITPACK_INT, Mode(true, false, false, false))
    ensures IsPair(t, 8, 10, FLAG_DELTA_INT + FLAG_DICT_INT, FLAG_DELTA_INT + FLAG_DICT_INT + FLAG_BITPACK_INT,
                   Mode(true, false, true, false))
  {
    IntegerDictModes(t);
  }

  lemma TablePairs(t: Type, rle: nat, dict: nat, packed: nat)
    requires TableFlags(t, rle, dict, packed)
    ensures |Candidates(t)| == 4
    ensures IsPair(t, 0, 2, rle, rle + packed, Mode(false, true, false, false))
    ensures IsPair(t, 2, 4, dict, dict + packed, Mode(true, false, false, false))
  {
    TableModes(t, rle, dict, packed);
  }

  lemma IntegerDictModes(t: Type)
    requires IsInteger(t)
    ensures |Candidates(t)| == 10
    ensures IsCandidate(t, 6, FLAG_DICT_INT, Mode(true, false, false, false))
    ensures IsCandidate(t, 7, FLAG_DICT_INT + FLAG_BITPACK_INT, Mode(true, false, false, true))
    ensures IsCandidate(t, 8, FLAG_DELTA_INT + FLAG_DICT_INT, Mode(true, false, true, false))
    ensures IsCandidate(t, 9, FLAG_DELTA_INT + FLAG_DICT_INT + FLAG_BITPACK_INT, Mode(true, false, true, true))
  {
  }

  // The flag bits the float and string codecs use for the same three steps.
  predicate TableFlags(t: Type, rle: nat, dict: nat, packed: nat) {
    || (t.String? && rle == FLAG_RLE_STR && dict == FLAG_DICT_STR && packed == FLAG_BITPACK_STR)
    || (IsFloat(t) && rle == FLAG_RLE_FLOAT && dict == FLAG_DICT_FLOAT && packed == FLAG_BITPACK_FLOAT)
  }

  lemma TableModes(t: Type, rle: nat, dict: nat, packed: nat)
    requires TableFlags(t, rle, dict, packed)
    ensures |Candidates(t)| == 4
    ensures IsCandidate(t, 0, rle, Mode(false, true, false, false))
    ensures IsCandidate(t, 1, rle + packed, Mode(false, true, false, true))
    ensures IsCandidate(t, 2, dict, Mode(true, false, false, false))
    ensures IsCandidate(t, 3, dict + packed, Mode(true, false, false, true))
  {
  }

  // Every way to combine the steps that changes anything is among the candidates.
  lemma IntegerCandidateFor(t: Type, mode: Mode) returns (i: nat)
    requires IsInteger(t) && !(mode.dict && mode.rle)
    requires mode.dict || mode.rle || mode.packed
    ensures i < |Candidates(t)| && ModeOf(t, Candidates(t)[i]) == mode
  {
    IntegerModes(t);
    IntegerDictModes(t);
    match mode
    case Mode(false, false, false, true) => i := 0;
    case Mode(false, false, true, true) => i := 1;
    case Mode(false, true, false, false) => i := 2;
    case Mode(false, true, false, true) => i := 3;
    case Mode(false, true, true, false) => i := 4;
    case Mode(false, true, true, true) => i := 5;
    case Mode(true, false, false, false) => i := 6;
    case Mode(true, false, false, true) => i := 7;
    case Mode(true, false, true, false) => i := 8;
    case Mode(true, false, true, true) => i := 9;
  }

  lemma TableCandidateFor(t: Type, mode: Mode) returns (i: nat)
    requires (t.String? || IsFloat(t)) && !(mode.dict && mode.rle)
    requires (mode.dict || mode.rle) && !mode.delta
    ensures i < |Candidates(t)| && ModeOf(t, Candidates(t)[i]) == mode
  {
    if t.String? {
      TableModes(t, FLAG_RLE_STR, FLAG_DICT_STR, FLAG_BITPACK_STR);
    } else {
      TableModes(t, FLAG_RLE_FLOAT, FLAG_DICT_FLOAT, FLAG_BITPACK_FLOAT);
    }
    match mode
    case Mode(false, true, false, false) => i := 0;
    case Mode(false, true, false, true) => i := 1;
    case Mode(true, false, false, false) => i := 2;
    case Mode(true, false, false, true) => i := 3;
  }

  lemma NoFlags(t: Type)
    ensures ModeOf(t, 0) == Mode(false, false, false, false)
  {
  }

  // Any flag word at all is as long as one of the candidates or as the raw encoding: delta
  // alone has the raw length, and so has packed delta of a single element.
  lemma SomeCandidateMatches(t: Type, v: seq<Value>, mode: Mode) returns (i: int)
    requires SuitsAdaptive(t, v) && (mode.delta ==> IsInteger(t))
    ensures i == -1 || 0 <= i < |Candidates(t)|
    ensures PlainSize(t, v, if i < 0 then 0 else Candidates(t)[i]) == |PlainBytes(t, v, mode)|
  {
    NoFlags(t);
    var same := mode.(rle := mode.rle && !mode.dict);
    if mode.dict || mode.rle {
      if IsInteger(t) {
        i := IntegerCandidateFor(t, same);
      } else {
        i := TableCandidateFor(t, same);
      }
    } else if IsInteger(t) && mode.packed && (mode.delta ==> |v| > 1) {
      i := IntegerCandidateFor(t, same);
    } else {
      if mode.delta {
        FixedValuesSize(t, v);
        FixedValuesSize(t, Differences(t, v));
      }
      i := -1;
    }
  }

  // The adaptive choice is at least as short as every flag combination.
  lemma BestIsLeast(t: Type, v: seq<Value>, flags: nat)
    requires SuitsAdaptive(t, v)
    ensures Best(t, v).size == PlainSize(t, v, Best(t, v).flags) <= PlainSize(t, v, flags)
    ensures Best(t, v).flags < FLAG_LZ4
  {
    var i := SomeCandidateMatches(t, v, ModeOf(t, flags));
    BestUpToSize(t, v, |Candidates(t)|);
    BestUpToIsLeast(t, v, |Candidates(t)|, i);
  }
}
