/** Dictionary encoding: the distinct elements in first-occurrence order, and a code per element. */
module Dict {
  import opened Words
  import opened BitPack
  import opened Values
  import opened Floats
  import opened PackedWords
  import D = Distinct

  // sizeof(uint32_t), and one more than the largest code it holds.
  const CODE_BYTES: nat := 4
  const CODE_LIMIT: nat := 0x1_0000_0000

  // The first element of each label, in first-occurrence order.
  function Entries<T(==), U>(ls: seq<T>, v: seq<U>): (entries: seq<U>)
    requires |ls| == |v|
    ensures |entries| == |D.Distinct(ls)|
  {
    if |ls| == 0 then []
    else
      var n := |ls| - 1;
      if ls[n] in D.Distinct(ls[..n]) then Entries(ls[..n], v[..n]) else Entries(ls[..n], v[..n]) + [v[n]]
  }

  // Where an entry comes from: the first element that has its label, met when just the entries before it have been.
  lemma {:induction false} EntryIs<T, U>(ls: seq<T>, v: seq<U>, p: nat) returns (i: nat)
    requires |ls| == |v| && p < |D.Distinct(ls)|
    ensures i < |v| && ls[i] == D.Distinct(ls)[p] && Entries(ls, v)[p] == v[i]
    ensures D.Distinct(ls[..i]) == D.Distinct(ls)[..p]
  {
    var n := |ls| - 1;
    if p < |D.Distinct(ls[..n])| {
      i := EntryIs(ls[..n], v[..n], p);
      assert ls[..n][..i] == ls[..i];
      assert D.Distinct(ls)[..p] == D.Distinct(ls[..n])[..p];
    } else {
      i := n;
    }
  }

  lemma EntriesNext<T, U>(ls: seq<T>, v: seq<U>, i: nat)
    requires i < |ls| == |v|
    ensures Entries(ls[..i + 1], v[..i + 1])
         == if ls[i] in D.Distinct(ls[..i]) then Entries(ls[..i], v[..i]) else Entries(ls[..i], v[..i]) + [v[i]]
  {
    assert ls[..i + 1][..i] == ls[..i] && v[..i + 1][..i] == v[..i];
  }

  function Dictionary(t: Type, v: seq<Value>): seq<Value> {
    Entries(Labels(t, v), v)
  }

  // Entry p is the first of the elements equal to it, and the p entries before it are those met before.
  lemma EntryIsFirst(t: Type, v: seq<Value>, p: nat) returns (i: nat)
    requires p < |Dictionary(t, v)|
    ensures i < |v| && Dictionary(t, v)[p] == v[i]
    ensures forall j :: 0 <= j < i ==> !Equal(t, v[j], v[i])
    ensures Dictionary(t, v[..i]) == Dictionary(t, v)[..p]
  {
    hide Labels, Equal, Entries, D.Distinct;
    var ls := Labels(t, v);
    i := EntryIs(ls, v, p);
    D.DistinctFacts(ls);
    forall j | 0 <= j < i
      ensures !Equal(t, v[j], v[i])
    {
      assert ls[j] == ls[..i][j];
      D.InDistinct(ls[..i], ls[j]);
      LabelsAreEquality(t, v, j, i);
    }
    LabelsPrefix(t, v, i);
    EntriesGrow(ls, v, i);
  }

  lemma {:induction false} EntriesGrow<T, U>(ls: seq<T>, v: seq<U>, i: nat)
    requires i <= |ls| == |v|
    ensures Entries(ls[..i], v[..i]) <= Entries(ls, v)
    decreases |ls| - i
  {
    if i == |ls| {
      assert ls[..i] == ls && v[..i] == v;
    } else {
      EntriesNext(ls, v, i);
      EntriesGrow(ls, v, i + 1);
    }
  }

  // Other than for floats the dictionary is the distinct elements themselves.
  lemma DictionaryOfWords(t: Type, v: seq<Value>)
    requires !IsFloat(t)
    ensures Dictionary(t, v) == D.Distinct(v)
  {
    EntriesOfWords(Labels(t, v), v);
  }

  lemma {:induction false} EntriesOfWords(ls: seq<Label>, v: seq<Value>)
    requires |ls| == |v| && forall i :: 0 <= i < |v| ==> ls[i] == Found(v[i])
    ensures Entries(ls, v) == D.Distinct(v)
    ensures forall x :: Found(x) in D.Distinct(ls) <==> x in D.Distinct(v)
  {
    if |v| > 0 {
      EntriesOfWords(ls[..|v| - 1], v[..|v| - 1]);
    }
  }

  // The place of element i in the dictionary.
  function PlaceOf(t: Type, v: seq<Value>, i: nat): (p: nat)
    requires i < |v|
    ensures p < |Dictionary(t, v)|
  {
    D.DistinctFacts(Labels(t, v));
    D.IndexOf(D.Distinct(Labels(t, v)), Labels(t, v)[i])
  }

  // Its code: the place, cast to uint32_t.
  function CodeOf(t: Type, v: seq<Value>, i: nat): (code: nat)
    requires i < |v|
    ensures code < CODE_LIMIT && code < |Dictionary(t, v)|
  {
    PlaceOf(t, v, i) % CODE_LIMIT
  }

  function Codes(t: Type, v: seq<Value>): (codes: seq<nat>)
    ensures |codes| == |v|
    ensures AllBelow(codes, CODE_LIMIT) && AllBelow(codes, |Dictionary(t, v)|)
  {
    seq(|v|, i requires 0 <= i < |v| => CodeOf(t, v, i))
  }

  lemma DictionaryTyped(t: Type, v: seq<Value>)
    requires InMemory(t, v)
    ensures AllTyped(t, Dictionary(t, v)) && |Dictionary(t, v)| <= |v| < MEMORY_LIMIT
    ensures |v| > 0 ==> |Dictionary(t, v)| > 0
  {
    hide Labels, Entries, D.Distinct;
    D.DistinctFacts(Labels(t, v));
    MemoryBoundsCount(t, v);
    forall p | 0 <= p < |Dictionary(t, v)|
      ensures HasType(t, Dictionary(t, v)[p])
    {
      var i := EntryIs(Labels(t, v), v, p);
    }
  }

  // The width of the codes: enough for the last place in the dictionary.
  function CodeBits(dictSize: nat): (bits: Byte)
    requires dictSize < SIZE_LIMIT
    ensures 1 <= bits <= 64 && dictSize <= Pow2(bits)
  {
    var last: nat := if dictSize > 0 then dictSize - 1 else 0;
    Pow2Literals();
    BitWidthIsLeast(last, 64);
    BitWidth(last)
  }

  // No smaller positive width distinguishes all entries of a non-empty dictionary.
  lemma CodeBitsIsLeast(dictSize: nat, bits: nat)
    requires 0 < dictSize < SIZE_LIMIT && bits >= 1
    ensures dictSize <= Pow2(bits) <==> CodeBits(dictSize) <= bits
  {
    BitWidthIsLeast(dictSize - 1, bits);
  }

  function DictBytes(t: Type, v: seq<Value>, packed: bool): Bytes
    requires InMemory(t, v)
  {
    DictionaryTyped(t, v);
    var dict := Dictionary(t, v);
    ToBytes(|dict|, SIZE_BYTES) + ValuesBytes(t, dict)
    + WordsBytes(Codes(t, v), packed && |dict| > 0, CodeBits(|dict|), CODE_BYTES)
  }

  function Lookup(dict: seq<Value>, codes: seq<nat>): (r: seq<Value>)
    requires AllBelow(codes, |dict|)
    ensures |r| == |codes|
  {
    seq(|codes|, i requires 0 <= i < |codes| => dict[codes[i]])
  }

  // None where the engine would read past the buffer or past the dictionary.
  function ParseDict(t: Type, bs: Bytes, size: nat, packed: bool): (r: Option<Parsed<seq<Value>>>)
    ensures r.Some? ==> r.value.used <= |bs| && |r.value.value| == size && AllTyped(t, r.value.value)
  {
    if |bs| < SIZE_BYTES then None
    else
      var dictSize := FromBytes(bs[..SIZE_BYTES]);
      match ParseValues(t, bs[SIZE_BYTES..], dictSize)
      case None => None
      case Some(dict) =>
        var at := SIZE_BYTES + dict.used;
        match ParseWords(bs[at..], size, packed && dictSize > 0, CODE_BYTES)
        case None => None
        case Some(codes) =>
          if AllBelow(codes.value, dictSize) then Some(Parsed(Lookup(dict.value, codes.value), at + codes.used))
          else None
  }

  lemma ParseDictParts(t: Type, header: Bytes, body: Bytes, words: Bytes, rest: Bytes, packed: bool,
      dict: seq<Value>, codes: seq<nat>)
    requires |header| == SIZE_BYTES && FromBytes(header) == |dict| && AllBelow(codes, |dict|)
    requires ParseValues(t, body + (words + rest), |dict|) == Some(Parsed(dict, |body|))
    requires ParseWords(words + rest, |codes|, packed && |dict| > 0, CODE_BYTES) == Some(Parsed(codes, |words|))
    ensures ParseDict(t, header + body + words + rest, |codes|, packed)
         == Some(Parsed(Lookup(dict, codes), |header + body + words|))
  {
    hide FromBytes, ParseValues, ParseWords, Lookup, HasType;
    ThreeParts(header, body, words, rest);
  }

  // Decoding always looks the stored codes up, and stops exactly at the end of the encoding.
  lemma ParseDictBytes(t: Type, v: seq<Value>, packed: bool, rest: Bytes)
    requires InMemory(t, v)
    ensures ParseDict(t, DictBytes(t, v, packed) + rest, |v|, packed)
         == Some(Parsed(Lookup(Dictionary(t, v), Codes(t, v)), |DictBytes(t, v, packed)|))
  {
    DictionaryTyped(t, v);
    var dict, codes := Dictionary(t, v), Codes(t, v);
    hide Dictionary, Codes;
    var header, body := ToBytes(|dict|, SIZE_BYTES), ValuesBytes(t, dict);
    var bits := CodeBits(|dict|);
    var words := WordsBytes(codes, packed && |dict| > 0, bits, CODE_BYTES);
    SizeRoundTrip(|dict|);
    CodesFit(codes);
    ParseValuesBytes(t, dict, words + rest);
    ParseWordsBytes(codes, packed && |dict| > 0, bits, CODE_BYTES, rest);
    ParseDictParts(t, header, body, words, rest, packed, dict, codes);
  }

  lemma CodesFit(codes: seq<nat>)
    requires AllBelow(codes, CODE_LIMIT)
    ensures AllBelow(codes, Pow2(8 * CODE_BYTES))
  {
    Pow2Literals();
  }

  // Entries whose place a code cannot hold stand where their codes lead.
  predicate PlacesSurvive(dict: seq<Value>) {
    forall p :: CODE_LIMIT <= p < |dict| ==> dict[p % CODE_LIMIT] == dict[p]
  }

  // Elements with one label are one element.
  predicate OneWordEach(ls: seq<Label>, v: seq<Value>)
    requires |ls| == |v|
  {
    forall i, j :: 0 <= i < |v| && 0 <= j < |v| && ls[i] == ls[j] ==> v[i] == v[j]
  }

  lemma PlaceIs(t: Type, v: seq<Value>, i: nat)
    requires i < |v|
    ensures D.Distinct(Labels(t, v))[PlaceOf(t, v, i)] == Labels(t, v)[i]
    ensures Lookup(Dictionary(t, v), Codes(t, v))[i] == Dictionary(t, v)[PlaceOf(t, v, i) % CODE_LIMIT]
  {
    hide Labels, Entries, D.Distinct;
    D.DistinctFacts(Labels(t, v));
  }

  // Looking up restores the elements exactly when no code loses a place and no label stands for two words.
  lemma LookupRestores(t: Type, v: seq<Value>)
    ensures Lookup(Dictionary(t, v), Codes(t, v)) == v
       <==> PlacesSurvive(Dictionary(t, v)) && OneWordEach(Labels(t, v), v)
  {
    if PlacesSurvive(Dictionary(t, v)) && OneWordEach(Labels(t, v), v) {
      SurvivorsRestore(t, v);
    }
    if Lookup(Dictionary(t, v), Codes(t, v)) == v {
      RestoredSurvive(t, v);
    }
  }

  lemma SurvivorsRestore(t: Type, v: seq<Value>)
    requires PlacesSurvive(Dictionary(t, v)) && OneWordEach(Labels(t, v), v)
    ensures Lookup(Dictionary(t, v), Codes(t, v)) == v
  {
    hide Labels, Entries, D.Distinct, CodeOf, PlaceOf;
    forall i | 0 <= i < |v|
      ensures Lookup(Dictionary(t, v), Codes(t, v))[i] == v[i]
    {
      PlaceIs(t, v, i);
      var p := PlaceOf(t, v, i);
      var first := EntryIs(Labels(t, v), v, p);
      assert v[first] == v[i];
    }
  }

  lemma RestoredSurvive(t: Type, v: seq<Value>)
    requires Lookup(Dictionary(t, v), Codes(t, v)) == v
    ensures PlacesSurvive(Dictionary(t, v)) && OneWordEach(Labels(t, v), v)
  {
    hide Labels, Entries, D.Distinct, CodeOf;
    var ls, dict := Labels(t, v), Dictionary(t, v);
    forall p | CODE_LIMIT <= p < |dict|
      ensures dict[p % CODE_LIMIT] == dict[p]
    {
      var i := EntryIs(ls, v, p);
      PlaceIs(t, v, i);
      D.DistinctFacts(ls);
      D.IndexOfAt(D.Distinct(ls), p);
    }
    forall i, j | 0 <= i < |v| && 0 <= j < |v| && ls[i] == ls[j]
      ensures v[i] == v[j]
    {
      PlaceIs(t, v, i);
      PlaceIs(t, v, j);
    }
  }

  // ------------------------------------------------------- when that is the case

  // The column does not hold both zeros.
  predicate ZerosAgree(t: Type, v: seq<Value>) {
    forall i, j :: 0 <= i < |v| && 0 <= j < |v| && IsZero(t, v[i]) && IsZero(t, v[j]) ==> v[i] == v[j]
  }

  lemma OneWordExactly(t: Type, v: seq<Value>)
    requires AllTyped(t, v)
    ensures OneWordEach(Labels(t, v), v) <==> ZerosAgree(t, v)
    ensures !IsFloat(t) ==> ZerosAgree(t, v)
  {
    hide Labels, Ranked, IsNaN, Equal;
    forall i, j | 0 <= i < |v| && 0 <= j < |v| && i != j
      ensures (Labels(t, v)[i] == Labels(t, v)[j] ==> v[i] == v[j])
         <==> (IsZero(t, v[i]) && IsZero(t, v[j]) ==> v[i] == v[j])
    {
      LabelsAreEquality(t, v, i, j);
      OneWordUnlessZero(t, v[i], v[j]);
    }
  }

  // The first value past the limit is given the code of the first entry.
  lemma TooManyEntries(t: Type, v: seq<Value>) returns (i: nat)
    requires |Dictionary(t, v)| > 0x1_0000_0000
    ensures i < |v| && PlaceOf(t, v, i) == 0x1_0000_0000 && v[i] == Dictionary(t, v)[0x1_0000_0000]
    ensures Codes(t, v)[i] == 0 && Lookup(Dictionary(t, v), Codes(t, v))[i] == Dictionary(t, v)[0]
  {
    hide Labels, Entries, D.Distinct;
    var ls := Labels(t, v);
    D.DistinctFacts(ls);
    i := EntryIs(ls, v, CODE_LIMIT);
    D.IndexOfAt(D.Distinct(ls), CODE_LIMIT);
    PlaceIs(t, v, i);
  }

  // Other than for floats, whose NaNs are all entries of their own, no two entries are one word.
  lemma EntriesDiffer(t: Type, v: seq<Value>)
    requires !IsFloat(t)
    ensures D.Unique(Dictionary(t, v))
  {
    hide Entries, D.Distinct;
    var ls := Labels(t, v);
    D.DistinctFacts(ls);
    forall p, q | 0 <= p < q < |Dictionary(t, v)|
      ensures Dictionary(t, v)[p] != Dictionary(t, v)[q]
    {
      var i := EntryIs(ls, v, p);
      var j := EntryIs(ls, v, q);
    }
  }

  lemma PlacesSurviveExactly(t: Type, v: seq<Value>)
    ensures |Dictionary(t, v)| <= 0x1_0000_0000 ==> PlacesSurvive(Dictionary(t, v))
    ensures !IsFloat(t) ==> (PlacesSurvive(Dictionary(t, v)) <==> |Dictionary(t, v)| <= 0x1_0000_0000)
  {
    var dict := Dictionary(t, v);
    if !IsFloat(t) && |dict| > CODE_LIMIT {
      EntriesDiffer(t, v);
      assert dict[CODE_LIMIT % CODE_LIMIT] != dict[CODE_LIMIT];
    }
  }

  // The round trip holds if and only if every place survives and the column does not hold both zeros; other than for
  // floats, if and only if there are at most as many entries as codes.
  lemma DictRoundTrip(t: Type, v: seq<Value>, packed: bool, rest: Bytes)
    requires InMemory(t, v)
    ensures ParseDict(t, DictBytes(t, v, packed) + rest, |v|, packed) == Some(Parsed(v, |DictBytes(t, v, packed)|))
       <==> PlacesSurvive(Dictionary(t, v)) && ZerosAgree(t, v)
    ensures !IsFloat(t) ==>
      (PlacesSurvive(Dictionary(t, v)) && ZerosAgree(t, v) <==> |Dictionary(t, v)| <= 0x1_0000_0000)
  {
    hide DictBytes, ParseDict, Dictionary, Codes, Labels, OneWordEach, ZerosAgree, PlacesSurvive;
    ParseDictBytes(t, v, packed, rest);
    LookupRestores(t, v);
    OneWordExactly(t, v);
    PlacesSurviveExactly(t, v);
  }

  // ---------------------------------------------------------------- the loops

  // The map mirrors the dictionary built so far, with the codes of the finished one.
  ghost predicate Mirrors(ls: seq<Label>, v: seq<Value>, i: nat, dict: seq<Value>, dictMap: map<Label, nat>) {
    && i <= |v| == |ls| && dict == Entries(ls[..i], v[..i]) && |dictMap| == |dict|
    && (forall l :: l in dictMap <==> l in D.Distinct(ls[..i]))
    && (forall l :: l in dictMap ==> l in D.Distinct(ls) && dictMap[l] == D.IndexOf(D.Distinct(ls), l) % CODE_LIMIT)
  }

  lemma MirrorsStart(ls: seq<Label>, v: seq<Value>)
    requires |ls| == |v|
    ensures Mirrors(ls, v, 0, [], map[])
  {
  }

  lemma MirrorsOld(ls: seq<Label>, v: seq<Value>, i: nat, dict: seq<Value>, dictMap: map<Label, nat>)
    requires i < |v| && Mirrors(ls, v, i, dict, dictMap) && ls[i] in dictMap
    ensures Mirrors(ls, v, i + 1, dict, dictMap)
  {
    hide D.Distinct, Entries;
    D.DistinctNext(ls, i);
    EntriesNext(ls, v, i);
  }

  lemma MirrorsNew(ls: seq<Label>, v: seq<Value>, i: nat, dict: seq<Value>, dictMap: map<Label, nat>)
    requires i < |v| && Mirrors(ls, v, i, dict, dictMap) && ls[i] !in dictMap
    ensures Mirrors(ls, v, i + 1, dict + [v[i]], dictMap[ls[i] := |dict| % CODE_LIMIT])
  {
    hide D.Distinct, D.IndexOf, Entries;
    D.DistinctNext(ls, i);
    EntriesNext(ls, v, i);
    D.NewPlace(ls, i);
  }

  // The map knows the code of the element it was last asked for.
  lemma MirrorsCode(t: Type, v: seq<Value>, i: nat, next: nat, dict: seq<Value>, dictMap: map<Label, nat>)
    requires i < next <= |v| && Mirrors(Labels(t, v), v, next, dict, dictMap) && Labels(t, v)[i] in dictMap
    ensures dictMap[Labels(t, v)[i]] == Codes(t, v)[i]
  {
    hide D.Distinct, Entries;
  }

  lemma MirrorsAll(t: Type, v: seq<Value>, dict: seq<Value>, dictMap: map<Label, nat>)
    requires Mirrors(Labels(t, v), v, |v|, dict, dictMap)
    ensures dict == Dictionary(t, v) && |dictMap| == |Dictionary(t, v)|
  {
    hide D.Distinct, Entries;
    assert v[..|v|] == v && Labels(t, v)[..|v|] == Labels(t, v);
  }

  // The dictionary loop: one lookup per element, a new entry where it misses.
  method BuildDictionary(t: Type, input: seq<Value>) returns (dict: seq<Value>, codes: seq<nat>)
    ensures dict == Dictionary(t, input) && codes == Codes(t, input)
  {
    hide Mirrors, Codes, Dictionary;
    var dictMap: map<Label, nat> := map[];
    var out := new nat[|input|](_ => 0);
    ghost var ls, goal := Labels(t, input), Codes(t, input);
    dict := [];
    MirrorsStart(ls, input);
    for i := 0 to |input|
      invariant Mirrors(ls, input, i, dict, dictMap)
      invariant forall k :: 0 <= k < i ==> out[k] == goal[k]
    {
      var key := LabelAt(t, input[i], i);
      if key !in dictMap {
        MirrorsNew(ls, input, i, dict, dictMap);
        var index := |dict| % CODE_LIMIT;
        dictMap := dictMap[key := index];
        dict := dict + [input[i]];
        out[i] := index;
      } else {
        MirrorsOld(ls, input, i, dict, dictMap);
        out[i] := dictMap[key];
      }
      MirrorsCode(t, input, i, i + 1, dict, dictMap);
    }
    MirrorsAll(t, input, dict, dictMap);
    codes := out[..];
    assert codes == goal;
  }

  method EncodeDict(t: Type, input: seq<Value>, useBitpack: bool) returns (output: Bytes)
    requires InMemory(t, input)
    ensures output == DictBytes(t, input, useBitpack)
  {
    DictionaryTyped(t, input);
    var dict, codes := BuildDictionary(t, input);
    output := ToBytes(|dict|, SIZE_BYTES);
    output := WriteValues(t, output, dict);
    output := WriteCodes(output, codes, |dict|, useBitpack);
  }

  method WriteCodes(output: Bytes, codes: seq<nat>, dictSize: nat, useBitpack: bool) returns (output': Bytes)
    requires dictSize < SIZE_LIMIT && AllBelow(codes, dictSize)
    ensures output' == output + WordsBytes(codes, useBitpack && dictSize > 0, CodeBits(dictSize), CODE_BYTES)
  {
    if useBitpack && dictSize > 0 {
      var bits := BitsRequired(dictSize - 1);
      output' := WriteWords(output, codes, true, bits, CODE_BYTES);
    } else {
      output' := WriteWords(output, codes, false, 1, CODE_BYTES);
    }
  }

  method LookupAll(dict: seq<Value>, codes: seq<nat>) returns (output: seq<Value>)
    requires AllBelow(codes, |dict|)
    ensures output == Lookup(dict, codes)
  {
    output := [];
    for i := 0 to |codes|
      invariant |output| == i
      invariant forall k :: 0 <= k < i ==> output[k] == dict[codes[k]]
    {
      output := output + [dict[codes[i]]];
    }
  }

  method DecodeDict(t: Type, input: Bytes, offset: nat, size: nat, useBitpack: bool)
    returns (output: seq<Value>, offset': nat)
    requires offset <= |input| && ParseDict(t, input[offset..], size, useBitpack).Some?
    ensures ParseDict(t, input[offset..], size, useBitpack).value.value == output
    ensures offset' == offset + ParseDict(t, input[offset..], size, useBitpack).value.used
    ensures offset' <= |input|
  {
    hide ParseValues, ParseWords, Lookup, FromBytes, HasType;
    DropDrop(input, offset, SIZE_BYTES);
    var dictSize := FromBytes(input[offset..offset + SIZE_BYTES]);
    var dict, at := ReadValues(t, input, offset + SIZE_BYTES, dictSize);
    DropDrop(input, offset, at - offset);
    var codes;
    codes, offset' := ReadWords(input, at, size, useBitpack && dictSize > 0, CODE_BYTES);
    output := LookupAll(dict, codes);
  }

  lemma DictSizes(t: Type, v: seq<Value>)
    requires InMemory(t, v) && |v| > 0
    ensures AllTyped(t, Dictionary(t, v)) && 0 < |Dictionary(t, v)| < SIZE_LIMIT
    ensures |DictBytes(t, v, false)| == SIZE_BYTES + |ValuesBytes(t, Dictionary(t, v))| + |v| * CODE_BYTES
    ensures |DictBytes(t, v, true)|
         == SIZE_BYTES + |ValuesBytes(t, Dictionary(t, v))| + 1 + (|v| * CodeBits(|Dictionary(t, v)|) + 7) / 8
  {
    DictionaryTyped(t, v);
    var bits := CodeBits(|Dictionary(t, v)|);
    hide Dictionary, Codes;
    WordsBytesSize(Codes(t, v), false, bits, CODE_BYTES);
    WordsBytesSize(Codes(t, v), true, bits, CODE_BYTES);
  }

  // The estimator's loop: the entries are counted and measured, not stored.
  method MeasureDictionary(t: Type, input: seq<Value>) returns (dictSize: nat, dictValuesBytes: nat)
    requires InMemory(t, input)
    ensures AllTyped(t, Dictionary(t, input)) && dictSize == |Dictionary(t, input)|
    ensures dictValuesBytes == |ValuesBytes(t, Dictionary(t, input))|
  {
    hide D.Distinct, Entries, Dictionary, Codes, HasType, ElementBytes;
    var dictMap: map<Label, nat> := map[];
    ghost var dict: seq<Value>, ls := [], Labels(t, input);
    dictValuesBytes := 0;
    MirrorsStart(ls, input);
    for i := 0 to |input|
      invariant Mirrors(ls, input, i, dict, dictMap)
      invariant AllTyped(t, dict) && dictValuesBytes == |ValuesBytes(t, dict)|
    {
      var key := LabelAt(t, input[i], i);
      if key !in dictMap {
        MirrorsNew(ls, input, i, dict, dictMap);
        ValuesBytesSnoc(t, dict, input[i]);
        dictMap := dictMap[key := |dictMap| % CODE_LIMIT];
        dictValuesBytes := dictValuesBytes + ElementValueSize(t, input[i]);
        dict := dict + [input[i]];
      } else {
        MirrorsOld(ls, input, i, dict, dictMap);
      }
    }
    MirrorsAll(t, input, dict, dictMap);
    dictSize := |dictMap|;
  }

  // The estimates are the exact lengths of the two encodings.
  method EstimateDict(t: Type, input: seq<Value>) returns (withoutBp: nat, withBp: nat)
    requires InMemory(t, input)
    ensures withoutBp == |DictBytes(t, input, false)|
    ensures withBp == |DictBytes(t, input, true)|
  {
    if |input| == 0 {
      return SIZE_BYTES, SIZE_BYTES;
    }
    var dictSize, dictValuesBytes := MeasureDictionary(t, input);
    DictSizes(t, input);
    var bits := BitsRequired(dictSize - 1);
    withoutBp := SIZE_BYTES + dictValuesBytes + |input| * CODE_BYTES;
    withBp := SIZE_BYTES + dictValuesBytes + 1 + (|input| * bits + 7) / 8;
  }
}
