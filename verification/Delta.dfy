/** Delta encoding of fixed-width words: differences modulo 2^w, computed in place. */
module Delta {
  import opened Words
  import opened BitPack
  import opened Values
  import opened PackedWords

  // The types whose elements are machine words of at most eight bytes.
  predicate IsWord(t: Type) {
    !t.String? && !t.Int128?
  }

  lemma WidthOfWord(t: Type)
    requires IsWord(t)
    ensures 1 <= Width(t) <= 8 && Pow2(8 * Width(t)) <= SIZE_LIMIT
  {
    Pow2Literals();
    Pow2Monotonic(8 * Width(t), 64);
  }

  // static_cast<T>(static_cast<U>(a) - static_cast<U>(b)), wrapping around.
  function Minus(w: nat, a: int, b: int): (d: int)
    requires w > 0 && IsSigned(a, w) && IsSigned(b, w)
    ensures IsSigned(d, w)
  {
    var u := AsUnsigned(a, w) - AsUnsigned(b, w);
    AsSigned(if u < 0 then u + Pow2(8 * w) else u, w)
  }

  function Plus(w: nat, a: int, b: int): (s: int)
    requires w > 0 && IsSigned(a, w) && IsSigned(b, w)
    ensures IsSigned(s, w)
  {
    var u := AsUnsigned(a, w) + AsUnsigned(b, w);
    AsSigned(if u >= Pow2(8 * w) then u - Pow2(8 * w) else u, w)
  }

  function SubWrap(t: Type, a: Value, b: Value): (d: Value)
    requires IsWord(t) && HasType(t, a) && HasType(t, b)
    ensures HasType(t, d)
  {
    Word(Minus(Width(t), a.n, b.n))
  }

  function AddWrap(t: Type, a: Value, b: Value): (s: Value)
    requires IsWord(t) && HasType(t, a) && HasType(t, b)
    ensures HasType(t, s)
  {
    Word(Plus(Width(t), a.n, b.n))
  }

  lemma SubThenAdd(t: Type, a: Value, b: Value)
    requires IsWord(t) && HasType(t, a) && HasType(t, b)
    ensures AddWrap(t, SubWrap(t, a, b), b) == a
    ensures SubWrap(t, AddWrap(t, a, b), b) == a
  {
    var w := Width(t);
    WrapBack(w, a.n, b.n);
  }

  // In two's complement of w bytes, whatever w.
  lemma WrapBack(w: nat, a: int, b: int)
    requires w > 0 && IsSigned(a, w) && IsSigned(b, w)
    ensures Plus(w, Minus(w, a, b), b) == a
    ensures Minus(w, Plus(w, a, b), b) == a
  {
    hide Pow2;
    TwiceTheSignBit(w);
  }

  lemma TwiceTheSignBit(w: nat)
    requires w > 0
    ensures Pow2(8 * w) == 2 * Pow2(8 * w - 1)
  {
  }

  // Every element but the first replaced by its difference from the one before.
  function Differences(t: Type, v: seq<Value>): (d: seq<Value>)
    requires IsWord(t) && AllTyped(t, v)
    ensures |d| == |v| && AllTyped(t, d)
  {
    seq(|v|, i requires 0 <= i < |v| => if i == 0 then v[0] else SubWrap(t, v[i], v[i - 1]))
  }

  function RunningSums(t: Type, d: seq<Value>): (v: seq<Value>)
    requires IsWord(t) && AllTyped(t, d)
    ensures |v| == |d| && AllTyped(t, v)
  {
    if |d| <= 1 then d
    else
      var p := RunningSums(t, d[..|d| - 1]);
      p + [AddWrap(t, d[|d| - 1], p[|p| - 1])]
  }

  lemma DifferenceAt(t: Type, v: seq<Value>, i: nat)
    requires IsWord(t) && AllTyped(t, v) && i < |v|
    ensures Differences(t, v)[i] == if i == 0 then v[0] else SubWrap(t, v[i], v[i - 1])
  {
  }

  lemma DifferencesSnoc(t: Type, v: seq<Value>, x: Value)
    requires IsWord(t) && AllTyped(t, v) && HasType(t, x) && |v| > 0
    ensures Differences(t, v + [x]) == Differences(t, v) + [SubWrap(t, x, v[|v| - 1])]
  {
  }

  lemma RunningSumsSnoc(t: Type, d: seq<Value>, x: Value)
    requires IsWord(t) && AllTyped(t, d) && HasType(t, x) && |d| > 0
    ensures RunningSums(t, d + [x]) == RunningSums(t, d) + [AddWrap(t, x, RunningSums(t, d)[|d| - 1])]
  {
    assert (d + [x])[..|d|] == d;
  }

  // Each sum is the one before it plus the next element.
  lemma {:induction false} RunningSumAt(t: Type, d: seq<Value>, i: nat)
    requires IsWord(t) && AllTyped(t, d) && i < |d|
    ensures RunningSums(t, d)[i] == if i == 0 then d[0] else AddWrap(t, d[i], RunningSums(t, d)[i - 1])
    decreases |d|
  {
    hide AddWrap, HasType;
    if |d| > 1 && i < |d| - 1 {
      RunningSumAt(t, d[..|d| - 1], i);
    }
  }

  lemma FrontAndLast<T>(s: seq<T>)
    requires |s| > 0
    ensures s == s[..|s| - 1] + [s[|s| - 1]]
  {
  }

  lemma ExtendDifferences(t: Type, v: seq<Value>, x: Value)
    requires IsWord(t) && AllTyped(t, v) && HasType(t, x) && |v| > 0
    requires RunningSums(t, Differences(t, v)) == v
    ensures RunningSums(t, Differences(t, v + [x])) == v + [x]
  {
    DifferencesSnoc(t, v, x);
    RunningSumsSnoc(t, Differences(t, v), SubWrap(t, x, v[|v| - 1]));
    SubThenAdd(t, x, v[|v| - 1]);
  }

  // The two passes undo each other in either order, wrap-around included.
  lemma {:induction false} SumsOfDifferences(t: Type, v: seq<Value>)
    requires IsWord(t) && AllTyped(t, v)
    ensures RunningSums(t, Differences(t, v)) == v
  {
    if |v| > 1 {
      FrontAndLast(v);
      SumsOfDifferences(t, v[..|v| - 1]);
      ExtendDifferences(t, v[..|v| - 1], v[|v| - 1]);
    }
  }

  lemma ExtendSums(t: Type, d: seq<Value>, x: Value)
    requires IsWord(t) && AllTyped(t, d) && HasType(t, x) && |d| > 0
    requires Differences(t, RunningSums(t, d)) == d
    ensures Differences(t, RunningSums(t, d + [x])) == d + [x]
  {
    var sums := RunningSums(t, d);
    RunningSumsSnoc(t, d, x);
    DifferencesSnoc(t, sums, AddWrap(t, x, sums[|d| - 1]));
    SubThenAdd(t, x, sums[|d| - 1]);
  }

  lemma {:induction false} DifferencesOfSums(t: Type, d: seq<Value>)
    requires IsWord(t) && AllTyped(t, d)
    ensures Differences(t, RunningSums(t, d)) == d
  {
    if |d| > 1 {
      FrontAndLast(d);
      DifferencesOfSums(t, d[..|d| - 1]);
      ExtendSums(t, d[..|d| - 1], d[|d| - 1]);
    }
  }

  // ------------------------------------------------------- what the passes compute

  // Wrapping subtraction is subtraction modulo 2^(8w), and subtraction where the difference fits.
  lemma MinusIs(w: nat, a: int, b: int)
    requires w > 0 && IsSigned(a, w) && IsSigned(b, w)
    ensures (Minus(w, a, b) - (a - b)) % Pow2(8 * w) == 0
    ensures Minus(w, a, b) == a - b <==> IsSigned(a - b, w)
  {
    hide Pow2;
    TwiceTheSignBit(w);
    var p := Pow2(8 * w);
    var k := if a - b >= Pow2(8 * w - 1) then -1 else if a - b < -(Pow2(8 * w - 1) as int) then 1 else 0;
    DivModUnique(Minus(w, a, b) - (a - b), p, k, 0);
  }

  // The same for addition.
  lemma PlusIs(w: nat, a: int, b: int)
    requires w > 0 && IsSigned(a, w) && IsSigned(b, w)
    ensures (Plus(w, a, b) - (a + b)) % Pow2(8 * w) == 0
    ensures Plus(w, a, b) == a + b <==> IsSigned(a + b, w)
  {
    hide Pow2;
    TwiceTheSignBit(w);
    var p := Pow2(8 * w);
    var k := if a + b >= Pow2(8 * w - 1) then -1 else if a + b < -(Pow2(8 * w - 1) as int) then 1 else 0;
    DivModUnique(Plus(w, a, b) - (a + b), p, k, 0);
  }

  // Element i of the differences is v[i] - v[i - 1] modulo 2^(8w); the first element stays.
  lemma DifferencesAre(t: Type, v: seq<Value>, i: nat)
    requires IsWord(t) && AllTyped(t, v) && i < |v|
    ensures var d := Differences(t, v)[i];
      var exact := if i == 0 then v[0].n else v[i].n - v[i - 1].n;
      && d.Word? && (d.n - exact) % Pow2(8 * Width(t)) == 0
      && (HasType(t, Word(exact)) ==> d.n == exact)
  {
    hide Pow2, Minus;
    if i > 0 {
      MinusIs(Width(t), v[i].n, v[i - 1].n);
    } else {
      ZeroModulo(Pow2(8 * Width(t)));
    }
  }

  // x is a - b modulo 2^(8w).
  predicate IsDifference(t: Type, x: Value, a: Value, b: Value) {
    x.Word? && a.Word? && b.Word? && (x.n - (a.n - b.n)) % Pow2(8 * Width(t)) == 0
  }

  lemma ZeroModulo(p: nat)
    requires p > 0
    ensures 0 % p == 0
  {
  }

  // The sum of the first n elements, as an unbounded number.
  function FirstSum(d: seq<Value>, n: nat): int
    requires n <= |d| && forall i :: 0 <= i < |d| ==> d[i].Word?
  {
    if n == 0 then 0 else FirstSum(d, n - 1) + d[n - 1].n
  }

  lemma AllWords(t: Type, vs: seq<Value>)
    requires IsWord(t) && AllTyped(t, vs)
    ensures forall i :: 0 <= i < |vs| ==> vs[i].Word?
  {
  }

  // Element i of the running sums is the sum of the first i + 1 elements modulo 2^(8w).
  lemma {:induction false} RunningSumsAre(t: Type, d: seq<Value>, i: nat)
    requires IsWord(t) && AllTyped(t, d) && i < |d|
    ensures var s := RunningSums(t, d)[i];
      && s.Word? && (s.n - FirstSum(d, i + 1)) % Pow2(8 * Width(t)) == 0
      && (HasType(t, Word(FirstSum(d, i + 1))) ==> s.n == FirstSum(d, i + 1))
    decreases i
  {
    hide Pow2, Plus, RunningSums;
    var p, s := Pow2(8 * Width(t)), RunningSums(t, d);
    RunningSumAt(t, d, i);
    assert FirstSum(d, i + 1) == FirstSum(d, i) + d[i].n;
    if i == 0 {
      ZeroModulo(p);
    } else {
      RunningSumsAre(t, d, i - 1);
      PlusIs(Width(t), d[i].n, s[i - 1].n);
      AddModulo(s[i].n, d[i].n, s[i - 1].n, FirstSum(d, i), p);
    }
    OneWordModulo(t, s[i].n, FirstSum(d, i + 1));
  }

  lemma AddModulo(s: int, x: int, before: int, sum: int, p: nat)
    requires p > 0 && (s - (x + before)) % p == 0 && (before - sum) % p == 0
    ensures (s - (sum + x)) % p == 0
  {
    var j, k := (s - (x + before)) / p, (before - sum) / p;
    assert s - (sum + x) == (j + k) * p;
    DivModUnique(s - (sum + x), p, j + k, 0);
  }

  // Words of one type that agree modulo 2^(8w) are equal.
  lemma OneWordModulo(t: Type, a: int, b: int)
    requires IsWord(t) && HasType(t, Word(a)) && (a - b) % Pow2(8 * Width(t)) == 0
    ensures HasType(t, Word(b)) ==> a == b
  {
    hide Pow2;
    var p := Pow2(8 * Width(t));
    TwiceTheSignBit(Width(t));
    if HasType(t, Word(b)) {
      var k := (a - b) / p;
      assert a - b == k * p;
      if k >= 1 {
        TimesMonotonic(1, k, p);
      } else if k <= -1 {
        TimesMonotonic(k, -1, p);
      }
    }
  }

  // From the back, so that each element still finds its original predecessor.
  // The counter starts at size - 1, which needs an element to exist.
  method DoDelta(t: Type, input: array<Value>)
    requires IsWord(t) && AllTyped(t, input[..]) && input.Length > 0
    modifies input
    ensures input[..] == Differences(t, old(input[..])) && input[0] == old(input[0])
    ensures forall i :: 0 < i < input.Length ==> IsDifference(t, input[i], old(input[i]), old(input[i - 1]))
  {
    hide SubWrap, HasType, Differences, Pow2;
    ghost var v := input[..];
    ghost var goal := Differences(t, v);
    DifferenceAt(t, v, 0);
    var i := input.Length - 1;
    while i > 0
      invariant 0 <= i < input.Length
      invariant forall k :: 0 <= k <= i ==> input[k] == v[k]
      invariant forall k :: i < k < input.Length ==> input[k] == goal[k]
    {
      DifferenceAt(t, v, i);
      input[i] := SubWrap(t, input[i], input[i - 1]);
      i := i - 1;
    }
    AllWords(t, v);
    forall i | 0 < i < input.Length
      ensures IsDifference(t, input[i], v[i], v[i - 1])
    {
      DifferencesAre(t, v, i);
    }
  }

  // From the front, so that each element finds its predecessor already restored.
  method UndoDelta(t: Type, input: array<Value>)
    requires IsWord(t) && AllTyped(t, input[..])
    modifies input
    ensures input[..] == RunningSums(t, old(input[..]))
    ensures forall i :: 0 <= i < input.Length ==> old(input[i]).Word?
    ensures forall i :: 0 <= i < input.Length ==>
      input[i].Word? && (input[i].n - FirstSum(old(input[..]), i + 1)) % Pow2(8 * Width(t)) == 0
  {
    hide AddWrap, HasType, RunningSums, Pow2;
    ghost var d := input[..];
    ghost var goal := RunningSums(t, d);
    if input.Length > 0 {
      RunningSumAt(t, d, 0);
    }
    var i := 1;
    while i < input.Length
      invariant 1 <= i && (i <= input.Length || input.Length == 0)
      invariant forall k :: 0 <= k < i && k < input.Length ==> input[k] == goal[k]
      invariant forall k :: i <= k < input.Length ==> input[k] == d[k]
    {
      RunningSumAt(t, d, i);
      input[i] := AddWrap(t, input[i], input[i - 1]);
      i := i + 1;
    }
    assert input[..] == goal;
    AllWords(t, d);
    forall i | 0 <= i < input.Length
      ensures input[i].Word? && (input[i].n - FirstSum(d, i + 1)) % Pow2(8 * Width(t)) == 0
    {
      RunningSumsAre(t, d, i);
    }
  }

  // ----------------------------------------------------- reinterpreted as unsigned

  function Unsigned(t: Type, vs: seq<Value>): (us: seq<nat>)
    requires IsWord(t) && AllTyped(t, vs)
    ensures |us| == |vs| && AllBelow(us, Pow2(8 * Width(t))) && AllBelow(us, SIZE_LIMIT)
  {
    WidthOfWord(t);
    seq(|vs|, i requires 0 <= i < |vs| => AsUnsigned(vs[i].n, Width(t)))
  }

  function Signed(t: Type, us: seq<nat>): (vs: seq<Value>)
    requires IsWord(t) && AllBelow(us, Pow2(8 * Width(t)))
    ensures |vs| == |us| && AllTyped(t, vs)
  {
    seq(|us|, i requires 0 <= i < |us| => Word(AsSigned(us[i], Width(t))))
  }

  lemma SignedOfUnsigned(t: Type, vs: seq<Value>)
    requires IsWord(t) && AllTyped(t, vs)
    ensures Signed(t, Unsigned(t, vs)) == vs
  {
  }

  // Packed words: a width byte, then the unsigned reinterpretations at that width.
  function PackedValues(t: Type, vs: seq<Value>): Bytes
    requires IsWord(t) && AllTyped(t, vs)
  {
    var us := Unsigned(t, vs);
    WordsBytes(us, true, WidthByte(us), Width(t))
  }

  function ParsePackedValues(t: Type, bs: Bytes, count: nat): (r: Option<Parsed<seq<Value>>>)
    requires IsWord(t)
    ensures r.Some? ==> r.value.used <= |bs| && |r.value.value| == count && AllTyped(t, r.value.value)
  {
    match ParseWords(bs, count, true, Width(t))
    case None => None
    case Some(us) =>
      TruncatedBelow(UnpackBits(bs[1..], count, bs[0]), Width(t));
      Some(Parsed(Signed(t, us.value), us.used))
  }

  lemma ParsePackedValuesBytes(t: Type, vs: seq<Value>, rest: Bytes)
    requires IsWord(t) && AllTyped(t, vs)
    ensures ParsePackedValues(t, PackedValues(t, vs) + rest, |vs|) == Some(Parsed(vs, |PackedValues(t, vs)|))
  {
    var us := Unsigned(t, vs);
    ParseWordsBytes(us, true, WidthByte(us), Width(t), rest);
    SignedOfUnsigned(t, vs);
  }

  method WritePackedValues(t: Type, vs: seq<Value>) returns (output: Bytes)
    requires IsWord(t) && AllTyped(t, vs)
    ensures output == PackedValues(t, vs)
  {
    var us := Unsigned(t, vs);
    var maxValue := MaxValue(us);
    var bits := BitsRequired(maxValue);
    output := WriteWords([], us, true, bits, Width(t));
  }

  method ReadPackedValues(t: Type, input: Bytes, offset: nat, count: nat) returns (output: seq<Value>, offset': nat)
    requires IsWord(t) && offset <= |input| && ParsePackedValues(t, input[offset..], count).Some?
    ensures ParsePackedValues(t, input[offset..], count).value.value == output
    ensures offset' == offset + ParsePackedValues(t, input[offset..], count).value.used
    ensures offset' <= |input|
  {
    ghost var bs := input[offset..];
    TruncatedBelow(UnpackBits(bs[1..], count, bs[0]), Width(t));
    var us;
    us, offset' := ReadWords(input, offset, count, true, Width(t));
    output := Signed(t, us);
  }

  // ------------------------------------------------------------------ the encoding

  function DeltaBytes(t: Type, v: seq<Value>, packed: bool): Bytes
    requires IsWord(t) && AllTyped(t, v)
  {
    var d := Differences(t, v);
    if packed && |v| > 1 then ElementBytes(t, d[0]) + PackedValues(t, d[1..])
    else ValuesBytes(t, d)
  }

  // None where the engine would read past the end of the buffer.
  function ParseDelta(t: Type, bs: Bytes, size: nat, packed: bool): (r: Option<Parsed<seq<Value>>>)
    requires IsWord(t)
    ensures r.Some? ==> r.value.used <= |bs|
  {
    if packed && size > 1 then
      match ParseElement(t, bs)
      case None => None
      case Some(first) =>
        match ParsePackedValues(t, bs[first.used..], size - 1)
        case None => None
        case Some(others) =>
          Some(Parsed(RunningSums(t, [first.value] + others.value), first.used + others.used))
    else
      match ParseValues(t, bs, size)
      case None => None
      case Some(d) => Some(Parsed(RunningSums(t, d.value), d.used))
  }

  lemma ParseDeltaParts(t: Type, bs: Bytes, first: Parsed<Value>, others: Parsed<seq<Value>>, d: seq<Value>)
    requires IsWord(t) && AllTyped(t, d) && |d| > 1
    requires ParseElement(t, bs) == Some(first) && first.used <= |bs|
    requires ParsePackedValues(t, bs[first.used..], |d| - 1) == Some(others)
    requires [first.value] + others.value == d
    ensures ParseDelta(t, bs, |d|, true) == Some(Parsed(RunningSums(t, d), first.used + others.used))
  {
    hide ParseElement, ParsePackedValues, RunningSums, HasType;
  }

  lemma PackedDeltaRoundTrip(t: Type, d: seq<Value>, rest: Bytes)
    requires IsWord(t) && AllTyped(t, d) && |d| > 1
    ensures var bs := ElementBytes(t, d[0]) + PackedValues(t, d[1..]);
            ParseDelta(t, bs + rest, |d|, true) == Some(Parsed(RunningSums(t, d), |bs|))
  {
    hide ElementBytes, PackedValues, ParseElement, ParsePackedValues, ParseDelta, RunningSums, HasType;
    var first, others := ElementBytes(t, d[0]), PackedValues(t, d[1..]);
    var bs := first + (others + rest);
    ParseElementBytes(t, d[0], others + rest);
    ParsePackedValuesBytes(t, d[1..], rest);
    ConcatAssociates(first, others, rest);
    DropPrefix(first, others + rest);
    HeadAndTail(d);
    ParseDeltaParts(t, bs, Parsed(d[0], |first|), Parsed(d[1..], |others|), d);
  }

  lemma DeltaRoundTrip(t: Type, v: seq<Value>, packed: bool, rest: Bytes)
    requires IsWord(t) && AllTyped(t, v)
    ensures ParseDelta(t, DeltaBytes(t, v, packed) + rest, |v|, packed)
         == Some(Parsed(v, |DeltaBytes(t, v, packed)|))
  {
    var d := Differences(t, v);
    SumsOfDifferences(t, v);
    if packed && |v| > 1 {
      PackedDeltaRoundTrip(t, d, rest);
    } else {
      ParseValuesBytes(t, d, rest);
    }
  }

  method EncodeDelta(t: Type, input: seq<Value>, useBitpack: bool) returns (output: Bytes)
    requires IsWord(t) && AllTyped(t, input) && |input| > 0
    ensures output == DeltaBytes(t, input, useBitpack)
  {
    var delta := DeltaCopy(t, input);
    if useBitpack && |input| > 1 {
      var packed := WritePackedValues(t, delta[1..]);
      output := ElementBytes(t, delta[0]) + packed;
    } else {
      output := ValuesBytes(t, delta);
    }
  }

  method ReadDifferences(t: Type, input: Bytes, offset: nat, size: nat, useBitpack: bool)
    returns (d: seq<Value>, offset': nat)
    requires IsWord(t) && offset <= |input| && ParseDelta(t, input[offset..], size, useBitpack).Some?
    ensures AllTyped(t, d) && ParseDelta(t, input[offset..], size, useBitpack).value.value == RunningSums(t, d)
    ensures offset' == offset + ParseDelta(t, input[offset..], size, useBitpack).value.used
    ensures offset' <= |input|
  {
    hide ParseElement, ParsePackedValues, RunningSums, HasType;
    if useBitpack && size > 1 {
      var first := ParseElement(t, input[offset..]).value;
      offset' := offset + first.used;
      DropDrop(input, offset, first.used);
      var others;
      others, offset' := ReadPackedValues(t, input, offset', size - 1);
      d := [first.value] + others;
    } else {
      d, offset' := ReadValues(t, input, offset, size);
    }
  }

  method DecodeDelta(t: Type, input: Bytes, offset: nat, size: nat, useBitpack: bool)
    returns (output: seq<Value>, offset': nat)
    requires IsWord(t) && offset <= |input| && ParseDelta(t, input[offset..], size, useBitpack).Some?
    ensures ParseDelta(t, input[offset..], size, useBitpack).value.value == output
    ensures offset' == offset + ParseDelta(t, input[offset..], size, useBitpack).value.used
    ensures offset' <= |input|
  {
    var d;
    d, offset' := ReadDifferences(t, input, offset, size, useBitpack);
    output := UndoneCopy(t, d);
  }

  method UndoneCopy(t: Type, d: seq<Value>) returns (output: seq<Value>)
    requires IsWord(t) && AllTyped(t, d)
    ensures output == RunningSums(t, d)
  {
    var out := new Value[|d|](i requires 0 <= i < |d| => d[i]);
    assert out[..] == d;
    UndoDelta(t, out);
    output := out[..];
  }

  // A copy of the vector with DoDelta applied, as the encoders make.
  method DeltaCopy(t: Type, input: seq<Value>) returns (delta: seq<Value>)
    requires IsWord(t) && AllTyped(t, input) && |input| > 0
    ensures delta == Differences(t, input)
  {
    var copy := new Value[|input|](i requires 0 <= i < |input| => input[i]);
    assert copy[..] == input;
    DoDelta(t, copy);
    delta := copy[..];
  }
}
