/** Column types, their values, and the memory images that codecs, group keys and results share. */
module Values {
  import opened Words

  datatype Type = Int16 | Int32 | Int64 | Int128 | Float | Double | Date | Timestamp | Char | String

  // A fixed-width value is its two's complement word; a date is its day number, a
  // timestamp its second number, a floating-point value its bit pattern.
  datatype Value = Word(n: int) | Text(s: Bytes)

  // sizeof of the element type; strings have no fixed size.
  function Width(t: Type): nat {
    match t
    case Int16 => 2
    case Int32 => 4
    case Int64 => 8
    case Int128 => 16
    case Float => 4
    case Double => 8
    case Date => 4
    case Timestamp => 8
    case Char => 1
    case String => 0
  }

  predicate IsFloat(t: Type) {
    t.Float? || t.Double?
  }

  predicate HasType(t: Type, v: Value) {
    if t.String? then v.Text? && |v.s| < SIZE_LIMIT
    else v.Word? && IsSigned(v.n, Width(t))
  }

  predicate AllTyped(t: Type, vs: seq<Value>) {
    forall i :: 0 <= i < |vs| ==> HasType(t, vs[i])
  }

  // The value-initialised element T{}.
  function DefaultValue(t: Type): (v: Value)
    ensures HasType(t, v)
  {
    if t.String? then Text([]) else Word(0)
  }

  // A fixed-width element is copied from memory; a string is its length and characters.
  function ElementBytes(t: Type, v: Value): Bytes
    requires HasType(t, v)
  {
    if t.String? then ToBytes(|v.s|, SIZE_BYTES) + v.s
    else ToBytes(AsUnsigned(v.n, Width(t)), Width(t))
  }

  function ValuesBytes(t: Type, vs: seq<Value>): Bytes
    requires AllTyped(t, vs)
  {
    if |vs| == 0 then [] else ElementBytes(t, vs[0]) + ValuesBytes(t, vs[1..])
  }

  // None where the engine would read past the end of the buffer.
  function ParseElement(t: Type, bs: Bytes): (r: Option<Parsed<Value>>)
    ensures r.Some? ==> r.value.used <= |bs| && HasType(t, r.value.value)
  {
    if t.String? then
      if |bs| < SIZE_BYTES then None
      else
        var len := FromBytes(bs[..SIZE_BYTES]);
        FromBytesBound(bs[..SIZE_BYTES]);
        if |bs| < SIZE_BYTES + len then None
        else Some(Parsed(Text(bs[SIZE_BYTES..SIZE_BYTES + len]), SIZE_BYTES + len))
    else
      var w := Width(t);
      if |bs| < w then None
      else
        ToFromBytes(bs[..w]);
        Some(Parsed(Word(AsSigned(FromBytes(bs[..w]), w)), w))
  }

  function ParseValues(t: Type, bs: Bytes, count: nat): (r: Option<Parsed<seq<Value>>>)
    ensures r.Some? ==> r.value.used <= |bs| && |r.value.value| == count && AllTyped(t, r.value.value)
    decreases count
  {
    if count == 0 then Some(Parsed([], 0))
    else
      match ParseElement(t, bs)
      case None => None
      case Some(first) =>
        match ParseValues(t, bs[first.used..], count - 1)
        case None => None
        case Some(others) => Some(Parsed([first.value] + others.value, first.used + others.used))
  }

  lemma FromBytesBound(bs: Bytes)
    requires |bs| == SIZE_BYTES
    ensures FromBytes(bs) < SIZE_LIMIT
  {
    ToFromBytes(bs);
    Pow2Literals();
  }

  // An element is recognised whatever bytes follow it: the images are prefix-free.
  lemma ParseElementBytes(t: Type, v: Value, rest: Bytes)
    requires HasType(t, v)
    ensures ParseElement(t, ElementBytes(t, v) + rest) == Some(Parsed(v, |ElementBytes(t, v)|))
  {
    var bs := ElementBytes(t, v) + rest;
    if t.String? {
      SizeRoundTrip(|v.s|);
      assert bs[..SIZE_BYTES] == ToBytes(|v.s|, SIZE_BYTES);
      assert bs[SIZE_BYTES..SIZE_BYTES + |v.s|] == v.s;
    } else {
      var w := Width(t);
      FromToBytes(AsUnsigned(v.n, w), w);
      assert bs[..w] == ElementBytes(t, v);
    }
  }

  // An element followed by a parsable block is a parsable block.
  lemma ParseCons(t: Type, first: Bytes, tail: Bytes, v: Value, count: nat, others: Parsed<seq<Value>>)
    requires ParseElement(t, first + tail) == Some(Parsed(v, |first|))
    requires ParseValues(t, tail, count) == Some(others)
    ensures ParseValues(t, first + tail, count + 1) == Some(Parsed([v] + others.value, |first| + others.used))
  {
    assert (first + tail)[|first|..] == tail;
  }

  lemma EmptyBlock(t: Type, vs: seq<Value>, bs: Bytes)
    requires |vs| == 0
    ensures ValuesBytes(t, vs) == [] && ParseValues(t, bs, |vs|) == Some(Parsed([], 0))
  {
  }

  lemma FirstElement(t: Type, vs: seq<Value>, rest: Bytes)
    requires AllTyped(t, vs) && |vs| > 0
    ensures var first, others := ElementBytes(t, vs[0]), ValuesBytes(t, vs[1..]);
            && ValuesBytes(t, vs) == first + others && ValuesBytes(t, vs) + rest == first + (others + rest)
  {
    hide ElementBytes;
    ConcatAssociates(ElementBytes(t, vs[0]), ValuesBytes(t, vs[1..]), rest);
  }

  lemma {:induction false} ParseValuesBytes(t: Type, vs: seq<Value>, rest: Bytes)
    requires AllTyped(t, vs)
    ensures ParseValues(t, ValuesBytes(t, vs) + rest, |vs|) == Some(Parsed(vs, |ValuesBytes(t, vs)|))
    decreases |vs|
  {
    hide ElementBytes, ParseElement, HasType, ValuesBytes, ParseValues;
    if |vs| == 0 {
      EmptyBlock(t, vs, ValuesBytes(t, vs) + rest);
    } else {
      var first, others := ElementBytes(t, vs[0]), ValuesBytes(t, vs[1..]);
      FirstElement(t, vs, rest);
      ParseElementBytes(t, vs[0], others + rest);
      ParseValuesBytes(t, vs[1..], rest);
      ParseCons(t, first, others + rest, vs[0], |vs| - 1, Parsed(vs[1..], |others|));
      HeadAndTail(vs);
    }
  }

  lemma {:induction false} ValuesBytesConcat(t: Type, a: seq<Value>, b: seq<Value>)
    requires AllTyped(t, a) && AllTyped(t, b)
    ensures ValuesBytes(t, a + b) == ValuesBytes(t, a) + ValuesBytes(t, b)
  {
    hide ElementBytes, HasType;
    if |a| == 0 {
      assert a + b == b;
    } else {
      assert (a + b)[0] == a[0] && (a + b)[1..] == a[1..] + b;
      ValuesBytesConcat(t, a[1..], b);
      ConcatAssociates(ElementBytes(t, a[0]), ValuesBytes(t, a[1..]), ValuesBytes(t, b));
    }
  }

  lemma ValuesBytesSnoc(t: Type, a: seq<Value>, v: Value)
    requires AllTyped(t, a) && HasType(t, v)
    ensures ValuesBytes(t, a + [v]) == ValuesBytes(t, a) + ElementBytes(t, v)
  {
    ValuesBytesConcat(t, a, [v]);
    assert [v][1..] == [];
    assert ValuesBytes(t, [v]) == ElementBytes(t, v) + [];
  }

  lemma {:induction false} FixedValuesSize(t: Type, vs: seq<Value>)
    requires AllTyped(t, vs)
    ensures !t.String? ==> |ValuesBytes(t, vs)| == |vs| * Width(t)
    ensures |ValuesBytes(t, vs)| >= |vs|
  {
    if |vs| > 0 {
      FixedValuesSize(t, vs[1..]);
      NextMultiple(|vs| - 1, Width(t));
    }
  }

  // A block of fixed-width elements is read exactly when it lies inside the buffer.
  lemma FixedElement(t: Type, bs: Bytes)
    requires !t.String?
    ensures ParseElement(t, bs).Some? <==> Width(t) <= |bs|
    ensures Width(t) <= |bs| ==> ParseElement(t, bs).value.used == Width(t)
  {
  }

  lemma {:induction false} FixedParseSize(t: Type, bs: Bytes, count: nat)
    requires !t.String?
    ensures ParseValues(t, bs, count).Some? <==> count * Width(t) <= |bs|
    ensures count * Width(t) <= |bs| ==> ParseValues(t, bs, count).value.used == count * Width(t)
  {
    hide ParseElement, HasType;
    if count > 0 {
      var w := Width(t);
      FixedElement(t, bs);
      NextMultiple(count - 1, w);
      TimesMonotonic(0, count - 1, w);
      if w <= |bs| {
        FixedParseSize(t, bs[w..], count - 1);
      }
    }
  }

  // Every vector lives in the process's address space.
  predicate InMemory(t: Type, vs: seq<Value>) {
    AllTyped(t, vs) && |ValuesBytes(t, vs)| < MEMORY_LIMIT
  }

  lemma MemoryBoundsCount(t: Type, vs: seq<Value>)
    requires InMemory(t, vs)
    ensures |vs| < MEMORY_LIMIT
  {
    FixedValuesSize(t, vs);
  }

  // ------------------------------------------------------- encoding_base

  function ElementValueSize(t: Type, v: Value): (size: nat)
    requires HasType(t, v)
    ensures size == |ElementBytes(t, v)|
  {
    if t.String? then SIZE_BYTES + |v.s| else Width(t)
  }

  method EstimateRaw(t: Type, input: seq<Value>) returns (size: nat)
    requires AllTyped(t, input)
    ensures size == |ValuesBytes(t, input)|
  {
    if t.String? {
      size := 0;
      for i := 0 to |input|
        invariant size == |ValuesBytes(t, input[..i])|
      {
        assert input[..i + 1] == input[..i] + [input[i]];
        ValuesBytesSnoc(t, input[..i], input[i]);
        size := size + ElementValueSize(t, input[i]);
      }
      assert input[..|input|] == input;
    } else {
      FixedValuesSize(t, input);
      size := |input| * Width(t);
    }
  }

  // A string behind the first i of the values: its length, then its characters.
  lemma NextString(output: Bytes, t: Type, input: seq<Value>, i: nat)
    requires t.String? && AllTyped(t, input) && i < |input|
    ensures output + ValuesBytes(t, input[..i + 1])
         == output + ValuesBytes(t, input[..i]) + ToBytes(|input[i].s|, SIZE_BYTES) + input[i].s
  {
    hide ValuesBytes, ToBytes;
    ValuesBytesSnoc(t, input[..i], input[i]);
    assert input[..i + 1] == input[..i] + [input[i]];
    ConcatFour(output, ValuesBytes(t, input[..i]), ToBytes(|input[i].s|, SIZE_BYTES), input[i].s);
  }

  lemma ConcatFour(a: Bytes, b: Bytes, c: Bytes, d: Bytes)
    ensures ((a + b) + c) + d == a + (b + (c + d))
  {
  }

  method WriteValues(t: Type, output: Bytes, input: seq<Value>) returns (output': Bytes)
    requires AllTyped(t, input)
    ensures output' == output + ValuesBytes(t, input)
  {
    hide ToBytes, ElementBytes;
    if t.String? {
      output' := output;
      for i := 0 to |input|
        invariant output' == output + ValuesBytes(t, input[..i])
      {
        NextString(output, t, input, i);
        output' := output' + ToBytes(|input[i].s|, SIZE_BYTES);
        output' := output' + input[i].s;
      }
      assert input[..|input|] == input;
    } else {
      output' := output + ValuesBytes(t, input);
    }
  }

  // What one turn of the string reader consumes, and what is left to parse.
  lemma ReadStringStep(input: Bytes, offset: nat, count: nat, whole: Parsed<seq<Value>>)
    returns (left: Parsed<seq<Value>>, text: Bytes, after: nat)
    requires offset <= |input| && count > 0
    requires ParseValues(String, input[offset..], count) == Some(whole)
    ensures offset + SIZE_BYTES <= after <= |input|
    ensures after == offset + SIZE_BYTES + FromBytes(input[offset..offset + SIZE_BYTES])
    ensures text == input[offset + SIZE_BYTES..after]
    ensures ParseValues(String, input[after..], count - 1) == Some(left)
    ensures whole.value == [Text(text)] + left.value && whole.used == after - offset + left.used
  {
    hide FromBytes;
    var here := input[offset..];
    var size := FromBytes(here[..SIZE_BYTES]);
    DropDrop(input, offset, SIZE_BYTES);
    after := offset + SIZE_BYTES + size;
    text := input[offset + SIZE_BYTES..after];
    DropDrop(input, offset, SIZE_BYTES + size);
    assert here[SIZE_BYTES..SIZE_BYTES + size] == text;
    left := ParseValues(String, input[after..], count - 1).value;
  }

  method ReadStrings(input: Bytes, offset: nat, count: nat) returns (output: seq<Value>, offset': nat)
    requires offset <= |input| && ParseValues(String, input[offset..], count).Some?
    ensures ParseValues(String, input[offset..], count).value.value == output
    ensures offset' == offset + ParseValues(String, input[offset..], count).value.used
  {
    hide FromBytes, ParseElement, HasType;
    ghost var goal := ParseValues(String, input[offset..], count).value;
    ghost var left := goal;
    output := [];
    offset' := offset;
    for i := 0 to count
      invariant offset' <= |input|
      invariant ParseValues(String, input[offset'..], count - i) == Some(left)
      invariant goal.value == output + left.value
      invariant goal.used == offset' - offset + left.used
    {
      ghost var left', text, after := ReadStringStep(input, offset', count - i, left);
      var size := FromBytes(input[offset'..offset' + SIZE_BYTES]);
      offset' := offset' + SIZE_BYTES;
      var str := input[offset'..offset' + size];
      assert str == text;
      MoveFirst(output, Text(str), left'.value);
      output := output + [Text(str)];
      offset' := offset' + size;
      assert offset' == after;
      left := left';
    }
  }

  method ReadValues(t: Type, input: Bytes, offset: nat, count: nat)
    returns (output: seq<Value>, offset': nat)
    requires offset <= |input| && ParseValues(t, input[offset..], count).Some?
    ensures var parsed := ParseValues(t, input[offset..], count).value;
            output == parsed.value && offset' == offset + parsed.used
    ensures offset' <= |input|
  {
    if t.String? {
      output, offset' := ReadStrings(input, offset, count);
    } else {
      FixedParseSize(t, input[offset..], count);
      output := ParseValues(t, input[offset..], count).value.value;
      offset' := offset + count * Width(t);
    }
  }
}
