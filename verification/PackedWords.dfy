/** Vectors of unsigned words behind a dictionary or a run list: raw, or a width byte and packed bits. */
module PackedWords {
  import opened Words
  import opened BitPack

  // The memory image of a vector of words of `width` bytes.
  function RawWords(us: seq<nat>, width: nat): Bytes {
    if |us| == 0 then [] else ToBytes(us[0], width) + RawWords(us[1..], width)
  }

  function WordsBytes(us: seq<nat>, packed: bool, bits: Byte, width: nat): Bytes {
    if packed then [bits] + PackBits(us, bits) else RawWords(us, width)
  }

  function ParseRawWords(bs: Bytes, count: nat, width: nat): (r: Option<Parsed<seq<nat>>>)
    ensures r.Some? ==> r.value.used <= |bs| && |r.value.value| == count
    decreases count
  {
    if count == 0 then Some(Parsed([], 0))
    else if |bs| < width then None
    else
      match ParseRawWords(bs[width..], count - 1, width)
      case None => None
      case Some(others) => Some(Parsed([FromBytes(bs[..width])] + others.value, width + others.used))
  }

  // None where the engine would read past the end, or with a width it never writes.
  function ParseWords(bs: Bytes, count: nat, packed: bool, width: nat): (r: Option<Parsed<seq<nat>>>)
    ensures r.Some? ==> r.value.used <= |bs| && |r.value.value| == count
  {
    if packed then
      if |bs| == 0 || !(1 <= bs[0] <= 64) || |bs| - 1 < PackedSize(count, bs[0]) then None
      else Some(Parsed(Truncated(UnpackBits(bs[1..], count, bs[0]), width), 1 + PackedSize(count, bs[0])))
    else ParseRawWords(bs, count, width)
  }

  lemma {:induction false} RawWordsSize(us: seq<nat>, width: nat)
    ensures |RawWords(us, width)| == |us| * width
  {
    if |us| > 0 {
      RawWordsSize(us[1..], width);
      NextMultiple(|us| - 1, width);
    }
  }

  lemma {:induction false} RawWordsSnoc(us: seq<nat>, x: nat, width: nat)
    ensures RawWords(us + [x], width) == RawWords(us, width) + ToBytes(x, width)
  {
    if |us| == 0 {
      assert ([x])[1..] == [];
      assert us + [x] == [x];
    } else {
      RawWordsSnoc(us[1..], x, width);
      assert (us + [x])[1..] == us[1..] + [x];
    }
  }

  lemma {:induction false} ParseRawWordsSize(bs: Bytes, count: nat, width: nat)
    requires ParseRawWords(bs, count, width).Some?
    ensures ParseRawWords(bs, count, width).value.used == count * width
    decreases count
  {
    if count > 0 {
      ParseRawWordsSize(bs[width..], count - 1, width);
      NextMultiple(count - 1, width);
    }
  }

  lemma {:induction false} ParseRawWordsBytes(us: seq<nat>, width: nat, rest: Bytes)
    requires AllBelow(us, Pow2(8 * width))
    ensures ParseRawWords(RawWords(us, width) + rest, |us|, width) == Some(Parsed(us, |RawWords(us, width)|))
  {
    if |us| > 0 {
      var first, others := ToBytes(us[0], width), RawWords(us[1..], width);
      FromToBytes(us[0], width);
      ParseRawWordsBytes(us[1..], width, rest);
      ParseRawCons(first, others + rest, |us| - 1, width, Parsed(us[1..], |others|));
      assert (first + others) + rest == first + (others + rest);
      assert [us[0]] + us[1..] == us;
    }
  }

  lemma ParseRawCons(first: Bytes, tail: Bytes, count: nat, width: nat, others: Parsed<seq<nat>>)
    requires |first| == width
    requires ParseRawWords(tail, count, width) == Some(others)
    ensures ParseRawWords(first + tail, count + 1, width)
         == Some(Parsed([FromBytes(first)] + others.value, width + others.used))
  {
    assert (first + tail)[width..] == tail;
    assert (first + tail)[..width] == first;
  }

  // Both layouts are recognised whatever follows them.
  lemma ParseWordsBytes(us: seq<nat>, packed: bool, bits: Byte, width: nat, rest: Bytes)
    requires AllBelow(us, Pow2(8 * width))
    requires packed ==> 1 <= bits <= 64 && AllBelow(us, Pow2(bits))
    ensures ParseWords(WordsBytes(us, packed, bits, width) + rest, |us|, packed, width)
         == Some(Parsed(us, |WordsBytes(us, packed, bits, width)|))
  {
    if packed {
      var bs := WordsBytes(us, packed, bits, width) + rest;
      assert bs[1..] == PackBits(us, bits) + rest;
      UnpackPack(us, bits, rest);
      TruncatedSmall(us, width);
    } else {
      ParseRawWordsBytes(us, width, rest);
    }
  }

  // A vector of size_t, packed as narrowly as its largest element allows.
  function CountsBytes(us: seq<nat>, packed: bool): Bytes
    requires AllBelow(us, SIZE_LIMIT)
  {
    WordsBytes(us, packed, WidthByte(us), SIZE_BYTES)
  }

  lemma ParseCountsBytes(us: seq<nat>, packed: bool, rest: Bytes)
    requires AllBelow(us, SIZE_LIMIT)
    ensures ParseWords(CountsBytes(us, packed) + rest, |us|, packed, SIZE_BYTES)
         == Some(Parsed(us, |CountsBytes(us, packed)|))
  {
    Pow2Literals();
    ParseWordsBytes(us, packed, WidthByte(us), SIZE_BYTES, rest);
  }

  lemma WordsBytesSize(us: seq<nat>, packed: bool, bits: Byte, width: nat)
    ensures |WordsBytes(us, packed, bits, width)| == if packed then 1 + (|us| * bits + 7) / 8 else |us| * width
  {
    BitOffsetIsProduct(|us|, bits);
    RawWordsSize(us, width);
  }

  method WriteWords(output: Bytes, us: seq<nat>, packed: bool, bits: Byte, width: nat) returns (output': Bytes)
    requires packed ==> 1 <= bits <= 64 && AllBelow(us, Pow2(bits))
    ensures output' == output + WordsBytes(us, packed, bits, width)
  {
    if packed {
      var packedWords := BitPackUnsigned(us, bits);
      output' := output + [bits];
      output' := output' + packedWords;
    } else {
      output' := output + RawWords(us, width);
    }
  }

  method ReadWords(input: Bytes, offset: nat, count: nat, packed: bool, width: nat)
    returns (us: seq<nat>, offset': nat)
    requires offset <= |input| && ParseWords(input[offset..], count, packed, width).Some?
    ensures ParseWords(input[offset..], count, packed, width).value.value == us
    ensures offset' == offset + ParseWords(input[offset..], count, packed, width).value.used
    ensures offset' <= |input| && |us| == count
  {
    if packed {
      var bits := input[offset];
      offset' := offset + 1;
      assert input[offset..][1..] == input[offset'..];
      us := BitUnpackUnsigned(input[offset'..], count, bits, width);
      BitOffsetIsProduct(count, bits);
      offset' := offset' + (count * bits + 7) / 8;
    } else {
      ParseRawWordsSize(input[offset..], count, width);
      us := ParseRawWords(input[offset..], count, width).value.value;
      offset' := offset + count * width;
    }
  }
}
