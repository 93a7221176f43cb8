/** Memory images byte by byte and bit by bit: what stored numbers, strings and packed words are. */
module Images {
  import opened Words
  import opened BitPack
  import opened Values
  import opened PackedWords

  // -------------------------------------------------------------------- numbers

  lemma {:induction false} ShrShr(x: nat, a: nat, b: nat)
    ensures Shr(x, a + b) == Shr(Shr(x, a), b)
  {
    if a > 0 {
      assert a + b - 1 == a - 1 + b;
      ShrShr(x / 2, a - 1, b);
    }
  }

  // Byte i is the i-th digit in base 256, the least significant first.
  lemma {:induction false} ByteAt(n: nat, len: nat, i: nat)
    requires i < len
    ensures ToBytes(n, len)[i] == n / Pow2(8 * i) % 256
    decreases i
  {
    hide Shr;
    if i > 0 {
      ByteAt(n / 256, len - 1, i - 1);
      ShrShr(n, 8, 8 * (i - 1));
      ShiftsAreDivision(n, 8);
      ShiftsAreDivision(n, 8 * i);
      ShiftsAreDivision(n / 256, 8 * (i - 1));
      Pow2Literals();
    }
  }

  // The unsigned word of a number is the number modulo 2^(8w).
  lemma UnsignedIsModulo(n: int, w: nat)
    requires w > 0 && IsSigned(n, w)
    ensures AsUnsigned(n, w) == n % Pow2(8 * w)
  {
    DivModUnique(n, Pow2(8 * w), if n < 0 then -1 else 0, AsUnsigned(n, w));
  }

  // --------------------------------------------------------------------- values

  // The numbers a column of each type can hold.
  lemma TypeRanges(t: Type, n: int)
    ensures HasType(t, Word(n)) <==>
      match t
      case Char => -0x80 <= n < 0x80
      case Int16 => -0x8000 <= n < 0x8000
      case Int32 => -0x8000_0000 <= n < 0x8000_0000
      case Date => -0x8000_0000 <= n < 0x8000_0000
      case Float => -0x8000_0000 <= n < 0x8000_0000
      case Int64 => -0x8000_0000_0000_0000 <= n < 0x8000_0000_0000_0000
      case Timestamp => -0x8000_0000_0000_0000 <= n < 0x8000_0000_0000_0000
      case Double => -0x8000_0000_0000_0000 <= n < 0x8000_0000_0000_0000
      case Int128 =>
        -0x8000_0000_0000_0000_0000_0000_0000_0000 <= n < 0x8000_0000_0000_0000_0000_0000_0000_0000
      case String => false
  {
    Pow2Literals();
    Pow2Of127();
  }

  // A number's image: as many bytes as its type is wide, the two's complement digits in base 256.
  lemma WordImage(t: Type, n: int)
    requires HasType(t, Word(n))
    ensures |ElementBytes(t, Word(n))| ==
      match t
      case Char => 1
      case Int16 => 2
      case Int32 => 4
      case Date => 4
      case Float => 4
      case Int64 => 8
      case Timestamp => 8
      case Double => 8
      case Int128 => 16
      case String => 0
    ensures var image := ElementBytes(t, Word(n));
      forall i :: 0 <= i < |image| ==> image[i] == n % Pow2(8 * |image|) / Pow2(8 * i) % 256
  {
    hide Pow2, ToBytes;
    var w := Width(t);
    UnsignedIsModulo(n, w);
    forall i | 0 <= i < w
      ensures ToBytes(AsUnsigned(n, w), w)[i] == n % Pow2(8 * w) / Pow2(8 * i) % 256
    {
      ByteAt(AsUnsigned(n, w), w, i);
    }
  }

  // A string's image: eight bytes of length, then its characters.
  lemma TextImage(s: Bytes)
    requires HasType(String, Text(s))
    ensures var image := ElementBytes(String, Text(s));
      && |image| == 8 + |s| && image[8..] == s
      && forall i :: 0 <= i < 8 ==> image[i] == |s| / Pow2(8 * i) % 256
  {
    hide Pow2, ToBytes;
    forall i | 0 <= i < 8
      ensures ToBytes(|s|, 8)[i] == |s| / Pow2(8 * i) % 256
    {
      ByteAt(|s|, 8, i);
    }
  }

  // The image of element i of a block lies behind those of the elements before it.
  lemma ValueImage(t: Type, vs: seq<Value>, i: nat)
    requires AllTyped(t, vs) && i < |vs|
    ensures var at := |ValuesBytes(t, vs[..i])|; var size := |ElementBytes(t, vs[i])|;
      at + size <= |ValuesBytes(t, vs)| && ValuesBytes(t, vs)[at..at + size] == ElementBytes(t, vs[i])
    ensures !t.String? ==> |ValuesBytes(t, vs[..i])| == i * Width(t)
  {
    hide ElementBytes, ValuesBytes, HasType;
    assert vs == (vs[..i] + [vs[i]]) + vs[i + 1..];
    ValuesBytesConcat(t, vs[..i] + [vs[i]], vs[i + 1..]);
    ValuesBytesSnoc(t, vs[..i], vs[i]);
    FixedValuesSize(t, vs[..i]);
  }

  lemma {:induction false} RawWordAt(us: seq<nat>, width: nat, i: nat)
    requires i < |us|
    ensures var at := i * width;
      at + width <= |RawWords(us, width)| && RawWords(us, width)[at..at + width] == ToBytes(us[i], width)
    decreases i
  {
    hide ToBytes;
    var first, others := ToBytes(us[0], width), RawWords(us[1..], width);
    if i > 0 {
      RawWordAt(us[1..], width, i - 1);
      NextMultiple(i - 1, width);
      var at := (i - 1) * width;
      assert (first + others)[width + at..width + at + width] == others[at..at + width];
    }
  }

  // The width byte is the least width that holds every number.
  lemma WidthByteIsLeast(us: seq<nat>, bits: nat)
    requires AllBelow(us, SIZE_LIMIT) && bits >= 1
    ensures WidthByte(us) <= bits <==> forall i :: 0 <= i < |us| ==> us[i] < Pow2(bits)
  {
    BitWidthIsLeast(MaxOf(us), bits);
    Pow2Monotonic(0, bits);
  }

  // ----------------------------------------------------------------- packed bits

  // The bit at place p, by shifting.
  function Bit(n: nat, p: nat): nat {
    Shr(n, p) % 2
  }

  lemma BitIs(n: nat, p: nat)
    ensures Bit(n, p) == n / Pow2(p) % 2
  {
    ShiftsAreDivision(n, p);
  }

  lemma {:induction false} LowBit(low: nat, x: nat, k: nat, p: nat)
    requires p < k
    ensures Bit(low + Shl(x, k), p) == Bit(low, p)
  {
    assert Shl(x, k) == 2 * Shl(x, k - 1);
    if p > 0 {
      assert (low + Shl(x, k)) / 2 == low / 2 + Shl(x, k - 1);
      LowBit(low / 2, x, k - 1, p - 1);
    }
  }

  lemma HighBit(low: nat, x: nat, k: nat, p: nat)
    requires low < Pow2(k)
    ensures Bit(low + Shl(x, k), k + p) == Bit(x, p)
  {
    hide Shr, Shl;
    ShrShr(low + Shl(x, k), k, p);
    ShiftUnique(low, x, k);
  }

  lemma FirstByte(bs: Bytes)
    requires |bs| > 0
    ensures FromBytes(bs) == bs[0] + Shl(FromBytes(bs[1..]), 8)
  {
    Shl8(FromBytes(bs[1..]));
  }

  // Bit q of byte i is bit 8 * i + q of the little-endian number.
  lemma {:induction false} BytesBit(bs: Bytes, i: nat, q: nat)
    requires i < |bs| && q < 8
    ensures Bit(FromBytes(bs), 8 * i + q) == Bit(bs[i], q)
    decreases i
  {
    hide Bit, Shl, FromBytes;
    Pow2Literals();
    var rest := FromBytes(bs[1..]);
    FirstByte(bs);
    if i == 0 {
      LowBit(bs[0], rest, 8, q);
    } else {
      HighBit(bs[0], rest, 8, 8 * (i - 1) + q);
      BytesBit(bs[1..], i - 1, q);
    }
  }

  lemma {:induction false} BitOfLowBits(x: nat, k: nat, p: nat)
    requires p < k
    ensures Bit(LowBits(x, k), p) == Bit(x, p)
  {
    if p > 0 {
      BitOfLowBits(x / 2, k - 1, p - 1);
    }
  }

  lemma SumBit(us: seq<nat>, bits: nat, i: nat, q: nat)
    requires AllBelow(us, Pow2(bits)) && i < |us| && q < bits
    ensures Bit(WeightedSum(us, bits), i * bits + q) == Bit(us[i], q)
  {
    hide Shr, LowBits, WeightedSum;
    var n := WeightedSum(us, bits);
    ShlZero(BitOffset(|us|, bits));
    DigitOfSum(us, 0, i, bits);
    BitOffsetIsProduct(i, bits);
    BitOfLowBits(Shr(n, BitOffset(i, bits)), bits, q);
    ShrShr(n, BitOffset(i, bits), q);
  }

  // Bit q of the i-th number is bit i * bits + q of the output, counted from the lowest bit of the first byte.
  lemma PackedBit(us: seq<nat>, bits: nat, i: nat, q: nat)
    requires AllBelow(us, Pow2(bits)) && i < |us| && q < bits
    ensures var p := i * bits + q;
      p / 8 < |PackBits(us, bits)| && PackBits(us, bits)[p / 8] / Pow2(p % 8) % 2 == us[i] / Pow2(q) % 2
  {
    hide Bit, PackBits, WeightedSum, Pow2;
    var p := i * bits + q;
    PackedMeaning(us, bits);
    BitOffsetIsProduct(|us|, bits);
    NextMultiple(i, bits);
    TimesMonotonic(i + 1, |us|, bits);
    SumBit(us, bits, i, q);
    BytesBit(PackBits(us, bits), p / 8, p % 8);
    BitIs(PackBits(us, bits)[p / 8], p % 8);
    BitIs(us[i], q);
  }

  // The bits behind the last number are 0.
  lemma PaddingBit(us: seq<nat>, bits: nat, p: nat)
    requires AllBelow(us, Pow2(bits)) && |us| * bits <= p < 8 * |PackBits(us, bits)|
    ensures PackBits(us, bits)[p / 8] / Pow2(p % 8) % 2 == 0
  {
    hide Bit, PackBits, WeightedSum, Pow2;
    var n := WeightedSum(us, bits);
    PackedMeaning(us, bits);
    BitOffsetIsProduct(|us|, bits);
    WeightedSumBound(us, bits);
    BytesBit(PackBits(us, bits), p / 8, p % 8);
    BitIs(PackBits(us, bits)[p / 8], p % 8);
    NoBitAbove(n, |us| * bits, p);
  }

  lemma NoBitAbove(n: nat, k: nat, p: nat)
    requires n < Pow2(k) && k <= p
    ensures Bit(n, p) == 0
  {
    hide Shr, Shl;
    ShlZero(k);
    HighBit(n, 0, k, p - k);
    NoBits(p - k);
  }

  lemma {:induction false} NoBits(p: nat)
    ensures Bit(0, p) == 0
  {
    if p > 0 {
      NoBits(p - 1);
    }
  }

  // Bit q of the i-th unpacked number is the same bit of the input, whatever bytes these are.
  lemma UnpackedBit(bs: Bytes, count: nat, bits: nat, i: nat, q: nat)
    requires |bs| >= PackedSize(count, bits) && i < count && q < bits
    ensures var p := i * bits + q;
      p / 8 < |bs| && UnpackBits(bs, count, bits)[i] / Pow2(q) % 2 == bs[p / 8] / Pow2(p % 8) % 2
  {
    hide Bit, Pow2, Shr, LowBits, FromBytes;
    var p := i * bits + q;
    BitOffsetIsProduct(count, bits);
    BitOffsetIsProduct(i, bits);
    NextMultiple(i, bits);
    TimesMonotonic(i + 1, count, bits);
    var here := bs[..PackedSize(count, bits)];
    var n := FromBytes(here);
    BitOfLowBits(Shr(n, BitOffset(i, bits)), bits, q);
    ShiftedBit(n, BitOffset(i, bits), q);
    BytesBit(here, p / 8, p % 8);
    BitIs(bs[p / 8], p % 8);
    BitIs(UnpackBits(bs, count, bits)[i], q);
  }

  lemma ShiftedBit(n: nat, k: nat, q: nat)
    ensures Bit(Shr(n, k), q) == Bit(n, k + q)
  {
    ShrShr(n, k, q);
  }
}
