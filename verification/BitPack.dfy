/** The bit packer: `bits`-wide numbers pushed through a 128-bit window into bytes. */
module BitPack {
  import opened Words

  // ------------------------------------------------------------- bit widths

  // The fewest bits, at least one, that hold m.
  function BitWidth(m: nat): (bits: nat)
    ensures bits >= 1 && m < Pow2(bits)
    ensures bits > 1 ==> Pow2(bits - 1) <= m
  {
    if m < 2 then 1 else 1 + BitWidth(m / 2)
  }

  // No smaller positive width holds m, and widths of 64-bit numbers do not exceed 64.
  lemma BitWidthIsLeast(m: nat, bits: nat)
    requires bits >= 1
    ensures m < Pow2(bits) <==> BitWidth(m) <= bits
  {
    if m < Pow2(bits) && bits < BitWidth(m) {
      Pow2Monotonic(bits, BitWidth(m) - 1);
    }
    if BitWidth(m) <= bits {
      Pow2Monotonic(BitWidth(m), bits);
    }
  }

  method BitsRequired(maxValue: nat) returns (bits: nat)
    requires maxValue < SIZE_LIMIT
    ensures bits == BitWidth(maxValue)
    ensures 1 <= bits <= 64
  {
    Pow2Literals();
    BitWidthIsLeast(maxValue, 64);
    if maxValue == 0 {
      return 1;
    }
    bits := 1;
    while bits < 64 && Pow2(bits) <= maxValue
      invariant 1 <= bits <= BitWidth(maxValue)
    {
      BitWidthIsLeast(maxValue, bits);
      bits := bits + 1;
    }
    BitWidthIsLeast(maxValue, bits);
  }

  // The largest element, 0 for none: the running maximum of every width computation.
  function MaxOf(us: seq<nat>): (m: nat)
    ensures forall i :: 0 <= i < |us| ==> us[i] <= m
    ensures us != [] ==> m in us
    ensures us == [] ==> m == 0
  {
    if |us| == 0 then 0
    else
      var m := MaxOf(us[..|us| - 1]);
      if us[|us| - 1] > m then us[|us| - 1] else m
  }

  lemma MaxOfSnoc(us: seq<nat>, x: nat)
    ensures MaxOf(us + [x]) == if x > MaxOf(us) then x else MaxOf(us)
  {
    assert (us + [x])[..|us|] == us;
  }

  method MaxValue(us: seq<nat>) returns (m: nat)
    ensures m == MaxOf(us)
  {
    m := 0;
    for i := 0 to |us|
      invariant m == MaxOf(us[..i])
    {
      assert us[..i + 1][..i] == us[..i];
      if us[i] > m {
        m := us[i];
      }
    }
    assert us[..|us|] == us;
  }

  predicate AllBelow(us: seq<nat>, limit: nat) {
    forall i :: 0 <= i < |us| ==> us[i] < limit
  }

  // The width byte written in front of packed numbers: the fewest bits that hold them all.
  function WidthByte(us: seq<nat>): (bits: Byte)
    requires AllBelow(us, SIZE_LIMIT)
    ensures 1 <= bits <= 64 && AllBelow(us, Pow2(bits))
  {
    Pow2Literals();
    BitWidthIsLeast(MaxOf(us), 64);
    BitWidth(MaxOf(us))
  }

  // --------------------------------------------------- the packed number

  // i * bits, the position of the i-th number.
  function BitOffset(i: nat, bits: nat): nat {
    if i == 0 then 0 else BitOffset(i - 1, bits) + bits
  }

  lemma {:induction false} BitOffsetIsProduct(i: nat, bits: nat)
    ensures BitOffset(i, bits) == i * bits
  {
    if i > 0 {
      BitOffsetIsProduct(i - 1, bits);
      NextMultiple(i - 1, bits);
    }
  }

  lemma {:induction false} BitOffsetMonotonic(i: nat, j: nat, bits: nat)
    requires i <= j
    ensures BitOffset(i, bits) <= BitOffset(j, bits)
  {
    if i < j {
      BitOffsetMonotonic(i, j - 1, bits);
    }
  }

  // Sum of us[i] * 2^(i * bits): what the packed bytes mean as one number.
  function WeightedSum(us: seq<nat>, bits: nat): nat {
    if |us| == 0 then 0
    else WeightedSum(us[..|us| - 1], bits) + Shl(us[|us| - 1], BitOffset(|us| - 1, bits))
  }

  function PackedSize(count: nat, bits: nat): nat {
    (BitOffset(count, bits) + 7) / 8
  }

  function PackBits(us: seq<nat>, bits: nat): (bs: Bytes)
    ensures |bs| == PackedSize(|us|, bits)
  {
    ToBytes(WeightedSum(us, bits), PackedSize(|us|, bits))
  }

  // The i-th digit of n in base 2^bits.
  function Digit(n: nat, i: nat, bits: nat): nat {
    LowBits(Shr(n, BitOffset(i, bits)), bits)
  }

  // The first `count` numbers of `bits` bits each that the bytes hold.
  function UnpackBits(bs: Bytes, count: nat, bits: nat): (us: seq<nat>)
    requires |bs| >= PackedSize(count, bits)
    ensures |us| == count && AllBelow(us, Pow2(bits))
  {
    var n := FromBytes(bs[..PackedSize(count, bits)]);
    var us := seq(count, i requires 0 <= i => Digit(n, i, bits));
    assert AllBelow(us, Pow2(bits)) by {
      forall i | 0 <= i < count
        ensures us[i] < Pow2(bits)
      {
        LowBitsBound(Shr(n, BitOffset(i, bits)), bits);
      }
    }
    us
  }

  lemma WeightedSumSnoc(us: seq<nat>, x: nat, bits: nat)
    ensures WeightedSum(us + [x], bits) == WeightedSum(us, bits) + Shl(x, BitOffset(|us|, bits))
    ensures BitOffset(|us| + 1, bits) == BitOffset(|us|, bits) + bits
  {
    assert (us + [x])[..|us|] == us;
  }

  lemma {:induction false} WeightedSumBound(us: seq<nat>, bits: nat)
    requires AllBelow(us, Pow2(bits))
    ensures WeightedSum(us, bits) < Pow2(BitOffset(|us|, bits))
  {
    if |us| > 0 {
      var n := |us| - 1;
      WeightedSumBound(us[..n], bits);
      ShlBound(WeightedSum(us[..n], bits), us[n], BitOffset(n, bits), bits);
    }
  }

  // Numbers above the digits do not disturb them.
  lemma {:induction false} DigitOfSum(us: seq<nat>, above: nat, i: nat, bits: nat)
    requires AllBelow(us, Pow2(bits)) && i < |us|
    ensures Digit(WeightedSum(us, bits) + Shl(above, BitOffset(|us|, bits)), i, bits) == us[i]
  {
    var n := |us| - 1;
    var above' := us[n] + Shl(above, bits);
    ShlShl(above, bits, BitOffset(n, bits));
    ShlSum(us[n], Shl(above, bits), BitOffset(n, bits));
    if i == n {
      WeightedSumBound(us[..n], bits);
      ShiftUnique(WeightedSum(us[..n], bits), above', BitOffset(n, bits));
      ShiftUnique(us[n], above, bits);
    } else {
      DigitOfSum(us[..n], above', i, bits);
    }
  }

  // Bytes whose number continues a digit sequence unpack to that sequence.
  lemma UnpackOfSum(bs: Bytes, us: seq<nat>, above: nat, bits: nat)
    requires AllBelow(us, Pow2(bits))
    requires |bs| >= PackedSize(|us|, bits)
    requires FromBytes(bs[..PackedSize(|us|, bits)]) == WeightedSum(us, bits) + Shl(above, BitOffset(|us|, bits))
    ensures UnpackBits(bs, |us|, bits) == us
  {
    forall i | 0 <= i < |us|
      ensures UnpackBits(bs, |us|, bits)[i] == us[i]
    {
      DigitOfSum(us, above, i, bits);
    }
  }

  // The packed bytes are exactly the weighted sum, and no byte is wasted.
  lemma PackedMeaning(us: seq<nat>, bits: nat)
    requires AllBelow(us, Pow2(bits))
    ensures FromBytes(PackBits(us, bits)) == WeightedSum(us, bits)
    ensures BitOffset(|us|, bits) <= 8 * |PackBits(us, bits)| < BitOffset(|us|, bits) + 8
  {
    WeightedSumBound(us, bits);
    Pow2Monotonic(BitOffset(|us|, bits), 8 * PackedSize(|us|, bits));
    FromToBytes(WeightedSum(us, bits), PackedSize(|us|, bits));
  }

  // Whatever bytes follow, unpacking packed numbers restores them.
  lemma UnpackPack(us: seq<nat>, bits: nat, rest: Bytes)
    requires AllBelow(us, Pow2(bits))
    ensures UnpackBits(PackBits(us, bits) + rest, |us|, bits) == us
  {
    PackedMeaning(us, bits);
    var bs := PackBits(us, bits) + rest;
    assert bs[..PackedSize(|us|, bits)] == PackBits(us, bits);
    ShlZero(BitOffset(|us|, bits));
    UnpackOfSum(bs, us, 0, bits);
  }

  // ------------------------------------------------------------- the loops

  // The window loses a byte's worth of bits; a window of under eight bits loses all.
  lemma ByteOut(window: nat, windowBits: nat)
    requires window < Pow2(windowBits)
    ensures windowBits >= 8 ==> window / 256 < Pow2(windowBits - 8)
    ensures windowBits < 8 ==> window / 256 == 0
  {
    Pow2Literals();
    if windowBits >= 8 {
      Pow2Add(windowBits - 8, 8);
    } else {
      Pow2Monotonic(windowBits, 8);
    }
  }

  // One byte moved from the window to the output keeps their combined number.
  lemma FlushByte(done: Bytes, window: nat, low: Byte, high: nat)
    requires window == 256 * high + low
    ensures FromBytes(done) + Shl(window, 8 * |done|)
         == FromBytes(done + [low]) + Shl(high, 8 * (|done| + 1))
  {
    var shift := 8 * |done|;
    FromBytesSnoc(done, low);
    ShlShl(high, 8, shift);
    Shl8(high);
    ShlSum(low, 256 * high, shift);
  }

  // buf |= static_cast<unsigned __int128>(x) << bufBits, where x has `bits` bits:
  // nothing falls off the 128-bit word and no set bit is overwritten.
  method PushBits(buf: nat, bufBits: nat, x: nat, bits: nat) returns (r: nat)
    requires bufBits + bits <= 128 && buf < Pow2(bufBits) && x < Pow2(bits)
    ensures r == buf + Shl(x, bufBits)
    ensures r < Pow2(bufBits + bits)
  {
    ShlBound(buf, x, bufBits, bits);
    Pow2Monotonic(bufBits + bits, 128);
    OrIsPlus(buf, x, bufBits);
    LowBitsOfSmall(Shl(x, bufBits), 128);
    r := BitOr(buf, ShiftLeft128(x, bufBits));
  }

  // static_cast<uint64_t>(buf & mask) and buf >> bits: the lowest digit and the others.
  method PopBits(buf: nat, bufBits: nat, bits: nat) returns (digit: nat, left: nat)
    requires bits <= 64 && bits <= bufBits && buf < Pow2(bufBits)
    ensures digit == LowBits(buf, bits) && digit < Pow2(bits)
    ensures left == Shr(buf, bits) && left < Pow2(bufBits - bits)
  {
    ShrBound(buf, bits, bufBits - bits);
    var mask := Pow2(bits) - 1;
    AndMask(buf, bits);
    LowBitsBound(buf, bits);
    Pow2Monotonic(bits, 64);
    LowBitsOfSmall(LowBits(buf, bits), 64);
    digit := LowBits(BitAnd(buf, mask), 64);
    left := Shr(buf, bits);
  }

  // The sum grows by the value just pushed.
  lemma PushKeepsSum(input: seq<nat>, i: nat, bits: nat, done: nat, buf: nat, buf': nat, bufBits: nat, bytePos: nat)
    requires i < |input| && 8 * bytePos + bufBits == BitOffset(i, bits)
    requires buf' == buf + Shl(input[i], bufBits)
    requires WeightedSum(input[..i], bits) == done + Shl(buf, 8 * bytePos)
    ensures WeightedSum(input[..i + 1], bits) == done + Shl(buf', 8 * bytePos)
    ensures BitOffset(i + 1, bits) == BitOffset(i, bits) + bits
  {
    assert input[..i + 1] == input[..i] + [input[i]];
    WeightedSumSnoc(input[..i], input[i], bits);
    ShlShl(input[i], bufBits, 8 * bytePos);
    ShlSum(buf, Shl(input[i], bufBits), 8 * bytePos);
  }

  // Once every value is pushed, the output and a last partial byte are the packed number.
  lemma FinishPacking(done: Bytes, buf: nat, bufBits: nat, input: seq<nat>, bits: nat)
    requires bufBits < 8 && buf < Pow2(bufBits) && 8 * |done| + bufBits == BitOffset(|input|, bits)
    requires WeightedSum(input, bits) == FromBytes(done) + Shl(buf, 8 * |done|)
    ensures (if bufBits > 0 then done + [buf % 256] else done) == PackBits(input, bits)
  {
    hide ToBytes, FromBytes, WeightedSum;
    if bufBits > 0 {
      ByteOut(buf, bufBits);
      FlushByte(done, buf, buf % 256, 0);
      ShlZero(8 * (|done| + 1));
      BytesOfNumber(done + [buf % 256], WeightedSum(input, bits));
    } else {
      ShlZero(8 * |done|);
      BytesOfNumber(done, WeightedSum(input, bits));
    }
  }

  lemma BytesOfNumber(bs: Bytes, n: nat)
    requires FromBytes(bs) == n
    ensures ToBytes(n, |bs|) == bs
  {
    ToFromBytes(bs);
  }

  // The inner loop of the packer: whole bytes leave the window for the output.
  method DrainWindow(output: array<Byte>, bytePos: nat, buf: nat, bufBits: nat, ghost done: Bytes)
    returns (bytePos': nat, buf': nat, bufBits': nat, ghost done': Bytes)
    requires bufBits <= 71 && buf < Pow2(bufBits)
    requires 8 * bytePos + bufBits <= 8 * output.Length && output[..bytePos] == done
    modifies output
    ensures bufBits' < 8 && buf' < Pow2(bufBits')
    ensures 8 * bytePos' + bufBits' == 8 * bytePos + bufBits
    ensures output[..bytePos'] == done'
    ensures FromBytes(done') + Shl(buf', 8 * bytePos') == FromBytes(done) + Shl(buf, 8 * bytePos)
  {
    bytePos', buf', bufBits', done' := bytePos, buf, bufBits, done;
    while bufBits' >= 8
      invariant bufBits' <= 71 && buf' < Pow2(bufBits')
      invariant 8 * bytePos' + bufBits' == 8 * bytePos + bufBits
      invariant bytePos' <= output.Length && output[..bytePos'] == done'
      invariant FromBytes(done') + Shl(buf', 8 * bytePos') == FromBytes(done) + Shl(buf, 8 * bytePos)
    {
      ByteOut(buf', bufBits');
      FlushByte(done', buf', buf' % 256, buf' / 256);
      output[bytePos'] := buf' % 256;
      done' := done' + [buf' % 256];
      buf' := buf' / 256;
      bufBits' := bufBits' - 8;
      bytePos' := bytePos' + 1;
    }
  }

  lemma NothingPacked()
    ensures FromBytes([]) + Shl(0, 0) == 0
  {
  }

  method BitPackUnsigned(input: seq<nat>, bits: nat) returns (packed: Bytes)
    requires 1 <= bits <= 64 && AllBelow(input, Pow2(bits))
    ensures packed == PackBits(input, bits)
  {
    hide FromBytes, PackBits, Shl;
    BitOffsetIsProduct(|input|, bits);
    var outputSize := (|input| * bits + 7) / 8;
    var output := new Byte[outputSize](_ => 0);
    var buf: nat, bufBits: nat, bytePos: nat := 0, 0, 0;
    ghost var done: Bytes := [];
    NothingPacked();
    ghost var sum := WeightedSum(input[..0], bits);
    for i := 0 to |input|
      invariant bufBits < 8 && buf < Pow2(bufBits)
      invariant 8 * bytePos + bufBits == BitOffset(i, bits)
      invariant bytePos <= outputSize && output[..bytePos] == done
      invariant sum == WeightedSum(input[..i], bits)
      invariant sum == FromBytes(done) + Shl(buf, 8 * bytePos)
    {
      BitOffsetMonotonic(i + 1, |input|, bits);
      ghost var before := buf;
      buf := PushBits(buf, bufBits, input[i], bits);
      PushKeepsSum(input, i, bits, FromBytes(done), before, buf, bufBits, bytePos);
      bufBits := bufBits + bits;
      sum := WeightedSum(input[..i + 1], bits);
      bytePos, buf, bufBits, done := DrainWindow(output, bytePos, buf, bufBits, done);
    }
    assert input[..|input|] == input;
    FinishPacking(done, buf, bufBits, input, bits);
    if bufBits > 0 {
      output[bytePos] := buf % 256;
      done := done + [buf % 256];
    }
    packed := output[..];
    assert packed == done;
  }

  // A byte pushed above the window's bits extends the number read so far.
  lemma PullByte(input: Bytes, bytePos: nat, buf: nat, buf': nat, bufBits: nat, shift: nat, low: nat)
    requires bytePos < |input| && 8 * bytePos == shift + bufBits
    requires buf' == buf + Shl(input[bytePos], bufBits)
    requires FromBytes(input[..bytePos]) == low + Shl(buf, shift)
    ensures FromBytes(input[..bytePos + 1]) == low + Shl(buf', shift)
  {
    hide FromBytes, Shl;
    var x := input[bytePos];
    assert input[..bytePos + 1] == input[..bytePos] + [x];
    FromBytesSnoc(input[..bytePos], x);
    ShlShl(x, bufBits, shift);
    ShlSum(buf, Shl(x, bufBits), shift);
  }

  // The low bits are the next digit, the shifted window is what remains.
  lemma TakeDigit(digits: seq<nat>, buf: nat, bits: nat, taken: nat, left: nat)
    requires taken == LowBits(buf, bits) && left == Shr(buf, bits)
    ensures WeightedSum(digits, bits) + Shl(buf, BitOffset(|digits|, bits))
         == WeightedSum(digits + [taken], bits) + Shl(left, BitOffset(|digits| + 1, bits))
    ensures BitOffset(|digits| + 1, bits) == BitOffset(|digits|, bits) + bits
  {
    WeightedSumSnoc(digits, taken, bits);
    SplitWindow(buf, bits, BitOffset(|digits|, bits));
  }

  lemma SplitWindow(buf: nat, bits: nat, shift: nat)
    ensures Shl(buf, shift) == Shl(LowBits(buf, bits), shift) + Shl(Shr(buf, bits), shift + bits)
  {
    ShiftSplit(buf, bits);
    ShlShl(Shr(buf, bits), bits, shift);
    ShlSum(LowBits(buf, bits), Shl(Shr(buf, bits), bits), shift);
  }

  // Each number cast to an unsigned type of `width` bytes.
  function Truncated(us: seq<nat>, width: nat): (r: seq<nat>)
    ensures |r| == |us|
  {
    seq(|us|, i requires 0 <= i < |us| => LowBits(us[i], 8 * width))
  }

  lemma TruncatedBelow(us: seq<nat>, width: nat)
    ensures AllBelow(Truncated(us, width), Pow2(8 * width))
  {
    forall i | 0 <= i < |us|
      ensures Truncated(us, width)[i] < Pow2(8 * width)
    {
      LowBitsBound(us[i], 8 * width);
    }
  }

  lemma TruncatedSnoc(us: seq<nat>, x: nat, width: nat)
    ensures Truncated(us + [x], width) == Truncated(us, width) + [LowBits(x, 8 * width)]
  {
  }

  lemma TruncatedSmall(us: seq<nat>, width: nat)
    requires AllBelow(us, Pow2(8 * width))
    ensures Truncated(us, width) == us
  {
    forall i | 0 <= i < |us|
      ensures Truncated(us, width)[i] == us[i]
    {
      LowBitsOfSmall(us[i], 8 * width);
    }
  }

  lemma ByteFits(x: Byte)
    ensures x < Pow2(8)
  {
    Pow2Literals();
  }

  // The inner loop of the unpacker: bytes enter the window until it holds a number.
  method FillWindow(input: Bytes, bytePos: nat, buf: nat, bufBits: nat, bits: nat, ghost shift: nat, ghost low: nat)
    returns (bytePos': nat, buf': nat, bufBits': nat)
    requires bits <= 64 && bufBits < 8 && buf < Pow2(bufBits)
    requires 8 * bytePos == shift + bufBits && shift + bits <= 8 * |input|
    requires FromBytes(input[..bytePos]) == low + Shl(buf, shift)
    ensures bits <= bufBits' < bits + 8 && buf' < Pow2(bufBits')
    ensures 8 * bytePos' == shift + bufBits' && bytePos' <= |input|
    ensures FromBytes(input[..bytePos']) == low + Shl(buf', shift)
  {
    hide FromBytes, Shl;
    bytePos', buf', bufBits' := bytePos, buf, bufBits;
    while bufBits' < bits
      invariant bufBits' <= 71 && bufBits' < bits + 8 && buf' < Pow2(bufBits')
      invariant 8 * bytePos' == shift + bufBits' && bytePos' <= |input|
      invariant FromBytes(input[..bytePos']) == low + Shl(buf', shift)
    {
      ghost var before := buf';
      ByteFits(input[bytePos']);
      buf' := PushBits(buf', bufBits', input[bytePos'], 8);
      PullByte(input, bytePos', before, buf', bufBits', shift, low);
      bufBits' := bufBits' + 8;
      bytePos' := bytePos' + 1;
    }
  }

  // U has `width` bytes; the casts to uint64_t and to U drop the bits above.
  method BitUnpackUnsigned(input: Bytes, size: nat, bits: nat, width: nat) returns (output: seq<nat>)
    requires 1 <= bits <= 64 && |input| >= PackedSize(size, bits)
    ensures output == Truncated(UnpackBits(input, size, bits), width)
  {
    hide FromBytes, UnpackBits, Shl;
    var out := new nat[size](_ => 0);
    NothingPacked();
    var buf: nat, bufBits: nat, bytePos: nat := 0, 0, 0;
    ghost var digits: seq<nat> := [];
    ShlZero(0);
    for i := 0 to size
      invariant bufBits < 8 && buf < Pow2(bufBits)
      invariant 8 * bytePos == BitOffset(i, bits) + bufBits
      invariant bytePos <= |input|
      invariant |digits| == i && AllBelow(digits, Pow2(bits))
      invariant FromBytes(input[..bytePos]) == WeightedSum(digits, bits) + Shl(buf, BitOffset(i, bits))
      invariant out[..i] == Truncated(digits, width)
    {
      BitOffsetMonotonic(i + 1, size, bits);
      bytePos, buf, bufBits :=
        FillWindow(input, bytePos, buf, bufBits, bits, BitOffset(i, bits), WeightedSum(digits, bits));
      var taken, left := PopBits(buf, bufBits, bits);
      TakeDigit(digits, buf, bits, taken, left);
      TruncatedSnoc(digits, taken, width);
      out[i] := LowBits(taken, 8 * width);
      digits := digits + [taken];
      buf := left;
      bufBits := bufBits - bits;
    }
    assert bytePos == PackedSize(size, bits);
    UnpackOfSum(input, digits, buf, bits);
    output := out[..];
  }
}
