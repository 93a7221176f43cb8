/** Bytes, machine words and the little-endian and bitwise facts every codec rests on. */
module Words {
  type Byte = x: int | 0 <= x < 256
  type Bytes = seq<Byte>

  datatype Option<+T> = None | Some(value: T)

  // A parsed value together with the number of bytes the parser consumed.
  datatype Parsed<+T> = Parsed(value: T, used: nat)

  // sizeof(size_t) on the platforms the engine builds for.
  const SIZE_BYTES: nat := 8
  // One more than the largest size_t.
  const SIZE_LIMIT: nat := 0x1_0000_0000_0000_0000
  // A process has at most 2^56 bytes of address space, so no object is larger.
  const MEMORY_LIMIT: nat := 0x100_0000_0000_0000

  function Pow2(e: nat): (p: nat)
    ensures p >= 1
  {
    if e == 0 then 1 else 2 * Pow2(e - 1)
  }

  lemma {:induction false} Pow2Add(a: nat, b: nat)
    ensures Pow2(a + b) == Pow2(a) * Pow2(b)
  {
    if a > 0 {
      Pow2Add(a - 1, b);
      assert Pow2(a + b) == 2 * Pow2(a - 1 + b);
    }
  }

  lemma {:induction false} Pow2Monotonic(a: nat, b: nat)
    requires a <= b
    ensures Pow2(a) <= Pow2(b)
  {
    if a < b {
      Pow2Monotonic(a, b - 1);
    }
  }

  lemma {:induction false} Pow2Of(e: nat, half: nat, p: nat)
    requires e == half + half && Pow2(half) == p
    ensures Pow2(e) == p * p
    ensures e > 0 ==> 2 * Pow2(e - 1) == p * p
  {
    Pow2Add(half, half);
  }

  lemma Pow2Literals()
    ensures Pow2(7) == 0x80 && Pow2(8) == 0x100
    ensures Pow2(15) == 0x8000 && Pow2(16) == 0x1_0000
    ensures Pow2(31) == 0x8000_0000 && Pow2(32) == 0x1_0000_0000
    ensures Pow2(63) == 0x8000_0000_0000_0000 && Pow2(64) == SIZE_LIMIT
  {
    var e: nat := 8;
    assert Pow2(4) == 16;
    Pow2Of(e, 4, 16);
    Pow2Of(e + e, e, 0x100);
    Pow2Of(4 * e, 2 * e, 0x1_0000);
    Pow2Of(8 * e, 4 * e, 0x1_0000_0000);
  }

  // The range of a signed 128-bit number.
  lemma Pow2Of127()
    ensures Pow2(127) == 0x8000_0000_0000_0000_0000_0000_0000_0000
  {
    Pow2Literals();
    var e: nat := 128;
    Pow2Of(e, 64, SIZE_LIMIT);
  }

  // -------------------------------------------------------------------- shifts

  // x << k on unbounded numbers, x * 2^k.
  function Shl(x: nat, k: nat): nat {
    if k == 0 then x else 2 * Shl(x, k - 1)
  }

  // x >> k, the quotient by 2^k.
  function Shr(x: nat, k: nat): nat {
    if k == 0 then x else Shr(x / 2, k - 1)
  }

  // The low k bits of x, the remainder modulo 2^k.
  function LowBits(x: nat, k: nat): nat {
    if k == 0 then 0 else x % 2 + 2 * LowBits(x / 2, k - 1)
  }

  lemma {:induction false} LowBitsBound(x: nat, k: nat)
    ensures LowBits(x, k) < Pow2(k)
  {
    if k > 0 {
      LowBitsBound(x / 2, k - 1);
    }
  }

  lemma {:induction false} ShiftsAreDivision(x: nat, k: nat)
    ensures Shl(x, k) == x * Pow2(k)
    ensures x == Shr(x, k) * Pow2(k) + LowBits(x, k)
    ensures Shr(x, k) == x / Pow2(k) && LowBits(x, k) == x % Pow2(k)
  {
    if k > 0 {
      ShiftsAreDivision(x, k - 1);
      ShiftsAreDivision(x / 2, k - 1);
      TwiceTimes(Shr(x, k), Pow2(k - 1));
      TwiceTimes(x, Pow2(k - 1));
    }
    LowBitsBound(x, k);
    DivModUnique(x, Pow2(k), Shr(x, k), LowBits(x, k));
  }

  lemma TwiceTimes(a: int, p: int)
    ensures a * (2 * p) == 2 * (a * p)
  {
  }

  lemma DivModUnique(a: int, d: int, q: int, r: int)
    requires 0 <= r < d
    requires a == q * d + r
    ensures a / d == q && a % d == r
  {
    var e := q - a / d;
    assert e * d == a % d - r;
    if e >= 1 {
      TimesMonotonic(1, e, d);
    } else if e <= -1 {
      TimesMonotonic(e, -1, d);
    }
  }

  lemma {:induction false} ShlSum(x: nat, y: nat, k: nat)
    ensures Shl(x + y, k) == Shl(x, k) + Shl(y, k)
  {
    if k > 0 {
      ShlSum(x, y, k - 1);
    }
  }

  lemma {:induction false} ShlShl(x: nat, a: nat, b: nat)
    ensures Shl(x, a + b) == Shl(Shl(x, a), b)
    ensures Shl(x, a + b) == Shl(Shl(x, b), a)
    decreases a + b
  {
    if a > 0 {
      ShlShl(x, a - 1, b);
      assert a + b - 1 == a - 1 + b;
      ShlDouble(Shl(x, a - 1), b);
    } else {
      ShlZeroWidth(x);
    }
  }

  lemma {:induction false} ShlDouble(x: nat, k: nat)
    ensures Shl(2 * x, k) == 2 * Shl(x, k)
  {
    if k > 0 {
      ShlDouble(x, k - 1);
    }
  }

  lemma ShlZeroWidth(x: nat)
    ensures Shl(x, 0) == x
  {
  }

  lemma Shl8(x: nat)
    ensures Shl(x, 8) == 256 * x
  {
    ShiftsAreDivision(x, 8);
    Pow2Literals();
  }

  // A number below 2^k and one shifted past it occupy different bits.
  lemma {:induction false} ShlBound(low: nat, x: nat, k: nat, n: nat)
    requires low < Pow2(k) && x < Pow2(n)
    ensures low + Shl(x, k) < Pow2(k + n)
  {
    if k > 0 {
      ShlBound(low / 2, x, k - 1, n);
      assert k + n - 1 == k - 1 + n;
    }
  }

  lemma {:induction false} ShiftSplit(x: nat, k: nat)
    ensures x == LowBits(x, k) + Shl(Shr(x, k), k)
  {
    if k > 0 {
      ShiftSplit(x / 2, k - 1);
      assert x == 2 * (x / 2) + x % 2;
    }
  }

  lemma {:induction false} ShiftUnique(low: nat, x: nat, k: nat)
    requires low < Pow2(k)
    ensures Shr(low + Shl(x, k), k) == x
    ensures LowBits(low + Shl(x, k), k) == low
  {
    if k > 0 {
      ShiftUnique(low / 2, x, k - 1);
      assert (low + Shl(x, k)) / 2 == low / 2 + Shl(x, k - 1);
    }
  }

  lemma LowBitsOfSmall(x: nat, k: nat)
    requires x < Pow2(k)
    ensures LowBits(x, k) == x
  {
    ShiftUnique(x, 0, k);
    ShlZero(k);
  }

  lemma {:induction false} ShlZero(k: nat)
    ensures Shl(0, k) == 0
  {
    if k > 0 {
      ShlZero(k - 1);
    }
  }

  lemma {:induction false} ShrBound(x: nat, k: nat, n: nat)
    requires x < Pow2(k + n)
    ensures Shr(x, k) < Pow2(n)
  {
    if k > 0 {
      assert k + n - 1 == k - 1 + n;
      ShrBound(x / 2, k - 1, n);
    }
  }

  // ----------------------------------------------------------- sequence shuffles

  lemma ConcatAssociates<T>(a: seq<T>, b: seq<T>, c: seq<T>)
    ensures (a + b) + c == a + (b + c)
  {
  }

  lemma MoveFirst<T>(a: seq<T>, x: T, b: seq<T>)
    ensures a + ([x] + b) == (a + [x]) + b
  {
  }

  lemma HeadAndTail<T>(s: seq<T>)
    requires |s| > 0
    ensures [s[0]] + s[1..] == s
  {
  }

  // Where the three parts of a buffer start.
  lemma ThreeParts<T>(a: seq<T>, b: seq<T>, c: seq<T>, rest: seq<T>)
    ensures var s := a + b + c + rest;
            && s[..|a|] == a && s[|a|..] == b + (c + rest) && s[|a| + |b|..] == c + rest
  {
  }

  lemma DropPrefix<T>(a: seq<T>, b: seq<T>)
    ensures (a + b)[|a|..] == b && (a + b)[..|a|] == a
  {
  }

  lemma DropDrop<T>(s: seq<T>, i: nat, j: nat)
    requires i + j <= |s|
    ensures s[i..][j..] == s[i + j..] && s[i..][..j] == s[i..i + j]
  {
  }

  // ------------------------------------------------------- products of variables

  lemma NextMultiple(n: int, k: int)
    ensures (n + 1) * k == n * k + k
  {
  }

  lemma TimesMonotonic(a: int, b: int, k: nat)
    requires a <= b
    ensures a * k <= b * k
  {
  }

  // C++ division: toward zero.
  function Quotient(a: int, n: nat): int
    requires n > 0
  {
    if a >= 0 then a / n else -((-a) / n)
  }

  // ---------------------------------------------------- little-endian numbers

  function ToBytes(n: nat, len: nat): (bs: Bytes)
    ensures |bs| == len
  {
    if len == 0 then [] else [n % 256] + ToBytes(n / 256, len - 1)
  }

  function FromBytes(bs: Bytes): nat {
    if |bs| == 0 then 0 else bs[0] + 256 * FromBytes(bs[1..])
  }

  lemma {:induction false} FromToBytes(n: nat, len: nat)
    requires n < Pow2(8 * len)
    ensures FromBytes(ToBytes(n, len)) == n
  {
    if len > 0 {
      Pow2Add(8, 8 * (len - 1));
      assert Pow2(8 * len) == 256 * Pow2(8 * (len - 1));
      FromToBytes(n / 256, len - 1);
      assert ToBytes(n, len)[1..] == ToBytes(n / 256, len - 1);
    }
  }

  lemma {:induction false} ToFromBytes(bs: Bytes)
    ensures FromBytes(bs) < Pow2(8 * |bs|)
    ensures ToBytes(FromBytes(bs), |bs|) == bs
  {
    if |bs| > 0 {
      ToFromBytes(bs[1..]);
      Pow2Add(8, 8 * (|bs| - 1));
      assert Pow2(8 * |bs|) == 256 * Pow2(8 * (|bs| - 1));
      DivModUnique(FromBytes(bs), 256, FromBytes(bs[1..]), bs[0]);
    }
  }

  lemma {:induction false} FromBytesConcat(a: Bytes, b: Bytes)
    ensures FromBytes(a + b) == FromBytes(a) + Shl(FromBytes(b), 8 * |a|)
  {
    if |a| == 0 {
      assert a + b == b;
    } else {
      FromBytesConcat(a[1..], b);
      assert (a + b)[1..] == a[1..] + b;
      var high := Shl(FromBytes(b), 8 * |a[1..]|);
      ShlShl(FromBytes(b), 8 * |a[1..]|, 8);
      Shl8(high);
    }
  }

  lemma FromBytesSnoc(a: Bytes, x: Byte)
    ensures FromBytes(a + [x]) == FromBytes(a) + Shl(x, 8 * |a|)
  {
    FromBytesConcat(a, [x]);
    assert FromBytes([x]) == x + 256 * FromBytes([x][1..]);
  }

  // A size_t survives being stored as eight bytes and loaded again.
  lemma SizeRoundTrip(n: nat)
    requires n < SIZE_LIMIT
    ensures FromBytes(ToBytes(n, SIZE_BYTES)) == n
  {
    Pow2Literals();
    FromToBytes(n, SIZE_BYTES);
  }

  // ------------------------------------------- signed and unsigned, w bytes wide

  predicate IsSigned(n: int, w: nat)
    requires w > 0
  {
    -(Pow2(8 * w - 1) as int) <= n < Pow2(8 * w - 1)
  }

  // static_cast<U>(n) for a two's complement n of w bytes.
  function AsUnsigned(n: int, w: nat): (u: nat)
    requires w > 0 && IsSigned(n, w)
    ensures u < Pow2(8 * w)
    ensures AsSigned(u, w) == n
  {
    if n < 0 then n + Pow2(8 * w) else n
  }

  // static_cast<T>(u): the two's complement number with the same bits.
  function AsSigned(u: nat, w: nat): (n: int)
    requires w > 0 && u < Pow2(8 * w)
    ensures IsSigned(n, w)
  {
    if u < Pow2(8 * w - 1) then u else u - Pow2(8 * w)
  }

  // ------------------------------------------------------------ bit operations

  function BitOr(a: nat, b: nat): nat
    decreases a + b
  {
    if a == 0 && b == 0 then 0
    else (if a % 2 == 1 || b % 2 == 1 then 1 else 0) + 2 * BitOr(a / 2, b / 2)
  }

  function BitAnd(a: nat, b: nat): nat
    decreases a + b
  {
    if a == 0 || b == 0 then 0
    else (if a % 2 == 1 && b % 2 == 1 then 1 else 0) + 2 * BitAnd(a / 2, b / 2)
  }

  // x << k in an unsigned word of 128 bits: bits shifted past the top are lost.
  function ShiftLeft128(x: nat, k: nat): nat {
    LowBits(Shl(x, k), 128)
  }

  lemma {:induction false} OrZero(b: nat)
    ensures BitOr(0, b) == b
  {
    if b > 0 {
      OrZero(b / 2);
    }
  }

  // OR-ing a number into bits above all set bits of the other is addition.
  lemma {:induction false} OrIsPlus(a: nat, x: nat, k: nat)
    requires a < Pow2(k)
    ensures BitOr(a, Shl(x, k)) == a + Shl(x, k)
  {
    if k == 0 {
      OrZero(x);
    } else {
      OrIsPlus(a / 2, x, k - 1);
    }
  }

  // AND with a mask of k ones keeps the low k bits.
  lemma {:induction false} AndMask(a: nat, k: nat)
    ensures BitAnd(a, Pow2(k) - 1) == LowBits(a, k)
  {
    if k > 0 {
      AndMask(a / 2, k - 1);
      assert (Pow2(k) - 1) / 2 == Pow2(k - 1) - 1 && (Pow2(k) - 1) % 2 == 1;
      if a == 0 {
        LowBitsOfSmall(0, k);
      }
    }
  }
}
