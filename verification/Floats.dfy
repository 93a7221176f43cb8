/** What floating-point words mean: IEEE 754 binary32 and binary64 numbers and their integer parts. */
module Floats {
  import opened Words
  import opened Values

  // Bits of the fraction field.
  function FractionBits(t: Type): nat
    requires IsFloat(t)
  {
    if t.Float? then 23 else 52
  }

  // The exponent field of infinities and NaNs.
  function TopExponent(t: Type): nat
    requires IsFloat(t)
  {
    if t.Float? then 255 else 2047
  }

  // The word without its sign bit.
  function Magnitude(t: Type, n: int): (m: nat)
    requires IsFloat(t) && HasType(t, Word(n))
  {
    if n < 0 then n + Pow2(8 * Width(t) - 1) else n
  }

  // The number a magnitude with p fraction bits stands for, in units of the least positive one: a subnormal is
  // its fraction, a normal number its fraction with the hidden bit, doubled once per exponent above the first.
  function Units(p: nat, magnitude: nat): nat {
    var exponent, fraction := Shr(magnitude, p), LowBits(magnitude, p);
    if exponent == 0 then fraction else Shl(Pow2(p) + fraction, exponent - 1)
  }

  // The number a word stands for, in the same units; both zeros are 0.
  function Number(t: Type, n: int): int
    requires IsFloat(t) && HasType(t, Word(n))
  {
    var units: int := Units(FractionBits(t), Magnitude(t, n));
    if n < 0 then -units else units
  }

  predicate IsNaN(t: Type, v: Value) {
    IsFloat(t) && HasType(t, v) && Magnitude(t, v.n) > Shl(TopExponent(t), FractionBits(t))
  }

  // There is one.
  lemma SomeNaN() returns (nan: Value)
    ensures IsNaN(Float, nan)
  {
    nan := Word(0x7FC0_0000);
    Pow2Literals();
    Pow2Add(8, 15);
    ShiftsAreDivision(255, 23);
  }

  // A value as comparisons see it: a floating-point word is the number it stands for.
  function Ranked(t: Type, v: Value): Value {
    if IsFloat(t) && HasType(t, v) then Word(Number(t, v.n)) else v
  }

  // static_cast<__int128>: the number without its fraction. Words far out of range, infinities and NaNs
  // included, stand for integers far out of range here.
  function IntegerPart(t: Type, n: int): int
    requires IsFloat(t) && HasType(t, Word(n))
  {
    Quotient(Number(t, n), UnitsPerOne(t))
  }

  // The exponent field of 1.0 is half the largest one.
  function UnitsPerOne(t: Type): nat
    requires IsFloat(t)
  {
    Pow2(TopExponent(t) / 2 + FractionBits(t) - 1)
  }

  // The word with that exponent field and no fraction is 1.
  lemma OneIsOne(t: Type, one: int)
    requires IsFloat(t) && one == Shl(TopExponent(t) / 2, FractionBits(t)) && HasType(t, Word(one))
    ensures IntegerPart(t, one) == 1
  {
    hide Pow2, Shl, Units, IsSigned;
    OneInUnits(FractionBits(t), TopExponent(t) / 2);
    QuotientOfSelf(UnitsPerOne(t));
  }

  lemma QuotientOfSelf(n: nat)
    requires n > 0
    ensures Quotient(n, n) == 1
  {
  }

  lemma OneInUnits(p: nat, bias: nat)
    requires bias > 0
    ensures Units(p, Shl(bias, p)) == Pow2(bias + p - 1)
  {
    ShiftUnique(0, bias, p);
    ShlOfOne(p);
    ShlShl(1, p, bias - 1);
    ShlOfOne(p + (bias - 1));
  }

  // Which words are NaN, in hexadecimal: those behind infinity, in either half.
  lemma NaNWords(t: Type, n: int)
    requires (t.Float? || t.Double?) && HasType(t, Word(n))
    ensures IsNaN(t, Word(n)) <==>
      if t.Float? then n > 0x7F80_0000 || (n < 0 && n + 0x8000_0000 > 0x7F80_0000)
      else n > 0x7FF0_0000_0000_0000 || (n < 0 && n + 0x8000_0000_0000_0000 > 0x7FF0_0000_0000_0000)
  {
    hide Shl, Pow2;
    FractionPowers();
    ShiftsAreDivision(255, 23);
    ShiftsAreDivision(2047, 52);
  }

  lemma FractionPowers()
    ensures Pow2(23) == 0x80_0000 && Pow2(52) == 0x10_0000_0000_0000
    ensures Pow2(31) == 0x8000_0000 && Pow2(63) == 0x8000_0000_0000_0000
  {
    hide Pow2;
    Pow2Literals();
    Pow2Add(8, 15);
    Pow2Add(31, 16);
    Pow2Add(47, 5);
    assert Pow2(5) == 32 by {
      Pow2Five();
    }
  }

  lemma Pow2Five()
    ensures Pow2(5) == 32
  {
  }

  // The integer part of a word with exponent field e and fraction f: (1 + f / 2^p) * 2^(e - bias), cut toward zero.
  lemma IntegerPartIs(t: Type, n: int)
    requires (t.Float? || t.Double?) && HasType(t, Word(n))
    ensures
      var p, bias := if t.Float? then 23 else 52, if t.Float? then 127 else 1023;
      var m := if n >= 0 then n else n + if t.Float? then 0x8000_0000 else 0x8000_0000_0000_0000;
      var e, f := m / Pow2(p), m % Pow2(p);
      var part := if e < bias then 0
                  else if e < bias + p then (Pow2(p) + f) / Pow2(bias + p - e)
                  else (Pow2(p) + f) * Pow2(e - bias - p);
      m >= 0 && IntegerPart(t, n) == if n >= 0 then part else -part
  {
    hide Pow2, Shl, Shr, LowBits, Units, IntegerPart;
    FractionPowers();
    var p, m := FractionBits(t), Magnitude(t, n);
    ShiftsAreDivision(m, p);
    UnitsOver(p, TopExponent(t) / 2, m);
    PartOfUnits(t, n);
  }

  lemma PartOfUnits(t: Type, n: int)
    requires IsFloat(t) && HasType(t, Word(n))
    ensures var part := Units(FractionBits(t), Magnitude(t, n)) / Pow2(TopExponent(t) / 2 + FractionBits(t) - 1);
      IntegerPart(t, n) == if n >= 0 then part else -part
  {
    hide Units, Pow2;
    SmallQuotient(0, UnitsPerOne(t));
  }

  // Units divided by those of 1.
  lemma UnitsOver(p: nat, bias: nat, m: nat)
    requires p > 0 && bias > 1
    ensures var e, f := Shr(m, p), LowBits(m, p);
      Units(p, m) / Pow2(bias + p - 1) ==
        if e < bias then 0
        else if e < bias + p then (Pow2(p) + f) / Pow2(bias + p - e)
        else (Pow2(p) + f) * Pow2(e - bias - p)
  {
    hide Pow2, Shr, LowBits;
    var e, f := Shr(m, p), LowBits(m, p);
    LowBitsBound(m, p);
    if e == 0 {
      Pow2Monotonic(p, bias + p - 1);
      SmallQuotient(f, Pow2(bias + p - 1));
    } else {
      var x := Pow2(p) + f;
      ShiftsAreDivision(x, e - 1);
      if e < bias + p {
        Pow2Add(e - 1, bias + p - e);
        CancelFactor(x, Pow2(e - 1), Pow2(bias + p - e));
        if e < bias {
          Pow2Add(1, p);
          Pow2One();
          Pow2Monotonic(p + 1, bias + p - e);
          SmallQuotient(x, Pow2(bias + p - e));
        }
      } else {
        Pow2Add(e - bias - p, bias + p - 1);
        WholeMultiple(x, Pow2(e - bias - p), Pow2(bias + p - 1));
      }
    }
  }

  lemma Pow2One()
    ensures Pow2(1) == 2
  {
  }

  lemma SmallQuotient(x: nat, d: nat)
    requires x < d
    ensures x / d == 0
  {
  }

  lemma CancelFactor(x: nat, c: nat, d: nat)
    requires c > 0 && d > 0
    ensures c * d > 0 && (x * c) / (c * d) == x / d
  {
    var q, r := x / d, x % d;
    Scaled(x, q, d, r, c);
    LessTimes(r, d, c);
    LessTimes(0, d, c);
    DivModUnique(x * c, c * d, q, r * c);
  }

  lemma Scaled(x: nat, q: nat, d: nat, r: nat, c: nat)
    requires x == q * d + r
    ensures x * c == q * (c * d) + r * c
  {
    assert (q * d + r) * c == (q * d) * c + r * c;
    Reassociate(q, d, c);
  }

  lemma Reassociate(q: nat, d: nat, c: nat)
    ensures (q * d) * c == q * (c * d)
  {
  }

  lemma LessTimes(r: nat, d: nat, c: nat)
    requires r < d && c > 0
    ensures 0 <= r * c < c * d
  {
    TimesMonotonic(r + 1, d, c);
    NextMultiple(r, c);
  }

  lemma WholeMultiple(x: nat, c: nat, d: nat)
    requires d > 0
    ensures (x * (c * d)) / d == x * c
  {
    Reassociate(x, c, d);
    assert (x * c) * d == x * (d * c) == x * (c * d);
    DivModUnique(x * (c * d), d, x * c, 0);
  }

  // ------------------------------------------------------- numbers tell words apart

  lemma {:induction false} ShlGrows(x: nat, y: nat, k: nat)
    requires x < y
    ensures Shl(x, k) < Shl(y, k)
  {
    if k > 0 {
      ShlGrows(x, y, k - 1);
    }
  }

  lemma {:induction false} ShlOfOne(k: nat)
    ensures Shl(1, k) == Pow2(k)
  {
    if k > 0 {
      ShlOfOne(k - 1);
    }
  }

  // The next magnitude stands for a greater number, also where the exponent steps up.
  lemma UnitsStep(p: nat, m: nat)
    ensures Units(p, m) < Units(p, m + 1)
  {
    var e, f := Shr(m, p), LowBits(m, p);
    ShiftSplit(m, p);
    LowBitsBound(m, p);
    if f + 1 < Pow2(p) {
      ShiftUnique(f + 1, e, p);
      if e > 0 {
        ShlGrows(Pow2(p) + f, Pow2(p) + f + 1, e - 1);
      }
    } else {
      ShlOfOne(p);
      ShlSum(e, 1, p);
      ShiftUnique(0, e + 1, p);
      if e > 0 {
        ShlGrows(Pow2(p) + f, 2 * Pow2(p), e - 1);
        ShlDouble(Pow2(p), e - 1);
      }
    }
  }

  // Greater magnitudes stand for greater numbers.
  lemma {:induction false} UnitsGrow(p: nat, m: nat, m': nat)
    requires m < m'
    ensures Units(p, m) < Units(p, m')
    decreases m' - m
  {
    UnitsStep(p, m);
    if m + 1 < m' {
      UnitsGrow(p, m + 1, m');
    }
  }

  lemma ZeroUnits(p: nat)
    ensures Units(p, 0) == 0
  {
    ShlZero(p);
    Pow2Monotonic(0, p);
    ShiftUnique(0, 0, p);
  }

  // Two words stand for one number exactly when they are equal or both zero.
  lemma NumbersTellWordsApart(t: Type, a: int, b: int)
    requires IsFloat(t) && HasType(t, Word(a)) && HasType(t, Word(b))
    ensures Number(t, a) == Number(t, b) <==> a == b || (Magnitude(t, a) == 0 && Magnitude(t, b) == 0)
  {
    hide Units;
    var p, m, m' := FractionBits(t), Magnitude(t, a), Magnitude(t, b);
    ZeroUnits(p);
    if m > 0 {
      UnitsGrow(p, 0, m);
    }
    if m' > 0 {
      UnitsGrow(p, 0, m');
    }
    if m < m' {
      UnitsGrow(p, m, m');
    } else if m' < m {
      UnitsGrow(p, m', m);
    }
  }

  // The order of the numbers, read off the words: positive ones as they are, negative ones the other way round, the
  // two zeros equal.
  lemma NumbersInOrder(t: Type, a: int, b: int)
    requires (t.Float? || t.Double?) && HasType(t, Word(a)) && HasType(t, Word(b))
    ensures Number(t, a) < Number(t, b) <==>
      if a >= 0 && b >= 0 then a < b
      else if a < 0 && b < 0 then b < a
      else a < 0 && !(b == 0 && a == if t.Float? then -0x8000_0000 else -0x8000_0000_0000_0000)
  {
    hide Units, Pow2;
    FractionPowers();
    var p, m, m' := FractionBits(t), Magnitude(t, a), Magnitude(t, b);
    ZeroUnits(p);
    if m > 0 {
      UnitsGrow(p, 0, m);
    }
    if m' > 0 {
      UnitsGrow(p, 0, m');
    }
    if m < m' {
      UnitsGrow(p, m, m');
    } else if m' < m {
      UnitsGrow(p, m', m);
    }
  }

  // ------------------------------------------------------------------ equality

  // operator== of the element type.
  predicate Equal(t: Type, a: Value, b: Value) {
    !IsNaN(t, a) && !IsNaN(t, b) && Ranked(t, a) == Ranked(t, b)
  }

  // Equality spelled out: the same word, or both zero; never a NaN.
  lemma EqualIs(t: Type, a: Value, b: Value)
    requires HasType(t, a) && HasType(t, b)
    ensures Equal(t, a, b) <==> !IsNaN(t, a) && !IsNaN(t, b) && (a == b || (IsZero(t, a) && IsZero(t, b)))
  {
    hide Number, Magnitude, IsNaN, IsZero;
    if !IsNaN(t, a) && !IsNaN(t, b) {
      EqualMeans(t, a, b);
    }
  }

  // The two zeros are the word 0 and the word of the sign alone.
  lemma ZeroWords(t: Type, n: int)
    requires (t.Float? || t.Double?) && HasType(t, Word(n))
    ensures IsZero(t, Word(n)) <==> n == 0 || n == if t.Float? then -0x8000_0000 else -0x8000_0000_0000_0000
  {
    FractionPowers();
  }

  // What equality tells apart: values that can be found again, and values that equal nothing, not even themselves.
  datatype Label = Found(rank: Value) | Lone(place: nat)

  function LabelAt(t: Type, v: Value, place: nat): Label {
    if IsNaN(t, v) then Lone(place) else Found(Ranked(t, v))
  }

  function Labels(t: Type, vs: seq<Value>): (ls: seq<Label>)
    ensures |ls| == |vs|
  {
    seq(|vs|, i requires 0 <= i < |vs| => LabelAt(t, vs[i], i))
  }

  // Elements in different places are equal exactly when they have one label.
  lemma LabelsAreEquality(t: Type, vs: seq<Value>, i: nat, j: nat)
    requires i < |vs| && j < |vs| && i != j
    ensures Labels(t, vs)[i] == Labels(t, vs)[j] <==> Equal(t, vs[i], vs[j])
  {
  }

  lemma LabelsSnoc(t: Type, vs: seq<Value>, v: Value)
    ensures Labels(t, vs + [v]) == Labels(t, vs) + [LabelAt(t, v, |vs|)]
  {
  }

  lemma LabelsPrefix(t: Type, vs: seq<Value>, i: nat)
    requires i <= |vs|
    ensures Labels(t, vs[..i]) == Labels(t, vs)[..i]
  {
  }

  // Elements with one label are one word, but for the two zeros.
  lemma OneWordUnlessZero(t: Type, a: Value, b: Value)
    requires HasType(t, a) && HasType(t, b)
    ensures (Equal(t, a, b) ==> a == b) <==> (IsZero(t, a) && IsZero(t, b) ==> a == b)
  {
    if !IsNaN(t, a) && !IsNaN(t, b) {
      EqualMeans(t, a, b);
    } else {
      NaNIsNoZero(t, a);
      NaNIsNoZero(t, b);
    }
  }

  lemma NaNIsNoZero(t: Type, v: Value)
    ensures !(IsNaN(t, v) && IsZero(t, v))
  {
  }

  predicate IsZero(t: Type, v: Value) {
    IsFloat(t) && HasType(t, v) && Magnitude(t, v.n) == 0
  }

  // Equal elements are one word, but for the two zeros.
  lemma EqualMeans(t: Type, a: Value, b: Value)
    requires HasType(t, a) && HasType(t, b) && !IsNaN(t, a) && !IsNaN(t, b)
    ensures Equal(t, a, b) <==> a == b || (IsZero(t, a) && IsZero(t, b))
  {
    hide Number, Magnitude, IsNaN;
    if IsFloat(t) {
      NumbersTellWordsApart(t, a.n, b.n);
    }
  }
}
