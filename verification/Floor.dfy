/** math.Round and math.RoundToEven: bit tricks for rounding to an integer. */
module Floor {
  import opened Words
  import opened Float64

  const SHIFT: nat := 52
  const FRACMASK: u64 := 0xF_FFFF_FFFF_FFFF      // 1<<shift - 1
  const UVONE: u64 := 0x3FF0_0000_0000_0000      // 1.0
  const HALF: u64 := 0x8_0000_0000_0000          // 1 << (shift - 1)

  // ----- the functions -----

  function RoundAway(x: u64): u64 {
    var e := And64(Shr64(x, SHIFT), MASK);
    if e < BIAS then
      var bits := And64(x, SIGNBIT);
      if e == BIAS - 1 then Or64(bits, UVONE) else bits
    else if e < BIAS + SHIFT then
      var bits := Add64(x, Shr64(HALF, e - BIAS));
      AndNot64(bits, Shr64(FRACMASK, e - BIAS))
    else x
  }

  function RoundToEven(x: u64): u64 {
    var e := And64(Shr64(x, SHIFT), MASK);
    if e >= BIAS then
      var k := e - BIAS;
      var odd := And64(Shr64(x, Sub64(SHIFT, k)), 1);
      var bits := Add64(x, Shr64(Add64(HALF - 1, odd), k));
      AndNot64(bits, Shr64(FRACMASK, k))
    else if e == BIAS - 1 && And64(x, FRACMASK) != 0 then
      Or64(And64(x, SIGNBIT), UVONE)
    else And64(x, SIGNBIT)
  }

  // ----- what they are for -----

  /** 1.0 in units of 2^-1074. */
  ghost const ONE: nat := Pow2(1074)

  /** r is x rounded to the integer n, half away from zero. */
  ghost predicate NearestAway(x: u64, r: u64, n: nat) {
    var m, y := n * ONE, Mag(AbsBits(x));
    && IsFinite(r) && Sign(r) == Sign(x) && Mag(AbsBits(r)) == m
    && 2 * m - ONE <= 2 * y < 2 * m + ONE
  }

  /** r is x rounded to the integer n, half to even. */
  ghost predicate NearestEven(x: u64, r: u64, n: nat) {
    var m, y := n * ONE, Mag(AbsBits(x));
    && IsFinite(r) && Sign(r) == Sign(x) && Mag(AbsBits(r)) == m
    && 2 * m - ONE <= 2 * y <= 2 * m + ONE
    && (2 * y == 2 * m - ONE || 2 * y == 2 * m + ONE ==> n % 2 == 0)
  }

  // ----- masks -----

  lemma SignMask(x: u64)
    ensures And64(x, SIGNBIT) == Sign(x) * SIGNBIT && Sign(x) <= 1
  {
    Pow2Table();
    hide Pow2;
    SignParts(x);
    AndSplit(Sign(x), AbsBits(x), 1, 0, 63);
    AndOne(Sign(x));
    AndNothing(AbsBits(x));
  }

  lemma AndNothing(x: nat)
    ensures BitAnd(x, 0) == 0
  {
  }

  lemma SetOne(s: nat)
    requires s <= 1
    ensures Or64(s * SIGNBIT, UVONE) == s * SIGNBIT + UVONE
  {
    Pow2Table();
    hide Pow2;
    OrSplit(s, 0, 0, UVONE, 63);
    OrNothing(s, UVONE);
  }

  lemma OrNothing(s: nat, y: nat)
    ensures BitOr(s, 0) == s && BitOr(0, y) == y
  {
  }

  /** x &^ (2^k - 1) rounds down to a multiple of 2^k. */
  lemma LowMask(x: u64, k: nat, d: nat, hi: nat)
    requires k <= 64 && d == Pow2(k) && hi == x / d
    ensures 0 <= d - 1 <= MAX64 && AndNot64(x, d - 1) == hi * d
  {
    PowersTo64(k);
    var g: nat := Pow2(64 - k);
    hide Pow2, BitAnd;
    MaskParts(d, g);
    DivBound(x, d);
    HighPart(x, hi, x % d, k, d, g);
  }

  lemma MaskParts(d: nat, g: nat)
    requires d >= 1 && g >= 1 && d * g == TWO64
    ensures 0 <= d - 1 <= MAX64 && Not64(d - 1) == (g - 1) * d
  {
    MulMono(d, 1, g);
    assert (g - 1) * d == g * d - d;
  }

  lemma HighPart(x: u64, hi: nat, lo: nat, k: nat, d: nat, g: nat)
    requires k <= 64 && d == Pow2(k) && g == Pow2(64 - k) && d * g == TWO64
    requires hi == x / d && lo == x % d
    ensures BitAnd(x, (g - 1) * d) == hi * d
  {
    hide Pow2, BitAnd;
    DivModParts(x, d);
    QuotientBound(x, hi, lo, d, g);
    AndSplit(hi, lo, g - 1, 0, k);
    AndOnes(hi, 64 - k);
    AndNothing(lo);
  }

  lemma LowerPart(a: nat, b: nat)
    requires a >= 1 && b >= 1
    ensures (a * b - 1) / a == b - 1 && (a * b) / a == b
  {
    DivModUnique(a * b - 1, a, b - 1, a - 1);
    DivModUnique(a * b, a, b, 0);
  }

  /** The masks moved to the binary point of a number with t integer bits after the first. */
  lemma MovedMasks(t: nat)
    requires t < 52
    ensures Shr64(FRACMASK, t) == Pow2(52 - t) - 1
    ensures Shr64(HALF, t) == Pow2(51 - t) && Shr64(HALF - 1, t) == Pow2(51 - t) - 1
    ensures Pow2(52 - t) == 2 * Pow2(51 - t) && Pow2(t) * Pow2(52 - t) == HIDDEN
  {
    Pow2Add(t, 52 - t);
    Pow2Add(t, 51 - t);
    Pow2Table();
    LowerPart(Pow2(t), Pow2(52 - t));
    LowerPart(Pow2(t), Pow2(51 - t));
    hide Pow2;
  }

  lemma NoMask(t: nat)
    requires t >= 52
    ensures Shr64(FRACMASK, t) == 0 && Shr64(HALF, t) == 0 && Shr64(HALF - 1, t) == 0
  {
    Pow2Table();
    Pow2Mono(52, t);
    hide Pow2;
    SmallQuotient(FRACMASK, Pow2(t));
    SmallQuotient(HALF, Pow2(t));
    SmallQuotient(HALF - 1, Pow2(t));
  }

  lemma SmallQuotient(x: nat, d: nat)
    requires x < d
    ensures x / d == 0
  {
  }

  lemma ClearNothing(x: u64)
    ensures AndNot64(x, 0) == x
  {
    assert Pow2(0) == 1;
    LowMask(x, 0, 1, x);
  }

  // ----- numbers with a fractional part -----

  /** Adding c below the binary point and clearing the fraction: the fields of the result. */
  lemma Truncated(x: u64, t: nat, d: nat, g: nat, c: nat) returns (q: nat)
    requires t < 52 && d == Pow2(52 - t) && g == Pow2(t) && g * d == HIDDEN
    requires Exponent(x) == BIAS + t && c < d
    ensures q == Quot(Fraction(x) + c, d) && q <= g
    ensures Add64(x, c) == x + c && d - 1 <= MAX64
    ensures
      var r := AndNot64(x + c, d - 1);
      Sign(r) == Sign(x) && AbsBits(r) == Exponent(x) * HIDDEN + q * d && IsFinite(r)
  {
    hide Pow2, BitAnd, And64, AndNot64, Sign, AbsBits, Exponent;
    var f, top := Fraction(x), x / HIDDEN;
    SignOfTop(x);
    DivModParts(x, HIDDEN);
    q := Quot(f + c, d);
    DivModParts(f + c, d);
    QuotientLimit(f, c, d, g, q, (f + c) % d);
    FieldsAfter(x, top, q * d);
    SplitTop(top, g, d, x + c, q, (f + c) % d);
    LowMask(x + c, 52 - t, d, (x + c) / d);
  }

  lemma QuotientLimit(f: nat, c: nat, d: nat, g: nat, q: nat, e: nat)
    requires f < g * d && c < d && f + c == q * d + e
    ensures q <= g && q * d <= g * d
  {
    if q > g { MulMono(d, g + 1, q); }
    MulMono(d, q, g);
  }

  lemma SplitTop(top: nat, g: nat, d: nat, y: nat, q: nat, e: nat)
    requires d >= 1 && e < d && y == top * (g * d) + (q * d + e)
    ensures (y / d) * d == top * (g * d) + q * d
  {
    assert top * (g * d) == (top * g) * d;
    DivModUnique(y, d, top * g + q, e);
    assert (top * g + q) * d == (top * g) * d + q * d;
  }

  lemma FieldsAfter(x: u64, top: nat, low: nat)
    requires top == x / HIDDEN && BIAS <= Exponent(x) < BIAS + 52 && low <= HIDDEN
    ensures
      var r := top * HIDDEN + low;
      r < TWO64 && Sign(r) == Sign(x) && AbsBits(r) == Exponent(x) * HIDDEN + low && IsFinite(r)
    ensures x + HIDDEN <= MAX64
  {
    SignOfTop(x);
    DivModParts(x, HIDDEN);
  }

  /** Magnitudes in units of ONE for exponents with a binary point. */
  lemma MagsAt(x: u64, t: nat, d: nat, g: nat, q: nat, qd: nat) returns (p: nat)
    requires qd == q * d && t < 52 && d == Pow2(52 - t) && g == Pow2(t) && g * d == HIDDEN && q <= g
    requires Exponent(x) == BIAS + t
    ensures p >= 1 && ONE == d * p && Mag(AbsBits(x)) == (HIDDEN + Fraction(x)) * p
    ensures Mag(Exponent(x) * HIDDEN + qd) == (g + q) * ONE
  {
    hide Mag, Pow2, AbsBits, Exponent, Fraction;
    p := Pow2(BIAS + t - 1);
    Pow2Add(52 - t, BIAS + t - 1);
    AbsParts(x);
    FractionLimit(x);
    MulMono(d, q, g);
    MagOfFields(BIAS + t, Fraction(x));
    MagOfFields(BIAS + t, qd);
    SumTimes(g, q, d, p);
  }

  lemma FractionLimit(x: u64)
    ensures Fraction(x) < HIDDEN
  {
  }

  lemma MagOfFields(e: nat, f: nat)
    requires 1 <= e && f <= HIDDEN
    ensures Mag(e * HIDDEN + f) == (HIDDEN + f) * Pow2(e - 1)
  {
    hide Mag, Pow2;
    MagAt(e - 1, HIDDEN + f);
    assert e * HIDDEN + f == (e - 1) * HIDDEN + (HIDDEN + f);
  }

  lemma SumTimes(g: nat, q: nat, d: nat, p: nat)
    ensures (g * d + q * d) * p == (g + q) * (d * p)
  {
    assert g * d + q * d == (g + q) * d;
    Regroup(g + q, d, p);
  }

  /** Bounds on the fraction become bounds on the magnitude. */
  lemma ScaleBounds(f: nat, g: nat, q: nat, d: nat, p: nat)
    requires p >= 1
    ensures 2 * (q * d) - d <= 2 * f ==> 2 * ((g + q) * (d * p)) - d * p <= 2 * ((g * d + f) * p)
    ensures 2 * f < 2 * (q * d) + d ==> 2 * ((g * d + f) * p) < 2 * ((g + q) * (d * p)) + d * p
    ensures 2 * f <= 2 * (q * d) + d ==> 2 * ((g * d + f) * p) <= 2 * ((g + q) * (d * p)) + d * p
    ensures 2 * ((g * d + f) * p) == 2 * ((g + q) * (d * p)) - d * p ==> 2 * f == 2 * (q * d) - d
    ensures 2 * ((g * d + f) * p) == 2 * ((g + q) * (d * p)) + d * p ==> 2 * f == 2 * (q * d) + d
  {
    var a, b := 2 * (g * d + f), 2 * (g + q) * d;
    assert a - b == 2 * f - 2 * (q * d) by { assert (g + q) * d == g * d + q * d; }
    assert 2 * ((g * d + f) * p) == a * p;
    assert 2 * ((g + q) * (d * p)) == b * p by { Regroup(2 * (g + q), d, p); Regroup(2, g + q, d * p); }
    Scales(a, b, d, p);
  }

  lemma Scales(a: int, b: int, d: nat, p: nat)
    requires p >= 1
    ensures b - d <= a ==> b * p - d * p <= a * p
    ensures a < b + d ==> a * p < b * p + d * p
    ensures a <= b + d ==> a * p <= b * p + d * p
    ensures a * p == b * p - d * p ==> a == b - d
    ensures a * p == b * p + d * p ==> a == b + d
  {
    assert (b - d) * p == b * p - d * p && (b + d) * p == b * p + d * p;
    Ordered(b - d, a, p);
    Ordered(a, b + d, p);
    Ordered(a, b - d, p);
    Ordered(b + d, a, p);
  }

  lemma Ordered(x: int, y: int, p: nat)
    requires p >= 1
    ensures x <= y ==> x * p <= y * p
    ensures x < y ==> x * p < y * p
  {
    if x <= y { MulMono(p, x, y); }
    if x < y {
      MulMono(p, x + 1, y);
      assert p * (x + 1) == p * x + p;
    }
  }

  function Quot(a: nat, d: nat): nat
    requires d >= 1
  {
    DivBound(a, d);
    a / d
  }

  lemma HalfUp(f: nat, d: nat, h: nat, q: nat)
    requires d == 2 * h && h >= 1 && q == Quot(f + h, d)
    ensures 2 * (q * d) - d <= 2 * f < 2 * (q * d) + d
  {
    DivModParts(f + h, d);
  }

  /** The sum with half less one unit, or half when the truncated number is odd. */
  lemma HalfEven(f: nat, d: nat, h: nat, g: nat, odd: nat, q: nat)
    requires d == 2 * h && h >= 1 && odd == (g + Quot(f, d)) % 2 && q == Quot(f + (h - 1 + odd), d)
    ensures 2 * (q * d) - d <= 2 * f <= 2 * (q * d) + d
    ensures 2 * f == 2 * (q * d) - d || 2 * f == 2 * (q * d) + d ==> (g + q) % 2 == 0
  {
    var m, e := f / d, f % d;
    DivModParts(f, d);
    var c := h - 1 + odd;
    HalfEvenQuotient(f, m, e, d, c);
    hide *;
    HalfEvenCases(f, m, e, d, h, g, odd, q, m * d, q * d);
  }

  lemma HalfEvenQuotient(f: nat, m: nat, e: nat, d: nat, c: nat)
    requires d >= 1 && f == m * d + e && e < d && c < d
    ensures (f + c) / d == if e + c < d then m else m + 1
    ensures (m + 1) * d == m * d + d
  {
    if e + c < d {
      DivModUnique(f + c, d, m, e + c);
    } else {
      DivModUnique(f + c, d, m + 1, e + c - d);
    }
  }

  lemma HalfEvenCases(f: nat, m: nat, e: nat, d: nat, h: nat, g: nat, odd: nat, q: nat, md: int, qd: int)
    requires d == 2 * h && h >= 1 && odd == (g + m) % 2 && f == md + e && e < d
    requires if e + (h - 1 + odd) < d then q == m && qd == md else q == m + 1 && qd == md + d
    ensures 2 * qd - d <= 2 * f <= 2 * qd + d
    ensures 2 * f == 2 * qd - d || 2 * f == 2 * qd + d ==> (g + q) % 2 == 0
  {
  }

  lemma AwayUnfold(x: u64, t: nat, h: u64, m: u64)
    requires t < 52 && Exponent(x) == BIAS + t && h == Shr64(HALF, t) && m == Shr64(FRACMASK, t)
    ensures RoundAway(x) == AndNot64(Add64(x, h), m)
  {
    ExponentField(x);
    hide Pow2, BitAnd, AndNot64, Shr64, Add64, Exponent;
  }

  lemma AwayBounds(x: u64, t: nat, d: nat, g: nat, h: nat, q: nat, qd: nat)
    requires qd == q * d && t < 52 && d == Pow2(52 - t) && g == Pow2(t) && g * d == HIDDEN && q <= g
        && d == 2 * h && h >= 1
    requires Exponent(x) == BIAS + t && q == Quot(Fraction(x) + h, d)
    ensures
      var m, y := (g + q) * ONE, Mag(AbsBits(x));
      Mag(Exponent(x) * HIDDEN + qd) == m && 2 * m - ONE <= 2 * y < 2 * m + ONE
  {
    hide Quot, Pow2, Mag, AbsBits, Exponent, Fraction, ONE;
    var p := MagsAt(x, t, d, g, q, qd);
    HalfUp(Fraction(x), d, h, q);
    ScaleBounds(Fraction(x), g, q, d, p);
  }

  lemma AwayAt(x: u64, t: nat, d: nat, g: nat, h: nat) returns (n: nat)
    requires t < 52 && d == Pow2(52 - t) && g == Pow2(t) && g * d == HIDDEN && d == 2 * h && h >= 1
    requires Exponent(x) == BIAS + t && d - 1 <= MAX64 && RoundAway(x) == AndNot64(Add64(x, h), d - 1)
    ensures NearestAway(x, RoundAway(x), n)
  {
    hide Quot, Pow2, Mag, AndNot64, RoundAway, Add64, AbsBits, Sign, Exponent, Fraction, ONE;
    var q := Truncated(x, t, d, g, h);
    MulNat(q, d);
    var qd := q * d;
    AwayBounds(x, t, d, g, h, q, qd);
    n := g + q;
  }

  lemma AwayFraction(x: u64, t: nat) returns (n: nat)
    requires t < 52 && Exponent(x) == BIAS + t
    ensures NearestAway(x, RoundAway(x), n)
  {
    MovedMasks(t);
    var d: nat, g: nat, h: nat := Pow2(52 - t), Pow2(t), Pow2(51 - t);
    AwayUnfold(x, t, h, d - 1);
    hide Pow2, AndNot64, Shr64, RoundAway, Add64, Exponent;
    n := AwayAt(x, t, d, g, h);
  }

  lemma OddBit(x: u64, t: nat, d: nat, g: nat)
    requires t < 52 && d == Pow2(52 - t) && g == Pow2(t) && g * d == HIDDEN && Exponent(x) == BIAS + t
    ensures And64(Shr64(x, Sub64(SHIFT, t)), 1) == (g + Quot(Fraction(x), d)) % 2
  {
    ShiftedDown(x, t, d);
    AndOne(Quot(x, d));
    TopParts(x, t);
    PowEven(t);
    hide Pow2, BitAnd, Exponent, Sign, Fraction, Shr64, Sub64, Quot;
    OddQuotient(x, x / HIDDEN, Fraction(x), d, g, t);
  }

  lemma TopParts(x: u64, t: nat)
    requires Exponent(x) == BIAS + t
    ensures x == x / HIDDEN * HIDDEN + Fraction(x) && Fraction(x) < HIDDEN && (t == 0 ==> x / HIDDEN % 2 == 1)
  {
    SignOfTop(x);
    DivModParts(x, HIDDEN);
    hide Exponent, Sign;
  }

  lemma ShiftedDown(x: u64, t: nat, d: nat)
    requires t < 52 && d == Pow2(52 - t)
    ensures Shr64(x, Sub64(SHIFT, t)) == Quot(x, d)
  {
    hide Pow2;
  }

  lemma OddQuotient(x: nat, top: nat, f: nat, d: nat, g: nat, t: nat)
    requires d >= 1 && g * d == HIDDEN && x == top * HIDDEN + f && f < HIDDEN
    requires if t == 0 then g == 1 && top % 2 == 1 else g % 2 == 0
    ensures Quot(x, d) % 2 == (g + Quot(f, d)) % 2
  {
    DivModParts(f, d);
    Regroup(top, g, d);
    var m := f / d;
    assert (top * g + m) * d == (top * g) * d + m * d;
    DivModUnique(x, d, top * g + m, f % d);
    SameParity(top, g, m, t);
  }

  lemma PowEven(t: nat)
    ensures if t == 0 then Pow2(t) == 1 else Pow2(t) % 2 == 0
  {
    if t > 0 {
      var p := Pow2(t - 1);
      assert Pow2(t) == 2 * p;
      hide Pow2;
    }
  }

  lemma SameParity(top: nat, g: nat, m: nat, t: nat)
    requires if t == 0 then g == 1 && top % 2 == 1 else g % 2 == 0
    ensures (top * g + m) % 2 == (g + m) % 2
  {
    if t > 0 {
      var h := g / 2;
      var k := top * h;
      assert top * g == 2 * k by { assert g == 2 * h; }
      EvenShift(top * g, k, g, h, m);
    } else {
      assert top * g == top;
      EvenShift(top - 1, (top - 1) / 2, 0, 0, m + 1);
    }
  }

  lemma EvenShift(a: int, k: int, b: int, h: int, m: int)
    requires a == 2 * k && b == 2 * h
    ensures (a + m) % 2 == (b + m) % 2
  {
  }

  lemma EvenUnfold(x: u64, t: nat, odd: u64, c: u64, m: u64)
    requires Exponent(x) == BIAS + t && m == Shr64(FRACMASK, t)
    requires odd == And64(Shr64(x, Sub64(SHIFT, t)), 1) && c == Shr64(Add64(HALF - 1, odd), t)
    ensures RoundToEven(x) == AndNot64(Add64(x, c), m)
  {
    ExponentField(x);
    hide Pow2, BitAnd, AndNot64, Shr64, Add64, Exponent;
  }

  lemma HalfOrLess(t: nat, odd: nat)
    requires t < 52 && odd < 2
    ensures Shr64(Add64(HALF - 1, odd), t) == Pow2(51 - t) - 1 + odd
  {
    MovedMasks(t);
    hide Shr64, Pow2;
    assert Add64(HALF - 1, odd) == HALF - 1 + odd;
  }

  lemma EvenBounds(x: u64, t: nat, d: nat, g: nat, h: nat, odd: nat, q: nat, qd: nat)
    requires qd == q * d && t < 52 && d == Pow2(52 - t) && g == Pow2(t) && g * d == HIDDEN && q <= g
        && d == 2 * h && h >= 1
    requires Exponent(x) == BIAS + t && odd == (g + Quot(Fraction(x), d)) % 2
    requires q == Quot(Fraction(x) + (h - 1 + odd), d)
    ensures
      var m, y := (g + q) * ONE, Mag(AbsBits(x));
      && Mag(Exponent(x) * HIDDEN + qd) == m && 2 * m - ONE <= 2 * y <= 2 * m + ONE
      && (2 * y == 2 * m - ONE || 2 * y == 2 * m + ONE ==> (g + q) % 2 == 0)
  {
    hide Quot, Pow2, Mag, AbsBits, Exponent, Fraction, ONE;
    var p := MagsAt(x, t, d, g, q, qd);
    HalfEven(Fraction(x), d, h, g, odd, q);
    ScaleBounds(Fraction(x), g, q, d, p);
  }

  lemma EvenSum(x: u64, t: nat, d: nat, g: nat, h: nat, odd: nat)
    requires t < 52 && d == Pow2(52 - t) && g == Pow2(t) && h == Pow2(51 - t) && g * d == HIDDEN && d == 2 * h
    requires Exponent(x) == BIAS + t && odd == (g + Quot(Fraction(x), d)) % 2 && d - 1 <= MAX64
    ensures RoundToEven(x) == AndNot64(Add64(x, h - 1 + odd), d - 1)
  {
    OddBit(x, t, d, g);
    HalfOrLess(t, odd);
    MovedMasks(t);
    hide Quot, Pow2, AndNot64, And64, Sub64, Shr64, RoundToEven, Add64, Exponent, Fraction;
    EvenUnfold(x, t, odd, h - 1 + odd, d - 1);
  }

  lemma EvenFraction(x: u64, t: nat) returns (n: nat)
    requires t < 52 && Exponent(x) == BIAS + t
    ensures NearestEven(x, RoundToEven(x), n)
  {
    MovedMasks(t);
    hide Quot, Pow2, Mag, AndNot64, Shr64, RoundToEven, Add64, AbsBits, Sign, Exponent, Fraction, ONE;
    var d: nat, g: nat, h: nat := Pow2(52 - t), Pow2(t), Pow2(51 - t);
    var odd: nat := (g + Quot(Fraction(x), d)) % 2;
    n := EvenAt(x, t, d, g, h, odd);
  }

  lemma EvenAt(x: u64, t: nat, d: nat, g: nat, h: nat, odd: nat) returns (n: nat)
    requires t < 52 && d == Pow2(52 - t) && g == Pow2(t) && h == Pow2(51 - t) && g * d == HIDDEN && d == 2 * h
    requires Exponent(x) == BIAS + t && odd == (g + Quot(Fraction(x), d)) % 2
    ensures NearestEven(x, RoundToEven(x), n)
  {
    hide Quot, Pow2, Mag, AndNot64, Shr64, RoundToEven, Add64, AbsBits, Sign, Exponent, Fraction, ONE;
    var q := Truncated(x, t, d, g, h - 1 + odd);
    EvenSum(x, t, d, g, h, odd);
    MulNat(q, d);
    var qd := q * d;
    EvenBounds(x, t, d, g, h, odd, q, qd);
    n := g + q;
  }

  // ----- numbers below one and numbers without a fractional part -----

  lemma OneMag()
    ensures Mag(UVONE) == ONE && ONE == HIDDEN * Pow2(1022)
  {
    Pow2Add(52, 1022);
    Pow2Table();
    hide Pow2, Mag;
    MagAt(1022, HIDDEN);
  }

  /** Below one half, from one half to one. */
  lemma SmallMag(x: u64)
    requires Exponent(x) < BIAS
    ensures Exponent(x) < BIAS - 1 ==> 2 * Mag(AbsBits(x)) < ONE
    ensures Exponent(x) == BIAS - 1 ==> ONE <= 2 * Mag(AbsBits(x)) < 2 * ONE
    ensures Exponent(x) == BIAS - 1 ==> (2 * Mag(AbsBits(x)) == ONE <==> Fraction(x) == 0)
  {
    var p: nat, a, f := Pow2(1021), AbsBits(x), Fraction(x);
    OneMag();
    assert Pow2(1022) == 2 * p;
    AbsParts(x);
    hide Pow2, Mag;
    MagAt(1021, HIDDEN);
    if Exponent(x) == BIAS - 1 {
      MagAt(1021, HIDDEN + f);
      assert a == 1021 * HIDDEN + (HIDDEN + f);
      HalfMag(f, p);
    } else {
      MagMono(a, 1021 * HIDDEN + HIDDEN);
      HalfMag(0, p);
    }
  }

  lemma HalfMag(f: nat, p: nat)
    requires f < HIDDEN && p >= 1
    ensures 2 * (HIDDEN * p) == HIDDEN * (2 * p)
    ensures HIDDEN * (2 * p) <= 2 * ((HIDDEN + f) * p) < 2 * (HIDDEN * (2 * p))
    ensures 2 * ((HIDDEN + f) * p) == HIDDEN * (2 * p) <==> f == 0
  {
    assert (HIDDEN + f) * p == HIDDEN * p + f * p;
    MulMono(p, f, HIDDEN - 1);
    if f > 0 { MulMono(p, 1, f); }
  }

  lemma ZeroAndOne(s: nat)
    requires s <= 1
    ensures s * SIGNBIT < TWO64 && Sign(s * SIGNBIT) == s && AbsBits(s * SIGNBIT) == 0 && Mag(0) == 0
    ensures s * SIGNBIT + UVONE < TWO64 && Sign(s * SIGNBIT + UVONE) == s && AbsBits(s * SIGNBIT + UVONE) == UVONE
  {
  }

  /** The two results below one. */
  lemma SmallResult(x: u64, n: nat) returns (r: u64)
    requires n <= 1
    ensures r == if n == 0 then Sign(x) * SIGNBIT else Sign(x) * SIGNBIT + UVONE
    ensures IsFinite(r) && Sign(r) == Sign(x) && Mag(AbsBits(r)) == n * ONE
  {
    SignParts(x);
    var s := Sign(x);
    ZeroAndOne(s);
    OneMag();
    assert UVONE < INF && 0 * ONE == 0 && 1 * ONE == ONE;
    hide Mag, Pow2, ONE, Sign, AbsBits;
    r := if n == 0 then s * SIGNBIT else s * SIGNBIT + UVONE;
  }

  lemma AwaySmall(x: u64) returns (n: nat)
    requires Exponent(x) < BIAS
    ensures NearestAway(x, RoundAway(x), n)
  {
    ExponentField(x);
    SignMask(x);
    SetOne(Sign(x));
    SmallMag(x);
    n := if Exponent(x) == BIAS - 1 then 1 else 0;
    var r := SmallResult(x, n);
    hide Pow2, Mag, BitAnd, Or64, Shr64, Sign, AbsBits, Exponent, ONE;
  }

  lemma FractionMask(x: u64)
    ensures And64(x, FRACMASK) == Fraction(x)
  {
    Pow2Table();
    AndMask(x, 52);
    hide BitAnd;
  }

  lemma EvenSmall(x: u64) returns (n: nat)
    requires Exponent(x) < BIAS
    ensures NearestEven(x, RoundToEven(x), n)
  {
    ExponentField(x);
    SignMask(x);
    SetOne(Sign(x));
    FractionMask(x);
    SmallMag(x);
    n := if Exponent(x) == BIAS - 1 && Fraction(x) != 0 then 1 else 0;
    var r := SmallResult(x, n);
    hide Pow2, Mag, BitAnd, Or64, Shr64, Sign, AbsBits, Exponent, Fraction, ONE;
  }

  /** From 2^52 on, and at infinity and NaN, both functions return their argument. */
  lemma LargeUnchanged(x: u64)
    requires Exponent(x) >= BIAS + 52
    ensures RoundAway(x) == x && RoundToEven(x) == x
  {
    ExponentField(x);
    LargeEven(x, Exponent(x) - BIAS);
    hide Pow2, BitAnd, Shr64, Exponent, RoundToEven;
  }

  lemma LargeEven(x: u64, k: nat)
    requires Exponent(x) == BIAS + k && k >= 52
    ensures RoundToEven(x) == x
  {
    var y := Shr64(x, Sub64(SHIFT, k));
    AndOne(y);
    hide Pow2, BitAnd, AndNot64, Shr64, Exponent, Sub64, RoundToEven;
    NoHalf(k, And64(y, 1));
    NoMask(k);
    EvenUnfold(x, k, And64(y, 1), 0, 0);
    ClearNothing(x);
    AddNothing(x);
    hide And64, Add64;
  }

  lemma AddNothing(x: u64)
    ensures Add64(x, 0) == x
  {
  }

  lemma NoHalf(k: nat, odd: u64)
    requires k >= 52 && odd < 2
    ensures Shr64(Add64(HALF - 1, odd), k) == 0
  {
    NoMask(k);
    hide Shr64;
    assert Add64(HALF - 1, odd) == HALF - 1 + odd;
  }

  lemma LargeInteger(x: u64) returns (n: nat)
    requires Exponent(x) >= BIAS + 52 && IsFinite(x)
    ensures Mag(AbsBits(x)) == n * ONE
  {
    var e := Exponent(x) - BIAS - 52;
    AbsParts(x);
    Pow2Add(e, 1074);
    hide Pow2, Mag;
    MagAt(e + 1074, HIDDEN + Fraction(x));
    n := (HIDDEN + Fraction(x)) * Pow2(e);
    Regroup(HIDDEN + Fraction(x), Pow2(e), ONE);
  }

  // ----- the theorems -----

  /** Round gives the nearest integer, halves away from zero, for every finite argument;
      infinities and NaNs come back as they are. */
  lemma RoundCorrect(x: u64) returns (n: nat)
    ensures IsFinite(x) ==> NearestAway(x, RoundAway(x), n)
    ensures !IsFinite(x) ==> RoundAway(x) == x
  {
    hide RoundAway, NearestAway, NearestEven, Mag, Pow2, ONE;
    n := 0;
    BigExponent(x);
    if Exponent(x) < BIAS {
      n := AwaySmall(x);
    } else if Exponent(x) < BIAS + 52 {
      n := AwayFraction(x, Exponent(x) - BIAS);
    } else {
      LargeUnchanged(x);
      if IsFinite(x) {
        n := LargeInteger(x);
        OnePositive();
        IntegerIsNearest(x, n);
      }
    }
  }

  /** RoundToEven gives the nearest integer, halves to the even one. */
  lemma RoundToEvenCorrect(x: u64) returns (n: nat)
    ensures IsFinite(x) ==> NearestEven(x, RoundToEven(x), n)
    ensures !IsFinite(x) ==> RoundToEven(x) == x
  {
    hide RoundToEven, NearestAway, NearestEven, Mag, Pow2, ONE;
    n := 0;
    BigExponent(x);
    if Exponent(x) < BIAS {
      n := EvenSmall(x);
    } else if Exponent(x) < BIAS + 52 {
      n := EvenFraction(x, Exponent(x) - BIAS);
    } else {
      LargeUnchanged(x);
      if IsFinite(x) {
        n := LargeInteger(x);
        OnePositive();
        IntegerIsNearest(x, n);
      }
    }
  }

  lemma BigExponent(x: u64)
    ensures !IsFinite(x) ==> Exponent(x) >= BIAS + 52
  {
  }

  lemma IntegerIsNearest(x: u64, n: nat)
    requires IsFinite(x) && Mag(AbsBits(x)) == n * ONE && ONE >= 1
    ensures NearestAway(x, x, n) && NearestEven(x, x, n)
  {
    hide Mag, ONE;
  }

  lemma OnePositive()
    ensures ONE >= 1
  {
  }
}
