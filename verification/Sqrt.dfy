/** The bit-by-bit square root of the portable math package. */
module Sqrt {
  import opened Words
  import opened Float64

  // ----- specification -----

  /** h/2 (in units of 2^-1074) lies strictly above the square root of x. */
  ghost predicate AboveRoot(x: u64, h: int) {
    h > 0 && 4 * Val(x) * Pow2(1074) < h * h
  }

  /** h/2 (in units of 2^-1074) lies strictly below the square root of x. */
  ghost predicate BelowRoot(x: u64, h: int) {
    h < 0 || h * h < 4 * Val(x) * Pow2(1074)
  }

  /** r is strictly nearer to the real square root of x than any other finite double:
      the root lies on r's side of the midpoint of r and every f. In particular the root
      is never halfway between two doubles, so no tie has to be broken. */
  ghost predicate NearestRoot(x: u64, r: u64) {
    && IsFinite(r) && Sign(r) == 0
    && (forall f: u64 | IsFinite(f) && Val(f) > Val(r) :: AboveRoot(x, Val(r) + Val(f)))
    && (forall f: u64 | IsFinite(f) && Val(f) < Val(r) :: BelowRoot(x, Val(r) + Val(f)))
  }

  /** The number whose root the digit loop extracts. */
  function Radicand(ix: nat): nat { ix * 0x40_0000_0000_0000 }

  // ----- the algorithm -----

  method Sqrt(x: u64) returns (r: u64)
    ensures IsZero(x) || IsNaN(x) || x == INF ==> r == x
    ensures !IsZero(x) && !IsNaN(x) && Sign(x) == 1 ==> r == NANBITS
    ensures IsFinite(x) && !IsZero(x) && Sign(x) == 0 ==> NearestRoot(x, r)
  {
    if IsZero(x) || IsNaN(x) || x == INF {
      return x;
    }
    if Sign(x) == 1 {
      return NANBITS;
    }
    PositiveFinite(x);
    r := PositiveRoot(x);
  }

  /** The general case of Sqrt. */
  method PositiveRoot(x: u64) returns (r: u64)
    requires 0 < x < INF
    ensures NearestRoot(x, r)
  {
    hide Pow2, Mag, NearestRoot;
    PositiveFinite(x);
    var ix, exp := Normalize(x);
    ghost var sig := ix;
    var odd := exp % 2 == 1;
    if odd { // odd exp, double ix to make it even
      ix := ix * 2;
    }
    ghost var n := Radicand(ix);
    HalfExponent(x, sig, ix, exp);
    exp := exp / 2; // exponent of square root
    var q, rest := RootBits(ix);
    ghost var floor := q;
    // final rounding
    if rest != 0 { // remainder, result not exact
      q := q + q % 2;
    }
    RootRange(n, floor);
    if floor % 2 == 1 { OddRoot(ix, n, floor); }
    var biased := exp - 1 + BIAS;
    r := q / 2 + biased * HIDDEN;
    RootScale(x, ix, n, exp);
    RootNearest(x, n, floor, q / 2, exp + 1022);
  }

  /** Scale a positive finite x to a 53-bit significand and its unbiased exponent. */
  method Normalize(x: u64) returns (ix: u64, exp: int)
    requires IsFinite(x) && !IsZero(x) && Sign(x) == 0
    ensures HIDDEN <= ix < 2 * HIDDEN && -1074 <= exp <= 1023
    ensures Mag(x) * Pow2(60) == ix * Pow2(exp + 1082)
  {
    hide BitAnd, BitOr, Shr64, Mag, Pow2, And64, Or64;
    ExponentOf(x);
    ix, exp := x, And64(Shr64(x, 52), MASK);
    if exp == 0 { // subnormal x
      ix, exp := NormalizeSubnormal(x);
    } else {
      NormalScaleUp(x);
    }
    exp := exp - BIAS;
    ClearExponent(ix);
    SetExponent(0, 1, Fraction(ix));
    ix := AndNot64(ix, INF);
    ix := Or64(ix, 0x10_0000_0000_0000);
  }

  method NormalizeSubnormal(x: u64) returns (ix: u64, exp: int)
    requires 0 < x < HIDDEN
    ensures HIDDEN <= ix < 2 * HIDDEN && -51 <= exp <= 0
    ensures Mag(x) * Pow2(60) == ix * Pow2(exp - BIAS + 1082)
  {
    hide BitAnd, Mag;
    ix, exp := x, 0;
    while And64(ix, 0x10_0000_0000_0000) == 0
      invariant 0 < ix < 2 * HIDDEN && -52 <= exp <= 0
      invariant ix == x * Pow2(-exp) && Pow2(-exp) <= ix
      decreases 2 * HIDDEN - ix
    {
      HiddenBit(ix);
      SubnormalRoom(-exp, ix);
      ShiftOnce(x, 1 - exp);
      ix := ix * 2;
      exp := exp - 1;
    }
    HiddenBit(ix);
    SubnormalScale(x, ix, -exp);
    exp := exp + 1;
  }

  lemma SubnormalRoom(k: nat, ix: nat)
    requires Pow2(k) <= ix < HIDDEN
    ensures k < 52
  {
    Pow2Table();
    if k >= 52 { Pow2Mono(52, k); }
  }

  /** The loop: q is the root of ix * 2^54 truncated to 54 bits; rest tells whether
      anything was cut off. */
  method RootBits(start: u64) returns (q: u64, rest: u64)
    requires HIDDEN <= start < 4 * HIDDEN
    ensures var n := Radicand(start);
            q * q <= n < (q + 1) * (q + 1) && (rest == 0 <==> q * q == n)
  {
    hide Pow2, RootWithin, Rest;
    ghost var n := Radicand(start);
    var ix: u64 := start * 2;
    var s: u64 := 0; // s == 2 * q
    q := 0;
    var r: u64 := 0x20_0000_0000_0000; // moving bit from the top to the bottom
    ghost var w := 0x40_0000_0000_0000; // the root lies below q + w
    ghost var bit := 53;
    Pow2Table();
    RootStart(start);
    while r != 0
      invariant s == 2 * q && q + w <= 0x40_0000_0000_0000 && RootWithin(n, q, w)
      invariant r == 0 ==> w == 1 && ix == 2 * Rest(n, q)
      invariant r != 0 ==> w == 2 * r && Rest(n, q) == ix * r && bit >= 0 && r == Pow2(bit)
      decreases r
    {
      RootStep(n, q, r, ix);
      var t: u64 := s + r;
      if t <= ix {
        s := t + r;
        ix := ix - t;
        q := q + r;
      }
      HalveBit(bit, r);
      RootFits(n, q, r, ix);
      HalveProduct(ix, r);
      ix := 2 * ix;
      w := r;
      r := r / 2;
      bit := bit - 1;
    }
    rest := ix;
    RootEnd(n, q);
  }

  /** The root of n lies in [q, q + w). */
  ghost predicate RootWithin(n: nat, q: nat, w: nat) {
    q * q <= n < (q + w) * (q + w)
  }

  function Rest(n: nat, q: nat): int { n - q * q }

  lemma RootStart(start: nat)
    requires HIDDEN <= start < 4 * HIDDEN
    ensures RootWithin(Radicand(start), 0, 0x40_0000_0000_0000)
    ensures Rest(Radicand(start), 0) == (start * 2) * 0x20_0000_0000_0000
  {
  }

  lemma RootEnd(n: nat, q: nat)
    requires RootWithin(n, q, 1)
    ensures q * q <= n < (q + 1) * (q + 1) && (Rest(n, q) == 0 <==> q * q == n)
  {
  }

  // ----- normalization -----

  lemma PositiveFinite(x: u64)
    requires !IsZero(x) && !IsNaN(x) && x != INF && Sign(x) == 0
    ensures IsFinite(x) && 0 < x < INF && AbsBits(x) == x && Val(x) == Mag(x)
  {
  }

  lemma ExponentOf(x: u64)
    requires 0 < x < INF
    ensures And64(Shr64(x, 52), MASK) == x / HIDDEN <= 2046
    ensures AbsBits(x) == x
  {
    hide BitAnd, Shr64;
    ExponentField(x);
  }

  lemma HiddenBit(ix: u64)
    requires ix < 2 * HIDDEN
    ensures And64(ix, 0x10_0000_0000_0000) == 0 <==> ix < HIDDEN
  {
    Pow2Table();
    var h, f := ix / HIDDEN, ix % HIDDEN;
    AndSplit(h, f, 1, 0, 52);
    assert BitAnd(f, 0) == 0 && BitAnd(1, 1) == 1 && BitAnd(0, 1) == 0;
    hide Pow2, BitAnd;
    DivModParts(ix, HIDDEN);
  }

  lemma ShiftOnce(x: nat, k: nat)
    requires k > 0
    ensures (x * Pow2(k - 1)) * 2 == x * Pow2(k)
  {
    DoubleProduct(x, k);
  }

  lemma SubnormalScale(x: u64, ix: nat, k: nat)
    requires 0 < x < HIDDEN && ix == x * Pow2(k) && k <= 52
    ensures Mag(x) * Pow2(60) == ix * Pow2(1 - k - BIAS + 1082)
  {
    assert Mag(x) == x;
    Pow2Add(k, 60 - k);
    hide Pow2, Mag;
    Regroup(x, Pow2(k), Pow2(60 - k));
  }

  lemma NormalScaleUp(x: u64)
    requires HIDDEN <= x < INF
    ensures var e := x / HIDDEN;
            1 <= e <= 2046 && Mag(x) * Pow2(60) == (HIDDEN + x % HIDDEN) * Pow2(e - BIAS + 1082)
  {
    var e := x / HIDDEN;
    var m := HIDDEN + x % HIDDEN;
    assert Mag(x) == m * Pow2(e - 1);
    Pow2Add(e - 1, 60);
    hide Pow2, Mag;
    Regroup(m, Pow2(e - 1), Pow2(60));
  }

  /** Doubling the significand makes the exponent even. */
  lemma HalfExponent(x: u64, sig: nat, ix: nat, exp: int)
    requires -1074 <= exp <= 1023
    requires Mag(x) * Pow2(60) == sig * Pow2(exp + 1082)
    requires ix == if exp % 2 == 1 then sig * 2 else sig
    ensures Mag(x) * Pow2(60) == ix * Pow2(2 * (exp / 2) + 1082)
  {
    hide Mag;
    if exp % 2 == 1 { DoubleProduct(sig, exp + 1082); }
  }

  // ----- the digit loop -----

  /** Comparing 2q + r with the scaled remainder decides (q + r)^2 <= n. */
  lemma RootStep(n: nat, q: nat, r: nat, ix: int)
    requires r >= 1 && Rest(n, q) == ix * r && RootWithin(n, q, 2 * r)
    ensures 0 <= ix < 4 * q + 4 * r
    ensures 2 * q + r <= ix ==> RootWithin(n, q + r, r) && Rest(n, q + r) == (ix - (2 * q + r)) * r
    ensures 2 * q + r > ix ==> RootWithin(n, q, r)
  {
    assert (q + r) * (q + r) == q * q + (2 * q + r) * r;
    assert (q + 2 * r) * (q + 2 * r) == q * q + (4 * q + 4 * r) * r;
    assert (ix - (2 * q + r)) * r == ix * r - (2 * q + r) * r;
    CompareProducts(2 * q + r, ix, r);
    CompareProducts(4 * q + 4 * r, ix, r);
    CompareProducts(0, ix, r);
  }

  lemma CompareProducts(a: int, b: int, r: nat)
    requires r >= 1
    ensures a <= b <==> a * r <= b * r
  {
    if a <= b { MulMono(r, a, b); } else { MulMono(r, b + 1, a); }
  }

  lemma RootFits(n: nat, q: nat, r: nat, ix: int)
    requires r >= 1 && Rest(n, q) == ix * r && RootWithin(n, q, r)
    ensures ix < 2 * q + r
  {
    assert (q + r) * (q + r) == q * q + (2 * q + r) * r;
    CompareProducts(2 * q + r, ix, r);
  }

  lemma HalveBit(bit: int, r: nat)
    requires bit >= 0 && r == Pow2(bit)
    ensures r == 1 ==> bit == 0
    ensures r > 1 ==> bit > 0 && r / 2 == Pow2(bit - 1) && r % 2 == 0
  {
  }

  lemma HalveProduct(ix: int, r: nat)
    ensures r % 2 == 0 ==> (2 * ix) * (r / 2) == ix * r
  {
    var h := r / 2;
    if r % 2 == 0 { assert r == 2 * h; }
  }

  // ----- rounding -----

  lemma RootRange(n: nat, q: nat)
    requires q * q <= n < (q + 1) * (q + 1)
    requires 0x40_0000_0000_0000 * HIDDEN <= n < 0x40_0000_0000_0000 * 4 * HIDDEN
    ensures 2 * HIDDEN <= q < 4 * HIDDEN
  {
    if q + 1 <= 2 * HIDDEN { SquareMono(q + 1, 2 * HIDDEN); }
    if q >= 4 * HIDDEN { SquareMono(4 * HIDDEN, q); }
  }

  lemma SquareMono(a: nat, b: nat)
    requires a <= b
    ensures a * a <= b * b
    ensures a < b ==> a * a < b * b
  {
    MulMono(a, a, b);
    MulMono(b, a, b);
    if a < b { MulMono(b, a + 1, b); assert b * (a + 1) == b * a + b; }
  }

  /** The radicand is a multiple of 2^54, so an odd truncated root is never exact. */
  lemma OddRoot(ix: nat, n: nat, q: nat)
    requires n == Radicand(ix) && q % 2 == 1
    ensures q * q != n
  {
    var h := q / 2;
    assert q == 2 * h + 1;
    assert q * q == 2 * (2 * h * h + 2 * h) + 1;
  }

  lemma RootScale(x: u64, ix: nat, n: nat, exp: int)
    requires -537 <= exp <= 511 && n == Radicand(ix)
    requires Mag(x) * Pow2(60) == ix * Pow2(2 * exp + 1082)
    ensures 4 * Mag(x) * Pow2(1074) == n * (Pow2(exp + 1022) * Pow2(exp + 1022))
  {
    hide Pow2, Mag;
    var u, c := Pow2(exp + 1022), Pow2(60);
    Pow2Table();
    Pow2Add(exp + 1022, exp + 1022);
    Pow2Add(54, 2 * exp + 2044);
    Pow2Add(2 * exp + 2098, 60);
    Pow2Add(2 * exp + 1082, 1074);
    Pow2Add(2 * exp + 2156, 2);
    assert Pow2(2) == 4 by { Pow2Four(); }
    RootScaleProducts(Mag(x), Pow2(1074), ix, Pow2(2 * exp + 1082), c, u * u, Pow2(2 * exp + 2098));
    SameProduct(4 * Mag(x) * Pow2(1074), n * (u * u), c);
  }

  lemma Pow2Four()
    ensures Pow2(2) == 4
  {
  }

  lemma RootScaleProducts(m: nat, p: nat, ix: nat, a: nat, c: nat, uu: nat, b: nat)
    requires m * c == ix * a && 0x40_0000_0000_0000 * uu == b && a * p * 4 == b * c
    ensures (4 * m * p) * c == ((ix * 0x40_0000_0000_0000) * uu) * c
  {
    calc {
      (4 * m * p) * c;
      4 * p * (m * c);
      4 * p * (ix * a);
      { assert 4 * p * (ix * a) == ix * (a * p * 4); }
      ix * (b * c);
      { assert ix * (b * c) == (ix * b) * c; }
      (ix * b) * c;
      { assert ix * (0x40_0000_0000_0000 * uu) == (ix * 0x40_0000_0000_0000) * uu; }
      ((ix * 0x40_0000_0000_0000) * uu) * c;
    }
  }

  /** The neighbours of the result in units of u/2, where its value is m * u. */
  lemma Neighbours(e: nat, m: nat)
    requires HIDDEN <= m <= 2 * HIDDEN && e >= 1
    ensures var a, u := e * HIDDEN + m, Pow2(e);
            && Mag(a) == m * u
            && Mag(a + 1) >= m * u + u
            && 2 * Mag(a - 1) <= 2 * (m * u) - u
            && (m > HIDDEN ==> Mag(a - 1) <= m * u - u)
  {
    hide Mag;
    var a := e * HIDDEN + m;
    MagAt(e, m);
    MagStep(a);
    MagStep(a - 1);
    NeighbourExponents(e, m);
  }

  lemma NeighbourExponents(e: nat, m: nat)
    requires HIDDEN <= m <= 2 * HIDDEN && e >= 1
    ensures var a := e * HIDDEN + m;
            && (a / HIDDEN == e + 1 || a / HIDDEN == e + 2)
            && (m > HIDDEN ==> (a - 1) / HIDDEN == e + 1)
            && (m == HIDDEN ==> (a - 1) / HIDDEN == e)
  {
  }

  /** Rounding the truncated root to 53 bits gives the nearest double. */
  lemma RootNearest(x: u64, n: nat, q: nat, m: nat, e: nat)
    requires 1 <= e <= 1533
    requires 4 * Val(x) * Pow2(1074) == n * (Pow2(e) * Pow2(e))
    requires q * q <= n < (q + 1) * (q + 1) && 2 * HIDDEN <= q < 4 * HIDDEN
    requires q % 2 == 1 ==> q * q < n
    requires m == (q + q % 2) / 2
    ensures e * HIDDEN + m < INF && NearestRoot(x, e * HIDDEN + m)
  {
    hide Mag, Pow2;
    var r: u64 := e * HIDDEN + m;
    var u := Pow2(e);
    Neighbours(e, m);
    SignParts(r);
    forall f: u64 | IsFinite(f) && Val(f) > Val(r)
      ensures AboveRoot(x, Val(r) + Val(f))
    {
      SignParts(f);
      if f <= r { MagMono(f, r); }
      MagMono(0, r);
      MagMono(r + 1, AbsBits(f));
      UpperSide(n, q, m, u, Val(r) + Val(f));
    }
    forall f: u64 | IsFinite(f) && Val(f) < Val(r)
      ensures BelowRoot(x, Val(r) + Val(f))
    {
      SignParts(f);
      if AbsBits(f) >= r { MagMono(r, AbsBits(f)); } else { MagMono(AbsBits(f), r - 1); }
      if Val(r) + Val(f) >= 0 { LowerSide(n, q, m, u, Val(r) + Val(f)); }
    }
  }

  lemma UpperSide(n: nat, q: nat, m: nat, u: nat, h: int)
    requires n < (q + 1) * (q + 1) && q <= 2 * m && u >= 1
    requires h >= 2 * (m * u) + u
    ensures h > 0 && n * (u * u) < h * h
  {
    var k := 2 * m + 1;
    SquareMono(q + 1, k);
    assert k * u == 2 * (m * u) + u;
    SquareMono(k * u, h);
    SquareProduct(k, u);
    assert u * u >= 1;
    StrictScale(n, k * k, u * u);
  }

  lemma SquareProduct(k: nat, u: nat)
    ensures (k * u) * (k * u) == (k * k) * (u * u)
  {
  }

  lemma LowerSide(n: nat, q: nat, m: nat, u: nat, h: nat)
    requires q * q <= n && m == (q + q % 2) / 2 && q >= 2 * HIDDEN && (q % 2 == 1 ==> q * q < n) && u >= 1
    requires 2 * h <= 4 * (m * u) - u
    requires m > HIDDEN ==> h <= 2 * (m * u) - u
    ensures h * h < n * (u * u)
  {
    assert u * u >= 1;
    if m > HIDDEN {
      var k := 2 * m - 1;
      assert k * u == 2 * (m * u) - u;
      SquareMono(h, k * u);
      SquareProduct(k, u);
      if q % 2 == 0 { SquareMono(k, q); }
      StrictScale(k * k, n, u * u);
    } else {
      var k := 2 * m;
      assert k * u == 2 * (m * u);
      SquareMono(h, k * u);
      SquareProduct(k, u);
      SquareMono(k, q);
      Scaled(k * k, n, u * u);
    }
  }
}
