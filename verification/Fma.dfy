/** Software fused multiply-add: x * y + z with a single rounding. */
module Fma {
  import opened Words
  import opened Float64

  // ----- two-word arithmetic -----

  function ZeroBit(x: u64): u64 { if x == 0 then 1 else 0 }
  function NonzeroBit(x: u64): u64 { if x != 0 then 1 else 0 }

  /** Subtraction of Go's unsigned shift counts, which wraps around. */
  function CountSub(a: u64, b: u64): u64 {
    if a >= b then a - b else a + TWO64 - b
  }

  /** The 128-bit number held in two words. */
  function Pair(u: (u64, u64)): nat { u.0 * TWO64 + u.1 }

  function Shl(u1: u64, u2: u64, n: u64): (u64, u64) {
    (Or64(Or64(Shl64(u1, n), Shr64(u2, CountSub(64, n))), Shl64(u2, CountSub(n, 64))), Shl64(u2, n))
  }

  function Shr(u1: u64, u2: u64, n: u64): (u64, u64) {
    (Shr64(u1, n), Or64(Or64(Shr64(u2, n), Shl64(u1, CountSub(64, n))), Shr64(u1, CountSub(n, 64))))
  }

  /** 1 << n minus 1, the mask of the bottom n bits (all ones from n == 64 on). */
  function LowMask(n: nat): u64 { Sub64(Shl64(1, n), 1) }

  /** Shift right by n keeping a sticky bit for everything shifted out. */
  function ShrCompress(u1: u64, u2: u64, n: nat): (u64, u64) {
    if n == 0 then (u1, u2)
    else if n == 64 then (0, Or64(u1, NonzeroBit(u2)))
    else if n >= 128 then (0, NonzeroBit(Or64(u1, u2)))
    else
      var r := Shr(u1, u2, n);
      if n < 64 then (r.0, Or64(r.1, NonzeroBit(And64(u2, LowMask(n)))))
      else (r.0, Or64(r.1, NonzeroBit(Or64(And64(u1, LowMask(n - 64)), u2))))
  }

  /** bits.LeadingZeros64. */
  function LeadingZeros64(x: u64): (n: nat)
    ensures n <= 64
  {
    LeadingZerosIn(x, 64)
  }

  function LeadingZerosIn(x: nat, width: nat): (n: nat)
    ensures n <= width
  {
    if width == 0 || x >= Pow2(width - 1) then 0 else 1 + LeadingZerosIn(x, width - 1)
  }

  function Lz(u1: u64, u2: u64): nat {
    var l := LeadingZeros64(u1);
    if l == 64 then l + LeadingZeros64(u2) else l
  }

  // ----- lemmas on the two-word operations -----

  lemma OrZero(x: nat, y: nat)
    ensures BitOr(x, y) == 0 <==> x == 0 && y == 0
  {
  }

  lemma LowMaskValue(x: u64, n: nat)
    requires n <= 64
    ensures And64(x, LowMask(n)) == x % Pow2(n)
  {
    Pow2Table();
    if n < 64 {
      Pow2Mono(n, 63);
      SmallMask(n, Pow2(n));
    }
    assert LowMask(n) == Pow2(n) - 1;
    AndMask(x, n);
  }

  lemma SmallMask(n: nat, p: nat)
    requires n < 64 && p == Pow2(n) <= 0x8000_0000_0000_0000
    ensures LowMask(n) == p - 1
  {
    assert 1 * p == p;
  }

  /** Quotient with the lowest bit set when anything was shifted out. */
  function Jam(u: nat, p: nat): nat
    requires p >= 1
  {
    DivModParts(u, p);
    var q := u / p;
    if u % p != 0 && q % 2 == 0 then q + 1 else q
  }

  lemma JamAt(u: nat, p: nat, q: nat, rem: nat)
    requires p >= 1 && rem < p && u == q * p + rem
    ensures Jam(u, p) == if rem != 0 && q % 2 == 0 then q + 1 else q
  {
    DivModUnique(u, p, q, rem);
  }

  /** Or-ing a sticky bit into the low word of a pair. */
  lemma StickyPair(r1: u64, r2: u64, x: u64)
    ensures Pair((r1, Or64(r2, NonzeroBit(x))))
         == if x != 0 && Pair((r1, r2)) % 2 == 0 then Pair((r1, r2)) + 1 else Pair((r1, r2))
  {
    OrOne(r2);
  }

  lemma ShrLow(u1: u64, u2: u64, n: nat)
    requires 0 < n < 64
    ensures Pair(Shr(u1, u2, n)) * Pow2(n) + u2 % Pow2(n) == Pair((u1, u2))
    ensures u2 % Pow2(n) < Pow2(n)
  {
    hide Shl64, Shr64, Shrunk, Shr, BitOr, Pow2;
    var p, q := Pow2(n), Pow2(64 - n);
    PowersTo64(n);
    DivModParts(u1, p);
    DivModParts(u2, p);
    var a, b, c, d := u1 / p, u1 % p, u2 / p, u2 % p;
    QuotientBound(u2, c, d, p, q);
    ShrLowWords(u1, u2, n, b, c);
    PairProduct(u1, u2, a, b, c, d, p, q);
  }

  lemma ShrLowWords(u1: u64, u2: u64, n: nat, b: nat, c: nat)
    requires 0 < n < 64
    requires b == u1 % Pow2(n) && c == u2 / Pow2(n) < Pow2(64 - n)
    ensures Shr(u1, u2, n) == (u1 / Pow2(n), b * Pow2(64 - n) + c)
  {
    Shl64Split(u1, 64 - n);
    OrDisjoint(b, c, 64 - n);
    hide Shl64, BitOr, Pow2;
  }

  lemma PairProduct(u1: nat, u2: nat, a: nat, b: nat, c: nat, d: nat, p: nat, q: nat)
    requires u1 == a * p + b && u2 == c * p + d && p * q == TWO64
    ensures (a * TWO64 + (b * q + c)) * p + d == u1 * TWO64 + u2
  {
    calc {
      (a * TWO64 + (b * q + c)) * p + d;
      (a * TWO64) * p + (b * q) * p + c * p + d;
      { assert (b * q) * p == b * (p * q); }
      (a * TWO64) * p + b * TWO64 + u2;
      (a * p) * TWO64 + b * TWO64 + u2;
    }
  }

  lemma ShrHigh(u1: u64, u2: u64, n: nat)
    requires 64 < n < 128
    ensures Shr(u1, u2, n) == (0, u1 / Pow2(n - 64))
  {
  }

  lemma HighProduct(u1: nat, u2: nat, q: nat, r: nat, k: nat)
    requires u1 == q * k + r && r < k && u2 < TWO64
    ensures q * (k * TWO64) + (r * TWO64 + u2) == u1 * TWO64 + u2
    ensures r * TWO64 + u2 < k * TWO64
  {
    assert (q * k) * TWO64 == q * (k * TWO64);
  }

  lemma ShrCompressLow(u1: u64, u2: u64, n: nat)
    requires 0 < n < 64
    ensures Pair(ShrCompress(u1, u2, n)) == Jam(Pair((u1, u2)), Pow2(n))
  {
    hide Shr, Pow2, And64, Or64, LowMask, Jam;
    var r := Shr(u1, u2, n);
    ShrLow(u1, u2, n);
    JamAt(Pair((u1, u2)), Pow2(n), Pair(r), u2 % Pow2(n));
    LowMaskValue(u2, n);
    StickyPair(r.0, r.1, And64(u2, LowMask(n)));
  }

  lemma ShrCompressHigh(u1: u64, u2: u64, n: nat)
    requires 64 < n < 128
    ensures Pair(ShrCompress(u1, u2, n)) == Jam(Pair((u1, u2)), Pow2(n))
  {
    hide Shr, Pow2, And64, Or64, LowMask, Jam;
    var k := Pow2(n - 64);
    var r := Shr(u1, u2, n);
    ShrHigh(u1, u2, n);
    DivModParts(u1, k);
    assert Pow2(n) == k * TWO64 by { Pow2Add(n - 64, 64); Pow2Table(); }
    HighProduct(u1, u2, u1 / k, u1 % k, k);
    JamAt(Pair((u1, u2)), Pow2(n), u1 / k, (u1 % k) * TWO64 + u2);
    LowMaskValue(u1, n - 64);
    Or64Zero(u1 % k, u2);
    StickyPair(r.0, r.1, Or64(And64(u1, LowMask(n - 64)), u2));
  }

  lemma Or64Zero(x: u64, y: u64)
    ensures Or64(x, y) == 0 <==> x == 0 && y == 0
  {
    OrZero(x, y);
  }

  /** The comment above shrcompress: the value shifted right by n, with the lowest
      bit set when any bit was lost. */
  lemma ShrCompressJams(u1: u64, u2: u64, n: nat)
    ensures Pair(ShrCompress(u1, u2, n)) == Jam(Pair((u1, u2)), Pow2(n))
  {
    hide Shr, And64, Or64, LowMask, Jam, Pow2;
    var u := Pair((u1, u2));
    if n == 0 {
      Pow2Table();
      JamAt(u, 1, u, 0);
    } else if n == 64 {
      assert Pow2(64) == TWO64 by { Pow2Table(); }
      JamAt(u, TWO64, u1, u2);
      StickyPair(0, u1, u2);
    } else if n >= 128 {
      assert u < Pow2(n) by {
        Pow2Table(); Pow2Add(64, 64); Pow2Mono(128, n);
      }
      JamAt(u, Pow2(n), 0, u);
      Or64Zero(u1, u2);
    } else if n < 64 {
      ShrCompressLow(u1, u2, n);
    } else {
      ShrCompressHigh(u1, u2, n);
    }
  }

  /** A left shift that loses nothing. */
  lemma ShlExact(u1: u64, u2: u64, n: nat)
    requires n < 128 && Pair((u1, u2)) * Pow2(n) < TWO64 * TWO64
    ensures Pair(Shl(u1, u2, n)) == Pair((u1, u2)) * Pow2(n)
  {
    if n == 0 {
      ShlNone(u1, u2);
    } else if n < 64 {
      ShlExactLow(u1, u2, n);
    } else {
      ShlExactHigh(u1, u2, n);
    }
  }

  lemma ShlNone(u1: u64, u2: u64)
    ensures Shl(u1, u2, 0) == (u1, u2) && Pair((u1, u2)) * Pow2(0) == Pair((u1, u2))
  {
    assert Pow2(0) == 1;
    assert Shl64(u1, 0) == u1 && Shl64(u2, 0) == u2;
  }

  lemma ShlExactLow(u1: u64, u2: u64, n: nat)
    requires 0 < n < 64 && Pair((u1, u2)) * Pow2(n) < TWO64 * TWO64
    ensures Pair(Shl(u1, u2, n)) == Pair((u1, u2)) * Pow2(n)
  {
    hide Shl64, Shr64, Shrunk, Shl, BitOr, Pow2;
    var p, q := Pow2(n), Pow2(64 - n);
    PowersTo64(n);
    DivModParts(u2, q);
    var c, d := u2 / q, u2 % q;
    HighFits(u1, u2, p, q);
    QuotientBound(u2, c, d, q, p);
    ShlLowWords(u1, u2, n, c, d);
    ShlProduct(u1, u2, c, d, p, q);
  }

  lemma ShlLowWords(u1: u64, u2: u64, n: nat, c: nat, d: nat)
    requires 0 < n < 64
    requires d == u2 % Pow2(64 - n) && c == u2 / Pow2(64 - n) < Pow2(n) && u1 < Pow2(64 - n)
    ensures Shl(u1, u2, n) == (u1 * Pow2(n) + c, d * Pow2(n))
  {
    Shl64Split(u1, n);
    Shl64Split(u2, n);
    SmallMod(u1, Pow2(64 - n));
    OrDisjoint(u1, c, n);
    hide Shl64, BitOr, Pow2;
  }

  lemma ShlExactHigh(u1: u64, u2: u64, n: nat)
    requires 64 <= n < 128 && Pair((u1, u2)) * Pow2(n) < TWO64 * TWO64
    ensures Pair(Shl(u1, u2, n)) == Pair((u1, u2)) * Pow2(n)
  {
    hide Shl64, Shr64, Shrunk, Shl, BitOr, Pow2;
    var k := Pow2(n - 64);
    assert Pow2(n) == k * TWO64 by { Pow2Add(n - 64, 64); Pow2Table(); }
    HighWordZero(u1, u2, k);
    ShlHighWords(u1, u2, n);
    MoveWord(u2, k);
  }

  lemma MoveWord(u: nat, k: nat)
    ensures u * (k * TWO64) == (u * k) * TWO64
  {
  }

  lemma ShlHighWords(u1: u64, u2: u64, n: nat)
    requires 64 <= n < 128 && u1 == 0 && u2 * Pow2(n - 64) < TWO64
    ensures Shl(u1, u2, n) == (u2 * Pow2(n - 64), 0)
  {
    var w := u2 * Pow2(n - 64);
    assert Shl64(u2, n - 64) == w by { SmallMod(w, TWO64); }
    OrSame(u2);
    assert Shr64(u2, 0) == u2 by { assert Pow2(0) == 1; }
    assert Shl64(u2, 0) == u2 by { assert Pow2(0) == 1; }
    hide Pow2, Shrunk;
    assert Shl64(u1, n) == 0 && Shl64(u2, n) == 0;
    assert Shr64(u2, CountSub(64, n)) == if n == 64 then u2 else 0;
  }

  lemma HighFits(u1: nat, u2: nat, p: nat, q: nat)
    requires p * q == TWO64 && p >= 1 && (u1 * TWO64 + u2) * p < TWO64 * TWO64
    ensures u1 < q
  {
    assert (u1 * TWO64 + u2) * p == (p * u1) * TWO64 + u2 * p;
    ScaleNat(u2, p);
    if u1 >= q { MulMono(p, q, u1); }
  }

  lemma ShlProduct(u1: nat, u2: nat, c: nat, d: nat, p: nat, q: nat)
    requires u2 == c * q + d && p * q == TWO64
    ensures (u1 * p + c) * TWO64 + d * p == (u1 * TWO64 + u2) * p
  {
    calc {
      (u1 * TWO64 + u2) * p;
      (u1 * p) * TWO64 + (c * q + d) * p;
      { assert (c * q + d) * p == c * (p * q) + d * p; }
      (u1 * p) * TWO64 + c * TWO64 + d * p;
    }
  }

  lemma HighWordZero(u1: nat, u2: nat, k: nat)
    requires k >= 1 && (u1 * TWO64 + u2) * (k * TWO64) < TWO64 * TWO64
    ensures u1 == 0 && u2 * k < TWO64
  {
    var w := (u1 * TWO64 + u2) * k;
    assert w * TWO64 == (u1 * TWO64 + u2) * (k * TWO64);
    assert w < TWO64;
    MulMono(u1 * TWO64 + u2, 1, k);
  }

  // ----- the algorithm -----

  /** A float taken apart: sign, biased exponent, normalized significand. */
  datatype Parts = Parts(sign: u64, exp: int, mant: u64)

  function Split(b: u64): Parts {
    var sign := Shr64(b, 63);
    var exp := BitAnd(Shr64(b, 52), MASK);
    var frac := And64(b, HIDDEN - 1);
    if exp == 0 then
      // normalize a subnormal
      FractionLeadingZeros(b);
      var shift: nat := LeadingZeros64(frac) - 11;
      Parts(sign, 1 - shift, Shl64(frac, shift))
    else
      // add the implicit 1 bit
      Parts(sign, exp, Or64(frac, Shl64(1, 52)))
  }

  /** An addend: sign, exponent and a two-word significand, the top bit at bit 126. */
  datatype Term = Term(sign: u64, exp: int, hi: u64, lo: u64) {
    function Sig(): nat { Pair((hi, lo)) }
  }

  function Product(x: Parts, y: Parts): Term {
    var p := MulWide(Shl64(x.mant, 10), Shl64(y.mant, 11));
    // normalize to the 62nd bit of the high word
    var is62zero := And64(Shr64(Not64(p.0), 62), 1);
    var q := Shl(p.0, p.1, is62zero);
    Term(Xor64(x.sign, y.sign), x.exp + y.exp - BIAS + 1 - is62zero, q.0, q.1)
  }

  function Addend(z: Parts): Term {
    Term(z.sign, z.exp, Shl64(z.mant, 10), 0)
  }

  predicate SmallerThan(p: Term, z: Term) {
    p.exp < z.exp || (p.exp == z.exp && (p.hi < z.hi || (p.hi == z.hi && p.lo < z.lo)))
  }

  /** An exponent and a one-word significand with a sticky low bit. */
  datatype Result = Result(exp: int, m: u64)

  function AddSignificands(exp: int, p: (u64, u64), z: (u64, u64)): Result {
    var lo, carry := Add64(p.1, z.1), (p.1 + z.1) / TWO64;
    var hi := Add64(Add64(p.0, z.0), carry);
    Result(exp - Shr64(Not64(hi), 63), ShrCompress(hi, lo, 64 + Shr64(hi, 63)).1)
  }

  function SubSignificands(exp: int, p: (u64, u64), z: (u64, u64)): Result {
    var lo, borrow := Sub64(p.1, z.1), if p.1 < z.1 then 1 else 0;
    var hi := Sub64(Sub64(p.0, z.0), borrow);
    var nz := Lz(hi, lo);
    var r := Shl(hi, lo, CountSub(nz, 1));
    Result(exp - nz, Or64(r.0, NonzeroBit(r.1)))
  }

  /** Align z to p, then add or subtract the significands. */
  function Combine(p: Term, z: Term): Result
    requires p.exp >= z.exp
  {
    var aligned := ShrCompress(z.hi, z.lo, p.exp - z.exp);
    if p.sign == z.sign then AddSignificands(p.exp, (p.hi, p.lo), aligned)
    else SubSignificands(p.exp, (p.hi, p.lo), aligned)
  }

  /** A negative exponent is shifted into the significand, for a subnormal result. */
  function Denormalize(r: Result): Result {
    if r.exp < 0 then
      var n := -r.exp;
      Result(0, Or64(Shr64(r.m, n), NonzeroBit(And64(r.m, LowMask(n)))))
    else r
  }

  /** Drop ten bits, rounding to nearest, ties to even. */
  function RoundTail(m: u64): u64 {
    And64(Shr64(Add64(m, 0x200), 10), Not64(ZeroBit(Xor64(And64(m, 0x3FF), 0x200))))
  }

  /** Round and assemble the pattern. */
  function RoundPack(sign: u64, r: Result): u64 {
    if r.exp > 1022 + BIAS || (r.exp == 1022 + BIAS && Shr64(Add64(r.m, 0x200), 63) == 1) then
      Or64(Shl64(sign, 63), INF)
    else
      var d := Denormalize(r);
      var m := RoundTail(d.m);
      var exp: u64 := if m != 0 then d.exp else 0;
      Add64(Add64(Shl64(sign, 63), Shl64(exp, 52)), m)
  }

  /** Non-finite factors are left to x*y + z in hardware, which is not modelled. */
  datatype Outcome = Hardware | Bits(b: u64)

  function FMA(x: u64, y: u64, z: u64): Outcome {
    if IsZero(x) || IsZero(y) || IsZero(z) || And64(x, INF) == INF || And64(y, INF) == INF then
      if IsFinite(x) && IsFinite(y) && IsFinite(z) then Bits(AddF(MulF(x, y), z)) else Hardware
    else if And64(z, INF) == INF then
      Bits(z)
    else
      var p, a := Product(Split(x), Split(y)), Addend(Split(z));
      var r := if SmallerThan(p, a) then (a.sign, Combine(a, p)) else (p.sign, Combine(p, a));
      Bits(RoundPack(r.0, r.1))
  }

  // ----- leading zeros -----

  lemma {:induction false} LeadingZerosInSpec(x: nat, width: nat)
    requires 0 < x < Pow2(width)
    ensures var n := LeadingZerosIn(x, width);
            n < width && Pow2(width - 1 - n) <= x < Pow2(width - n)
  {
    if x < Pow2(width - 1) { LeadingZerosInSpec(x, width - 1); }
  }

  lemma {:induction false} LeadingZerosAtLeast(x: nat, width: nat, k: nat)
    requires k <= width && x < Pow2(width - k)
    ensures LeadingZerosIn(x, width) >= k
  {
    if k > 0 {
      Pow2Mono(width - k, width - 1);
      LeadingZerosAtLeast(x, width - 1, k - 1);
    }
  }

  lemma FractionLeadingZeros(b: u64)
    ensures And64(b, HIDDEN - 1) == Fraction(b)
    ensures LeadingZeros64(Fraction(b)) >= 12
  {
    Pow2Table();
    AndMask(b, 52);
    LeadingZerosAtLeast(Fraction(b), 64, 12);
  }

  // ----- values -----

  lemma AllOnesExponent(b: u64)
    ensures And64(b, INF) == Exponent(b) * HIDDEN
    ensures And64(b, INF) == INF <==> !IsFinite(b)
  {
    hide BitAnd, Shr64, IsFinite, Exponent;
    AndHigh(b / HIDDEN, b % HIDDEN);
    ExponentField(b);
    TopShifts(b);
    DivModParts(b, HIDDEN);
    FiniteExponent(b);
  }

  lemma FiniteExponent(b: u64)
    ensures Exponent(b) * HIDDEN == INF <==> !IsFinite(b)
  {
  }

  lemma AndHigh(h: nat, f: nat)
    requires f < HIDDEN
    ensures BitAnd(h * HIDDEN + f, INF) == BitAnd(h, MASK) * HIDDEN
  {
    Pow2Table();
    AndSplit(h, f, MASK, 0, 52);
    assert BitAnd(f, 0) == 0;
  }

  /** split recovers the exact magnitude: mant * 2^(exp-1), scaled by 2^60 so that
      the exponents of normalized subnormals stay natural numbers. */
  lemma SplitValue(b: u64)
    requires IsFinite(b) && !IsZero(b)
    ensures var p := Split(b);
            && p.sign == Sign(b) <= 1
            && HIDDEN <= p.mant < 2 * HIDDEN
            && -51 <= p.exp <= 2046
            && Mag(AbsBits(b)) * Pow2(60) == p.mant * Pow2(p.exp + 59)
  {
    ExponentField(b);
    FractionLeadingZeros(b);
    AbsParts(b);
    if Exponent(b) == 0 {
      SplitSubnormal(b);
    } else {
      SplitNormal(b);
    }
  }

  lemma SplitNormal(b: u64)
    requires IsFinite(b) && Exponent(b) > 0
    ensures var p := Split(b);
            && p.exp == Exponent(b) <= 2046 && p.mant == HIDDEN + Fraction(b)
            && Mag(AbsBits(b)) * Pow2(60) == p.mant * Pow2(p.exp + 59)
  {
    ExponentField(b);
    FractionLeadingZeros(b);
    AbsParts(b);
    var e, f := Exponent(b), Fraction(b);
    SetHidden(f);
    hide Shl64, BitOr, BitAnd, Shr64, And64, Or64, Pow2;
    assert Mag(AbsBits(b)) == (HIDDEN + f) * Pow2(e - 1);
    Pow2Add(e - 1, 60);
    Regroup(HIDDEN + f, Pow2(e - 1), Pow2(60));
  }

  lemma SplitSubnormal(b: u64)
    requires Exponent(b) == 0 && !IsZero(b)
    ensures var p := Split(b);
            && HIDDEN <= p.mant < 2 * HIDDEN
            && -51 <= p.exp <= 0
            && Mag(AbsBits(b)) * Pow2(60) == p.mant * Pow2(p.exp + 59)
  {
    var f := Fraction(b);
    FractionLeadingZeros(b);
    var k: nat := LeadingZeros64(f) - 11;
    SubnormalFields(b, f, k);
    hide Shl64, Pow2, LeadingZeros64, Split, Fraction;
    SubnormalShift(f, k);
    Pow2Add(k, 60 - k);
    Regroup(f, Pow2(k), Pow2(60 - k));
    assert Split(b).exp + 59 == 60 - k;
  }

  lemma SubnormalFields(b: u64, f: nat, k: nat)
    requires Exponent(b) == 0 && !IsZero(b)
    requires f == Fraction(b) && k == LeadingZeros64(f) - 11
    ensures Split(b) == Parts(Sign(b), 1 - k, Shl64(f, k))
    ensures 1 <= k <= 52 && Pow2(52 - k) <= f < Pow2(53 - k)
    ensures Mag(AbsBits(b)) == f
  {
    hide Shl64, Shr64, And64, BitAnd, LeadingZerosIn, Pow2;
    ExponentField(b);
    FractionLeadingZeros(b);
    AbsParts(b);
    Pow2Table();
    LeadingZerosInSpec(f, 64);
  }

  lemma SubnormalShift(f: u64, k: nat)
    requires 1 <= k <= 52 && Pow2(52 - k) <= f < Pow2(53 - k)
    ensures Shl64(f, k) == f * Pow2(k)
    ensures HIDDEN <= f * Pow2(k) < 2 * HIDDEN
  {
    Pow2Add(52 - k, k);
    Pow2Add(53 - k, k);
    Pow2Table();
    var p := Pow2(k);
    Scaled(Pow2(52 - k), f, p);
    StrictScale(f, Pow2(53 - k), p);
    SmallMod(f * p, TWO64);
  }

  // ----- the two addends -----

  const TOP: nat := 0x4000_0000_0000_0000_0000_0000_0000_0000   // 1 << 126

  /** Exponents are offset by 1399 so that every power of two below is a natural
      number: v is the magnitude of the term in units of 2^-2548. */
  predicate Denotes(t: Term, v: int) {
    && TOP <= t.Sig() < 2 * TOP
    && t.Sig() % 0x20_0000 == 0
    && -1126 <= t.exp <= 3070
    && v == t.Sig() * Pow2(t.exp + 1399)
  }

  lemma ProductDenotes(x: u64, y: u64)
    requires IsFinite(x) && !IsZero(x) && IsFinite(y) && !IsZero(y)
    ensures var t := Product(Split(x), Split(y));
            && Denotes(t, Mag(AbsBits(x)) * Mag(AbsBits(y)) * Pow2(400))
            && t.sign == (if Sign(x) == Sign(y) then 0 else 1)
  {
    hide Product, Split, Pow2, Mag;
    var px, py := Split(x), Split(y);
    SplitValue(x);
    SplitValue(y);
    var i := ProductWords(px, py);
    var w := px.mant * py.mant;
    var t := Product(px, py);
    var a, b := px.exp + 59, py.exp + 59;
    Pow2Add(21 + i, t.exp + 1399);
    Pow2Add(a, b);
    Pow2Add(a + b, 280);
    Pow2Add(60, 60);
    Pow2Add(120, 280);
    ProductScale(px.mant, py.mant, Pow2(21 + i), Pow2(t.exp + 1399), Mag(AbsBits(x)), Mag(AbsBits(y)),
                 Pow2(a), Pow2(b), Pow2(60), Pow2(280));
  }

  lemma ProductScale(xm: nat, ym: nat, r: nat, e: nat, mx: nat, my: nat, a: nat, b: nat, c: nat, d: nat)
    requires mx * c == xm * a && my * c == ym * b && r * e == (a * b) * d
    ensures (xm * ym * r) * e == mx * my * ((c * c) * d)
  {
    calc {
      (xm * ym * r) * e;
      { Regroup(xm * ym, r, e); }
      (xm * ym) * ((a * b) * d);
      { Interchange(xm, ym, a, b, d); }
      ((xm * a) * (ym * b)) * d;
      ((mx * c) * (my * c)) * d;
      { Interchange(mx, my, c, c, d); }
      (mx * my) * ((c * c) * d);
    }
  }

  lemma Interchange(x: nat, y: nat, a: nat, b: nat, d: nat)
    ensures (x * y) * ((a * b) * d) == ((x * a) * (y * b)) * d
  {
    assert (x * y) * (a * b) == (x * a) * (y * b);
    assert (x * y) * ((a * b) * d) == ((x * y) * (a * b)) * d;
  }

  /** The words of the product: the 106-bit product shifted left by 21 + i. */
  lemma ProductWords(px: Parts, py: Parts) returns (i: nat)
    requires px.sign <= 1 && py.sign <= 1
    requires HIDDEN <= px.mant < 2 * HIDDEN && HIDDEN <= py.mant < 2 * HIDDEN
    ensures i <= 1
    ensures var t := Product(px, py);
            && TOP <= t.Sig() < 2 * TOP
            && t.Sig() == px.mant * py.mant * Pow2(21 + i)
            && t.Sig() % 0x20_0000 == 0
            && t.exp == px.exp + py.exp - BIAS + 1 - i
            && t.sign == (if px.sign == py.sign then 0 else 1)
  {
    var w := px.mant * py.mant;
    var p := MulWide(Shl64(px.mant, 10), Shl64(py.mant, 11));
    WideProduct(px.mant, py.mant);
    NotBit62(p.0);
    i := if p.0 >= 0x4000_0000_0000_0000 then 0 else 1;
    assert Pow2(i) == i + 1 && Pow2(21 + i) == 0x20_0000 * (i + 1) by { Pow2Small(); }
    hide Pow2, Shl64, MulWide, Shl, And64, Shr64;
    var sig := Pair(p) * (i + 1);
    assert TOP <= sig < 2 * TOP;
    assert sig == w * (0x20_0000 * (i + 1)) && sig % 0x20_0000 == 0 by {
      MultipleOf21(w, i + 1);
    }
    ShlExact(p.0, p.1, i);
    XorSigns(px.sign, py.sign);
    hide Pair;
    assert Product(px, py).Sig() == Pair(Shl(p.0, p.1, i));
  }

  lemma Pow2Small()
    ensures Pow2(21) == 0x20_0000 && Pow2(22) == 0x40_0000
    ensures Pow2(0) == 1 && Pow2(1) == 2
  {
    Pow2Table();
    Pow2Add(11, 10);
    Pow2Add(11, 11);
  }

  lemma WideProduct(x: u64, y: u64)
    requires HIDDEN <= x < 2 * HIDDEN && HIDDEN <= y < 2 * HIDDEN
    ensures var p := MulWide(Shl64(x, 10), Shl64(y, 11));
            && Pair(p) == x * y * 0x20_0000
            && TOP <= 2 * Pair(p) < 4 * TOP
            && p.0 < 0x8000_0000_0000_0000
  {
    MantProduct(x, y);
    assert Shl64(x, 10) == x * 0x400 && Shl64(y, 11) == y * 0x800 by { Pow2Table(); }
    ShiftedProduct(x, y);
  }

  lemma MultipleOf21(w: nat, k: nat)
    requires k == 1 || k == 2
    ensures (w * 0x20_0000 * k) % 0x20_0000 == 0
    ensures w * 0x20_0000 * k == w * (0x20_0000 * k)
  {
    DivModUnique(w * 0x20_0000 * k, 0x20_0000, w * k, 0);
  }

  lemma XorSigns(a: u64, b: u64)
    requires a <= 1 && b <= 1
    ensures Xor64(a, b) == if a == b then 0 else 1
  {
    XorUnfold(a, b);
  }

  lemma MantProduct(x: nat, y: nat)
    requires HIDDEN <= x < 2 * HIDDEN && HIDDEN <= y < 2 * HIDDEN
    ensures HIDDEN * HIDDEN <= x * y < 4 * HIDDEN * HIDDEN
  {
    MulMono(x, HIDDEN, y);
    MulMono(HIDDEN, HIDDEN, x);
    MulMono(x, y, 2 * HIDDEN - 1);
    MulMono(2 * HIDDEN - 1, x, 2 * HIDDEN - 1);
  }

  lemma ShiftedProduct(x: nat, y: nat)
    ensures (x * 0x400) * (y * 0x800) == (x * y) * 0x20_0000
  {
  }

  lemma NotBit62(hi: u64)
    requires hi < 0x8000_0000_0000_0000
    ensures And64(Shr64(Not64(hi), 62), 1) == if hi >= 0x4000_0000_0000_0000 then 0 else 1
  {
    Pow2Table();
    var n := Not64(hi);
    assert Shr64(n, 62) == n / 0x4000_0000_0000_0000;
    AndOne(Shr64(n, 62));
  }

  lemma AddendDenotes(z: u64)
    requires IsFinite(z) && !IsZero(z)
    ensures var t := Addend(Split(z));
            && Denotes(t, Mag(AbsBits(z)) * Pow2(1074) * Pow2(400))
            && t.sign == Sign(z)
  {
    hide Split, Shl64, Pow2, Mag;
    var pz := Split(z);
    SplitValue(z);
    AddendWords(pz);
    var t := Addend(pz);
    Pow2Add(74, t.exp + 1399);
    Pow2Add(t.exp + 59, 1414);
    Pow2Add(60, 1414);
    Pow2Add(1074, 400);
    AddendScale(pz.mant, Pow2(74), Pow2(t.exp + 1399), Mag(AbsBits(z)), Pow2(t.exp + 59), Pow2(60), Pow2(1414));
    Regroup(Mag(AbsBits(z)), Pow2(1074), Pow2(400));
  }

  lemma AddendWords(pz: Parts)
    requires HIDDEN <= pz.mant < 2 * HIDDEN
    ensures Addend(pz).Sig() == pz.mant * Pow2(74)
    ensures TOP <= Addend(pz).Sig() < 2 * TOP && Addend(pz).Sig() % 0x20_0000 == 0
  {
    assert Shl64(pz.mant, 10) == pz.mant * 0x400 && Pow2(74) == 0x400 * TWO64 by {
      Pow2Table(); Pow2Add(10, 64);
    }
    hide Pow2, Shl64;
    DivModUnique(Addend(pz).Sig(), 0x20_0000, pz.mant * (0x400 * TWO64 / 0x20_0000), 0);
  }

  lemma AddendScale(m: nat, r: nat, e: nat, mz: nat, a: nat, c: nat, d: nat)
    requires mz * c == m * a && r * e == a * d
    ensures (m * r) * e == mz * (c * d)
  {
    Regroup(m, r, e);
    Regroup(m, a, d);
    Regroup(mz, c, d);
  }

  // ----- sticky significands -----

  /** m stands for v in units of d: exactly, or m is odd and v lies strictly between
      the two even neighbours of m. Nothing more is needed to round v later. */
  ghost predicate Faithful(m: nat, v: int, d: nat) {
    m * d == v || (m % 2 == 1 && (m - 1) * d < v < (m + 1) * d)
  }

  /** Faithful with the product m * d named. */
  lemma FaithfulAs(m: nat, v: int, d: nat, a: int)
    requires a == m * d
    ensures Faithful(m, v, d) <==> a == v || (m % 2 == 1 && a - d < v < a + d)
  {
    NextTo(m, d);
  }

  lemma NextTo(q: int, e: nat)
    ensures (q - 1) * e == q * e - e && (q + 1) * e == q * e + e
  {
  }

  /** A compressing right shift keeps a significand faithful. */
  lemma JamFaithful(u: nat, v: int, d: nat, p: nat)
    requires Faithful(u, v, d) && d >= 1 && (p == 1 || (p >= 2 && p % 2 == 0))
    ensures Faithful(Jam(u, p), v, d * p)
  {
    DivModParts(u, p);
    var q, rem := u / p, u % p;
    if p > 1 { Parity(u, p, q, rem); }
    JamAt(u, p, q, rem);
    var j, e := Jam(u, p), d * p;
    hide Jam;
    FaithfulAs(u, v, d, u * d);
    NextTo(q, e);
    FaithfulAs(j, v, e, j * e);
    JamBounds(u, d, p, q, rem);
    hide Faithful;
    JamCases(u, v, d, q, rem, j, e, u * d, q * e, rem * d, j * e);
  }

  /** The arithmetic of JamFaithful with every product named. */
  lemma JamCases(u: nat, v: int, d: nat, q: nat, rem: nat, j: nat, e: nat, ud: int, qe: int, rd: int, je: int)
    requires ud == v || (u % 2 == 1 && ud - d < v < ud + d)
    requires ud == qe + rd && 0 <= rd && rd + d <= e && (rem == 0 ==> rd == 0) && (rem >= 1 ==> rd >= d) && d >= 1
    requires j == (if rem != 0 && q % 2 == 0 then q + 1 else q)
    requires je == if j == q then qe else qe + e
    requires (e == d && rem == 0 && q == u) || u % 2 == rem % 2
    ensures je == v || (j % 2 == 1 && je - e < v < je + e)
  {
  }

  lemma Parity(u: nat, p: nat, q: nat, rem: nat)
    requires p % 2 == 0 && u == q * p + rem
    ensures u % 2 == rem % 2
  {
    var h := p / 2;
    assert q * p == 2 * (q * h);
  }

  lemma JamBounds(u: nat, d: nat, p: nat, q: nat, rem: nat)
    requires u == q * p + rem && rem < p && d >= 1
    ensures u * d == q * (d * p) + rem * d
    ensures 0 <= rem * d && rem * d + d <= d * p
    ensures rem >= 1 ==> rem * d >= d
    ensures rem == 0 ==> rem * d == 0
  {
    assert (q * p) * d == q * (d * p);
    if rem >= 1 { MulMono(d, 1, rem); }
    MulMono(d, rem + 1, p);
  }

  lemma AddFaithful(p: nat, z: nat, vz: int, d: nat)
    requires p % 2 == 0 && Faithful(z, vz, d)
    ensures Faithful(p + z, p * d + vz, d)
  {
    assert (p + z) * d == p * d + z * d;
    FaithfulAs(z, vz, d, z * d);
    FaithfulAs(p + z, p * d + vz, d, p * d + z * d);
  }

  lemma SubFaithful(p: nat, z: nat, vz: int, d: nat)
    requires p % 2 == 0 && z <= p && Faithful(z, vz, d) && d >= 1
    ensures Faithful(p - z, p * d - vz, d) && p * d >= vz
  {
    hide Faithful;
    assert (p - z) * d == p * d - z * d;
    FaithfulAs(z, vz, d, z * d);
    FaithfulAs(p - z, p * d - vz, d, p * d - z * d);
    NextTo(z, d);
    if z < p { MulMono(d, z + 1, p); }
    assert (p - z) % 2 == z % 2;
  }

  lemma Pow2Parity(n: nat)
    ensures Pow2(n) == 1 || (Pow2(n) >= 2 && Pow2(n) % 2 == 0)
  {
  }

  lemma PowJamFaithful(u: nat, v: int, e: nat, n: nat)
    requires Faithful(u, v, Pow2(e))
    ensures Faithful(Jam(u, Pow2(n)), v, Pow2(e + n))
  {
    Pow2Parity(n);
    JamFaithful(u, v, Pow2(e), Pow2(n));
    Pow2Add(e, n);
  }

  // ----- align, add, subtract -----

  lemma AlignFaithful(p: Term, z: Term, vz: int)
    requires Denotes(z, vz) && p.exp >= z.exp
    ensures var a := ShrCompress(z.hi, z.lo, p.exp - z.exp);
            && Pair(a) == Jam(z.Sig(), Pow2(p.exp - z.exp))
            && Faithful(Pair(a), vz, Pow2(p.exp + 1399))
  {
    ShrCompressJams(z.hi, z.lo, p.exp - z.exp);
    PowJamFaithful(z.Sig(), vz, z.exp + 1399, p.exp - z.exp);
  }

  lemma AlignedBound(u: nat, n: nat)
    requires TOP <= u < 2 * TOP
    ensures var j := Jam(u, Pow2(n));
            && j < 2 * TOP
            && (n == 0 ==> j == u)
            && (n >= 1 ==> j < TOP)
            && (n >= 22 ==> j < TOP / 2)
  {
    var p := Pow2(n);
    if n == 0 {
      JamAt(u, 1, u, 0);
    } else if n < 22 {
      Pow2Mono(1, n);
      Pow2Table();
      JamBelow(u, p, 2, TOP);
    } else {
      Pow2Mono(3, n);
      Pow2Table();
      JamBelow(u, p, 8, TOP / 2);
    }
  }

  lemma JamBelow(u: nat, p: nat, k: nat, b: nat)
    requires p >= k >= 1 && u < k * b && b % 2 == 0
    ensures Jam(u, p) < b
  {
    DivModParts(u, p);
    var q := u / p;
    MulMono(q, k, p);
    if q >= b { MulMono(k, b, q); }
  }

  /** Alignments of at most 21 bits lose nothing. */
  lemma AlignedExact(u: nat, n: nat)
    requires n <= 21 && u % 0x20_0000 == 0
    ensures Jam(u, Pow2(n)) * Pow2(n) == u
  {
    hide Jam, Pow2;
    var p, k := Pow2(n), u / 0x20_0000;
    Pow2Add(n, 21 - n);
    Pow2Small();
    assert u == k * 0x20_0000;
    var q := k * Pow2(21 - n);
    assert q * p == k * (p * Pow2(21 - n));
    ScaleNat(k, Pow2(21 - n));
    JamAt(u, p, q, 0);
  }

  lemma AddCarry(p: (u64, u64), z: (u64, u64))
    requires Pair(p) + Pair(z) < TWO64 * TWO64
    ensures var lo, carry := Add64(p.1, z.1), (p.1 + z.1) / TWO64;
            Pair((Add64(Add64(p.0, z.0), carry), lo)) == Pair(p) + Pair(z)
  {
  }

  lemma SubBorrow(p: (u64, u64), z: (u64, u64))
    requires Pair(p) >= Pair(z)
    ensures var lo, borrow := Sub64(p.1, z.1), if p.1 < z.1 then 1 else 0;
            Pair((Sub64(Sub64(p.0, z.0), borrow), lo)) == Pair(p) - Pair(z)
  {
  }

  predicate Significant(m: nat) { 0x4000_0000_0000_0000 <= m < 0x8000_0000_0000_0000 }

  lemma TopBit(hi: u64)
    ensures Shr64(hi, 63) == (if hi >= SIGNBIT then 1 else 0)
    ensures Shr64(Not64(hi), 63) == (if hi >= SIGNBIT then 0 else 1)
  {
    Pow2Table();
  }

  lemma AddFaithfully(exp: int, p: (u64, u64), z: (u64, u64), vz: int)
    requires exp >= -1126 && TOP <= Pair(p) < 2 * TOP && Pair(z) < 2 * TOP && Pair(p) % 2 == 0
    requires Faithful(Pair(z), vz, Pow2(exp + 1399))
    ensures var r := AddSignificands(exp, p, z);
            && Significant(r.m) && exp - 1 <= r.exp <= exp
            && Faithful(r.m, Pair(p) * Pow2(exp + 1399) + vz, Pow2(r.exp + 1464))
  {
    hide Jam, Pow2, Shr64, Add64, Not64, ShrCompress, Faithful;
    var v := Pair(p) * Pow2(exp + 1399) + vz;
    AddFaithful(Pair(p), Pair(z), vz, Pow2(exp + 1399));
    AddCarry(p, z);
    var hi, lo := Add64(Add64(p.0, z.0), (p.1 + z.1) / TWO64), Add64(p.1, z.1);
    TopBit(hi);
    var k := 64 + Shr64(hi, 63);
    ShrCompressJams(hi, lo, k);
    PowJamFaithful(Pair((hi, lo)), v, exp + 1399, k);
    JamOneWord(Pair((hi, lo)), k);
    LowWord(ShrCompress(hi, lo, k));
  }

  lemma LowWord(u: (u64, u64))
    requires Pair(u) < TWO64
    ensures Pair(u) == u.1
  {
  }

  lemma JamOneWord(u: nat, k: nat)
    requires (k == 64 && TOP <= u < 2 * TOP) || (k == 65 && 2 * TOP <= u < 4 * TOP)
    ensures Significant(Jam(u, Pow2(k)))
  {
    var p := Pow2(k);
    assert p == (if k == 64 then TWO64 else 2 * TWO64) by { Pow2Table(); }
  }

  lemma LeadingZerosScale(x: nat, width: nat)
    requires 0 < x < Pow2(width) && width >= 1
    ensures var n := LeadingZerosIn(x, width);
            n < width && Pow2(width - 1) <= x * Pow2(n) < Pow2(width)
  {
    LeadingZerosInSpec(x, width);
    var n := LeadingZerosIn(x, width);
    Pow2Add(width - 1 - n, n);
    Pow2Add(width - n, n);
    Scaled(Pow2(width - 1 - n), x, Pow2(n));
    StrictScale(x, Pow2(width - n), Pow2(n));
  }

  lemma LeadingZerosOfZero()
    ensures LeadingZeros64(0) == 64 && Lz(0, 0) == 128
  {
    LeadingZerosAtLeast(0, 64, 64);
  }

  /** Shifting by the leading zeros brings the top bit to bit 127. */
  lemma LzNormalizes(u1: u64, u2: u64)
    requires Pair((u1, u2)) > 0
    ensures var n := Lz(u1, u2);
            n < 128 && 2 * TOP <= Pair((u1, u2)) * Pow2(n) < 4 * TOP
  {
    Pow2Table();
    if u1 > 0 {
      LeadingZerosScale(u1, 64);
      var n := LeadingZeros64(u1);
      Pow2Add(64 - n, n);
      LzHigh(u1, u2, n);
    } else {
      LeadingZerosOfZero();
      LeadingZerosScale(u2, 64);
      var n := LeadingZeros64(u2);
      Pow2Add(n, 64);
      MoveWord(u2, Pow2(n));
    }
  }

  lemma LzHigh(u1: u64, u2: u64, n: nat)
    requires n < 64 && 0 < u1 && 0x8000_0000_0000_0000 <= u1 * Pow2(n) < TWO64
    requires Pow2(64 - n) * Pow2(n) == TWO64
    ensures 2 * TOP <= Pair((u1, u2)) * Pow2(n) < 4 * TOP
  {
    hide Pow2;
    var p, q := Pow2(n), Pow2(64 - n);
    if u1 >= q { MulMono(p, q, u1); }
    MulMono(p, u1 + 1, q);
    LzHighProduct(u1, u2, p);
  }

  lemma LzHighProduct(u1: nat, u2: u64, p: nat)
    requires p >= 1 && 0x8000_0000_0000_0000 <= u1 * p && p * (u1 + 1) <= TWO64
    ensures 2 * TOP <= (u1 * TWO64 + u2) * p < 4 * TOP
  {
    var a, b := u1 * p, u2 * p;
    assert (u1 * TWO64 + u2) * p == a * TWO64 + b;
    StrictScale(u2, TWO64, p);
    ScaleNat(u2, p);
    assert a + p <= TWO64;
    assert b < p * TWO64;
  }

  lemma JamDouble(u: nat, k: nat)
    ensures Jam(2 * u, Pow2(k + 1)) == Jam(u, Pow2(k))
  {
    var p := Pow2(k);
    DivModParts(u, p);
    var q, rem := u / p, u % p;
    assert q * (2 * p) == 2 * (q * p);
    JamAt(2 * u, 2 * p, q, 2 * rem);
  }

  /** The high word of a shifted difference, with the low word folded in. */
  lemma FoldLowWord(r: (u64, u64))
    requires TOP <= Pair(r) < 2 * TOP
    ensures Or64(r.0, NonzeroBit(r.1)) == Jam(Pair(r), Pow2(64))
    ensures Significant(Or64(r.0, NonzeroBit(r.1)))
  {
    ShrCompressJams(r.0, r.1, 64);
    JamOneWord(Pair(r), 64);
  }

  lemma SubFaithfully(exp: int, p: (u64, u64), z: (u64, u64), vz: int)
    requires exp >= -1126 && TOP <= Pair(p) < 2 * TOP && Pair(z) <= Pair(p) && Pair(p) % 2 == 0
    requires Faithful(Pair(z), vz, Pow2(exp + 1399))
    requires Pair(z) * Pow2(exp + 1399) == vz || Pair(z) < TOP / 2
    ensures var r := SubSignificands(exp, p, z);
            var v := Pair(p) * Pow2(exp + 1399) - vz;
            && v >= 0 && exp - 128 <= r.exp < exp
            && (Pair(p) == Pair(z) ==> r.m == 0 && r.exp == exp - 128 && v == 0)
            && (Pair(p) > Pair(z) ==> Significant(r.m))
            && Faithful(r.m, v, Pow2(r.exp + 1464))
  {
    hide Jam, Pow2, Faithful, SubSignificands, Pair;
    var d := Pow2(exp + 1399);
    var s, v := Pair(p) - Pair(z), Pair(p) * d - vz;
    SubFaithful(Pair(p), Pair(z), vz, d);
    var diff := Difference(p, z);
    if s == 0 {
      PairZero(diff);
      ZeroDifference(exp);
    } else {
      assert (Pair(p) - Pair(z)) * d == Pair(p) * d - Pair(z) * d;
      NormalizeDifference(exp, diff, v);
    }
    SubWords(exp, p, z);
  }

  /** The two-word difference, before normalization. */
  function Difference(p: (u64, u64), z: (u64, u64)): (d: (u64, u64))
    requires Pair(p) >= Pair(z)
    ensures Pair(d) == Pair(p) - Pair(z)
  {
    SubBorrow(p, z);
    (Sub64(Sub64(p.0, z.0), if p.1 < z.1 then 1 else 0), Sub64(p.1, z.1))
  }

  function NormalizedDifference(exp: int, d: (u64, u64)): Result {
    var nz := Lz(d.0, d.1);
    var r := Shl(d.0, d.1, CountSub(nz, 1));
    Result(exp - nz, Or64(r.0, NonzeroBit(r.1)))
  }

  lemma SubWords(exp: int, p: (u64, u64), z: (u64, u64))
    requires Pair(p) >= Pair(z)
    ensures SubSignificands(exp, p, z) == NormalizedDifference(exp, Difference(p, z))
  {
    hide Shl, Lz, Or64, Pair;
  }

  lemma PairZero(d: (u64, u64))
    requires Pair(d) == 0
    ensures d == (0, 0)
  {
  }

  lemma NormalizeDifference(exp: int, d: (u64, u64), v: int)
    requires exp >= -1126 && 0 < Pair(d) < 2 * TOP
    requires Faithful(Pair(d), v, Pow2(exp + 1399))
    requires Pair(d) * Pow2(exp + 1399) == v || Pair(d) > TOP / 2
    ensures var r := NormalizedDifference(exp, d);
            && exp - 128 <= r.exp < exp && Significant(r.m)
            && Faithful(r.m, v, Pow2(r.exp + 1464))
  {
    hide Jam, Pow2, Shl, Lz, Faithful, Or64, Pair;
    LzNormalizes(d.0, d.1);
    var nz := Lz(d.0, d.1);
    NormalizeShift(d.0, d.1, nz);
    FoldLowWord(Shl(d.0, d.1, nz - 1));
    DifferenceFaithful(Pair(d), v, exp, nz);
  }

  lemma ZeroDifference(exp: int)
    requires exp >= -1126
    ensures NormalizedDifference(exp, (0, 0)) == Result(exp - 128, 0)
    ensures Faithful(0, 0, Pow2(exp - 128 + 1464))
  {
    LeadingZerosOfZero();
    assert Shl64(0, 127) == 0 && Shr64(0, CountSub(64, 127)) == 0 && Shl64(0, 63) == 0;
  }

  lemma NormalizeShift(hi: u64, lo: u64, nz: nat)
    requires 0 < Pair((hi, lo)) < 2 * TOP && nz < 128 && 2 * TOP <= Pair((hi, lo)) * Pow2(nz) < 4 * TOP
    ensures nz >= 1 && TOP <= Pair((hi, lo)) * Pow2(nz - 1) < 2 * TOP
    ensures Pair(Shl(hi, lo, nz - 1)) == Pair((hi, lo)) * Pow2(nz - 1)
    ensures Pair((hi, lo)) > TOP / 2 ==> nz <= 2
  {
    var s := Pair((hi, lo));
    Pow2Table();
    assert s * 1 == s;
    assert s * Pow2(nz) == 2 * (s * Pow2(nz - 1)) by { DoubleProduct(s, nz); }
    ShlExact(hi, lo, nz - 1);
    if s > TOP / 2 && nz > 2 {
      Pow2Mono(3, nz);
      Pow2Table();
      MulMono(s, 8, Pow2(nz));
      assert false;
    }
  }

  lemma DifferenceFaithful(s: nat, v: int, exp: int, nz: nat)
    requires exp >= -1126 && 1 <= nz < 128
    requires Faithful(s, v, Pow2(exp + 1399))
    requires s * Pow2(exp + 1399) == v || nz <= 2
    ensures Faithful(Jam(s * Pow2(nz - 1), Pow2(64)), v, Pow2(exp - nz + 1464))
  {
    hide Jam;
    if s * Pow2(exp + 1399) == v {
      Pow2Add(nz - 1, exp + 1400 - nz);
      Regroup(s, Pow2(nz - 1), Pow2(exp + 1400 - nz));
      ScaleNat(s, Pow2(nz - 1));
      PowJamFaithful(s * Pow2(nz - 1), v, exp + 1400 - nz, 64);
    } else if nz == 1 {
      Pow2Table();
      assert s * Pow2(0) == s;
      PowJamFaithful(s, v, exp + 1399, 64);
    } else {
      Pow2Table();
      assert s * Pow2(1) == 2 * s;
      JamDouble(s, 63);
      PowJamFaithful(s, v, exp + 1399, 63);
    }
  }

  /** |x*y| and |z| combined: the sticky significand stands for the exact sum. */
  lemma CombineFaithful(p: Term, z: Term, vp: int, vz: int)
    requires Denotes(p, vp) && Denotes(z, vz) && p.exp >= z.exp
    requires p.exp == z.exp ==> p.Sig() >= z.Sig() && p.exp <= 2046
    ensures var r := Combine(p, z);
            var v := if p.sign == z.sign then vp + vz else vp - vz;
            && v >= 0 && -1254 <= r.exp
            && (Significant(r.m) || (r.m == 0 && v == 0 && r.exp <= 2045))
            && Faithful(r.m, v, Pow2(r.exp + 1464))
  {
    hide ShrCompress, Jam, Pow2, AddSignificands, SubSignificands, Faithful, Pair;
    var a := ShrCompress(z.hi, z.lo, p.exp - z.exp);
    AlignFaithful(p, z, vz);
    AlignedBound(z.Sig(), p.exp - z.exp);
    EvenSig(p.Sig());
    if p.sign == z.sign {
      AddFaithfully(p.exp, (p.hi, p.lo), a, vz);
    } else {
      AlignedCases(p, z, vz);
      SubFaithfully(p.exp, (p.hi, p.lo), a, vz);
    }
  }

  lemma EvenSig(s: nat)
    requires s % 0x20_0000 == 0
    ensures s % 2 == 0
  {
  }

  lemma AlignedCases(p: Term, z: Term, vz: int)
    requires Denotes(z, vz) && p.exp >= z.exp
    ensures var a := Jam(z.Sig(), Pow2(p.exp - z.exp));
            a * Pow2(p.exp + 1399) == vz || a < TOP / 2
  {
    hide Jam, Pow2;
    var n := p.exp - z.exp;
    var a := Jam(z.Sig(), Pow2(n));
    if n <= 21 {
      AlignedExact(z.Sig(), n);
      Pow2Add(n, z.exp + 1399);
      Regroup(a, Pow2(n), Pow2(z.exp + 1399));
    } else {
      AlignedBound(z.Sig(), n);
    }
  }

  // ----- rounding -----

  lemma TailArithmetic(m: u64)
    requires m < SIGNBIT
    ensures var q, t := m / 0x400, m % 0x400;
            RoundTail(m) == if t > 0x200 || (t == 0x200 && q % 2 == 1) then q + 1 else q
  {
    hide BitAnd, BitXor, Pow2, Shr64, Add64, Shrunk, And64, Not64;
    var q, t := m / 0x400, m % 0x400;
    LowTen(m);
    XorTie(t);
    ShiftTen(m);
    KeepMask(q);
    KeepMask(q + 1);
    ClearLowBit(q + 1);
  }

  lemma LowTen(m: u64)
    ensures And64(m, 0x3FF) == m % 0x400
  {
    Pow2Table();
    AndMask(m, 10);
  }

  lemma ShiftTen(m: u64)
    requires m < SIGNBIT
    ensures Shr64(Add64(m, 0x200), 10) == if m % 0x400 >= 0x200 then m / 0x400 + 1 else m / 0x400
  {
    Pow2Table();
    hide Pow2;
    assert Shr64(Add64(m, 0x200), 10) == (m + 0x200) / 0x400;
  }

  lemma XorTie(t: nat)
    requires t < 0x400
    ensures Xor64(t, 0x200) == 0 <==> t == 0x200
  {
    XorZero(t, 0x200);
  }

  lemma {:induction false} XorZero(x: nat, y: nat)
    ensures BitXor(x, y) == 0 <==> x == y
    decreases x + y
  {
    if x != 0 && y != 0 {
      XorZero(x / 2, y / 2);
      XorUnfold(x, y);
    }
  }

  lemma KeepMask(x: u64)
    ensures And64(x, Not64(0)) == x
  {
    Pow2Table();
    AndOnes(x, 64);
  }

  lemma ClearLowBit(x: u64)
    ensures And64(x, Not64(1)) == x - x % 2
  {
    Pow2Table();
    AndUnfold(x, Not64(1));
    assert Not64(1) / 2 == Pow2(63) - 1 && Not64(1) % 2 == 0;
    AndOnes(x / 2, 63);
  }

  /** Where v lies in the bracket around a sticky significand. */
  lemma Bracket(m: nat, v: int, d: nat, e: nat)
    requires Faithful(m, v, d) && d >= 1 && e == 0x400 * d
    ensures var q, t := m / 0x400, m % 0x400;
            && q * e <= v <= (q + 1) * e
            && (t < 0x200 ==> 2 * v < (q + (q + 1)) * e)
            && (t == 0x200 ==> 2 * v == (q + (q + 1)) * e)
            && (t > 0x200 ==> 2 * v > (q + (q + 1)) * e)
  {
    hide Faithful;
    var q, t := m / 0x400, m % 0x400;
    TailParity(m);
    hide *;
    BracketProduct(q, t, d, e);
    FaithfulAs(m, v, d, q * e + t * d);
    BracketEnds(q, e);
    TailScale(t, d, t * d);
    BracketCases(m % 2 == 1, t, v, d, e, q * e, t * d);
  }

  lemma TailParity(m: nat)
    ensures m == (m / 0x400) * 0x400 + m % 0x400 && m % 0x400 < 0x400
    ensures m % 2 == (m % 0x400) % 2
  {
  }

  lemma BracketProduct(q: nat, t: nat, d: nat, e: nat)
    requires e == 0x400 * d
    ensures (q * 0x400 + t) * d == q * e + t * d
  {
    assert (q * 0x400) * d == q * e;
  }

  lemma BracketCases(odd: bool, t: nat, v: int, d: nat, e: nat, qe: int, td: int)
    requires qe + td == v || (odd && qe + td - d < v < qe + td + d)
    requires odd <==> t % 2 == 1
    requires t < 0x400 && d >= 1 && e == 0x400 * d
    requires 0 <= td <= 0x3FF * d && (t >= 1 ==> td >= d)
    requires t < 0x200 ==> td <= 0x1FF * d
    requires t == 0x200 ==> td == 0x200 * d
    requires t > 0x200 ==> td >= 0x201 * d
    ensures qe <= v <= qe + e
    ensures t < 0x200 ==> 2 * v < 2 * qe + e
    ensures t == 0x200 ==> 2 * v == 2 * qe + e
    ensures t > 0x200 ==> 2 * v > 2 * qe + e
  {
  }

  lemma BracketEnds(q: nat, e: nat)
    ensures (q + 1) * e == q * e + e && (q + (q + 1)) * e == 2 * (q * e) + e
  {
  }

  lemma TailScale(t: nat, d: nat, td: int)
    requires t < 0x400 && td == t * d && d >= 1
    ensures 0 <= td <= 0x3FF * d
    ensures t >= 1 ==> td >= d
    ensures t < 0x200 ==> td <= 0x1FF * d
    ensures t == 0x200 ==> td == 0x200 * d
    ensures t > 0x200 ==> td >= 0x201 * d
  {
    MulMono(d, t, 0x3FF);
    if t < 0x200 { MulMono(d, t, 0x1FF); }
    if t > 0x200 { MulMono(d, 0x201, t); }
    if t >= 1 { MulMono(d, 1, t); }
  }

  /** The pattern a significand rounds to is the one nearest to v. */
  lemma RoundStep(v: nat, s: nat, e: nat, m: u64, d: nat)
    requires m < SIGNBIT && (e == 0 || Significant(m)) && d >= 1
    requires Faithful(m, v, d) && Pow2(e) * Pow2(s) == 0x400 * d
    ensures var a := e * HIDDEN + m / 0x400;
            && Mag(a) * Pow2(s) <= v <= Mag(a + 1) * Pow2(s)
            && PicksEven(v, s, a, e * HIDDEN + RoundTail(m))
  {
    hide Pow2, RoundTail, Faithful, Mag, PicksEven;
    var q, en := m / 0x400, 0x400 * d;
    Bracket(m, v, d, en);
    BracketEnds(q, en);
    assert q <= 2 * HIDDEN - 1 && (e == 0 || q >= HIDDEN);
    GridAt(e, q, s, d);
    GridAt(e, q + 1, s, d);
    PickBetween(v, s, e, m, q * en, q * en + en);
  }

  lemma PickBetween(v: nat, s: nat, e: nat, m: u64, lo: int, hi: int)
    requires m < SIGNBIT
    requires var a := e * HIDDEN + m / 0x400; lo == Mag(a) * Pow2(s) && hi == Mag(a + 1) * Pow2(s)
    requires var t := m % 0x400;
             && (t < 0x200 ==> 2 * v < lo + hi)
             && (t == 0x200 ==> 2 * v == lo + hi)
             && (t > 0x200 ==> 2 * v > lo + hi)
    ensures PicksEven(v, s, e * HIDDEN + m / 0x400, e * HIDDEN + RoundTail(m))
  {
    hide Pow2, Mag, RoundTail, PicksEven;
    var q, t := m / 0x400, m % 0x400;
    TailArithmetic(m);
    EvenBase(e, q);
    PickAt(v, s, e * HIDDEN + q, e * HIDDEN + RoundTail(m), lo, hi, t > 0x200 || (t == 0x200 && q % 2 == 1));
  }

  lemma GridAt(e: nat, q: nat, s: nat, d: nat)
    requires q <= 2 * HIDDEN && (e == 0 || q >= HIDDEN)
    requires Pow2(e) * Pow2(s) == 0x400 * d
    ensures Mag(e * HIDDEN + q) * Pow2(s) == q * (0x400 * d)
  {
    hide Pow2, Mag;
    MagAt(e, q);
    Regroup(q, Pow2(e), Pow2(s));
  }

  lemma DenormalizeJams(m: u64, n: nat)
    requires n > 0
    ensures Or64(Shr64(m, n), NonzeroBit(And64(m, LowMask(n)))) == Jam(m, Pow2(n))
  {
    if n < 64 {
      LowMaskValue(m, n);
      OrOne(Shr64(m, n));
      hide BitAnd, BitOr, Pow2, LowMask, And64;
    } else {
      assert LowMask(n) == MAX64 by { assert Sub64(0, 1) == MAX64; }
      KeepMask(m);
      assert m < Pow2(n) by { Pow2Table(); Pow2Mono(64, n); }
      JamAt(m, Pow2(n), 0, m);
      hide BitAnd, Pow2, LowMask, And64, Jam;
    }
  }

  lemma AssembleBits(sign: u64, exp: u64, m: u64)
    requires sign <= 1 && exp * HIDDEN + m <= INF
    ensures Add64(Add64(Shl64(sign, 63), Shl64(exp, 52)), m) == WithSign(sign == 1, exp * HIDDEN + m)
  {
    SignShift(sign);
    ExponentShift(exp);
    hide Shl64;
    AddNoWrap(sign * SIGNBIT, exp * HIDDEN);
    AddNoWrap(sign * SIGNBIT + exp * HIDDEN, m);
  }

  lemma AddNoWrap(x: u64, y: u64)
    requires x + y < TWO64
    ensures Add64(x, y) == x + y
  {
  }

  lemma AssembleInf(sign: u64)
    requires sign <= 1
    ensures Or64(Shl64(sign, 63), INF) == WithSign(sign == 1, INF)
  {
    SignShift(sign);
    assert Or64(sign * SIGNBIT, INF) == sign * SIGNBIT + INF by {
      Pow2Table();
      OrDisjoint(sign, INF, 63);
    }
    hide Shl64, Or64;
  }

  lemma SignShift(sign: u64)
    requires sign <= 1
    ensures Shl64(sign, 63) == sign * SIGNBIT
  {
    Pow2Table();
    hide Pow2;
  }

  lemma ExponentShift(exp: u64)
    requires exp < 0x800
    ensures Shl64(exp, 52) == exp * HIDDEN
  {
    Pow2Table();
    hide Pow2;
  }

  lemma DenormalizeFaithful(r: Result, v: nat)
    requires Significant(r.m) && -1254 <= r.exp
    requires Faithful(r.m, v, Pow2(r.exp + 1464))
    ensures var d := Denormalize(r);
            && 0 <= d.exp && (d.exp == 0 || Significant(d.m)) && d.m < SIGNBIT
            && (r.exp >= 0 ==> d == r) && (r.exp < 0 ==> d.exp == 0)
            && Faithful(d.m, v, Pow2(d.exp + 1464))
  {
    DenormalizedRange(r);
    if r.exp < 0 {
      var n := -r.exp;
      DenormalizeJams(r.m, n);
      PowJamFaithful(r.m, v, r.exp + 1464, n);
    }
  }

  lemma JamShrinks(m: nat, n: nat)
    requires m < SIGNBIT && n >= 1
    ensures Jam(m, Pow2(n)) < SIGNBIT
  {
    Pow2Mono(1, n);
    Pow2Table();
    JamBelow(m, Pow2(n), 2, SIGNBIT);
  }

  lemma PastTheTop(v: nat, s: nat, exp: int, m: nat, d: nat)
    requires exp >= 2046 && Significant(m) && d >= 1 && Faithful(m, v, d)
    requires Pow2(exp) * Pow2(s) == 0x400 * d
    ensures Overflows(v, s)
  {
    hide Pow2, Faithful, Mag;
    Bracket(m, v, d, 0x400 * d);
    MagAt(2046, HIDDEN);
    assert 2046 * HIDDEN + HIDDEN == INF;
    MagMono(INF - 1, INF);
    var q := m / 0x400;
    MulMono(0x400 * d, HIDDEN, q);
    Pow2Mono(2046, exp);
    Scaled(Pow2(2046), Pow2(exp), Pow2(s));
    Regroup(HIDDEN, Pow2(2046), Pow2(s));
    MulMono(HIDDEN, Pow2(2046) * Pow2(s), 0x400 * d);
    Scaled(Mag(INF - 1), Mag(INF), Pow2(s));
  }

  lemma RoundPackCorrect(sign: u64, r: Result, v: int)
    requires sign <= 1 && Significant(r.m) && -1254 <= r.exp
    requires Faithful(r.m, Abs(v), Pow2(r.exp + 1464)) && (v < 0 <==> sign == 1)
    ensures RoundsTo(v, 1474, RoundPack(sign, r))
  {
    if r.exp > 2045 {
      RoundPackOverflow(sign, r, v);
    } else {
      RoundPackFinite(sign, r, v);
    }
  }

  lemma RoundPackOverflow(sign: u64, r: Result, v: int)
    requires sign <= 1 && Significant(r.m) && r.exp > 2045
    requires Faithful(r.m, Abs(v), Pow2(r.exp + 1464)) && (v < 0 <==> sign == 1)
    ensures RoundsTo(v, 1474, RoundPack(sign, r))
  {
    hide Pow2, Faithful, Or64, Shl64, Overflows, RoundsTo, WithSign;
    ScaleUnit(r.exp);
    PastTheTop(Abs(v), 1474, r.exp, r.m, Pow2(r.exp + 1464));
    AssembleInf(sign);
    OverflowRounds(v, 1474);
  }

  lemma RoundPackFinite(sign: u64, r: Result, v: int)
    requires sign <= 1 && Significant(r.m) && -1254 <= r.exp <= 2045
    requires Faithful(r.m, Abs(v), Pow2(r.exp + 1464)) && (v < 0 <==> sign == 1)
    ensures RoundsTo(v, 1474, RoundPack(sign, r))
  {
    hide Pow2, Faithful, Mag, RoundTail, Denormalize, RoundsTo, PicksEven, WithSign, RoundPack;
    var d := Denormalize(r);
    DenormalizeFaithful(r, Abs(v));
    ScaleUnit(d.exp);
    RoundStep(Abs(v), 1474, d.exp, d.m, Pow2(d.exp + 1464));
    PickedRounds(v, 1474, d.exp * HIDDEN + d.m / 0x400, d.exp * HIDDEN + RoundTail(d.m));
    RoundPackBits(sign, r);
  }

  lemma RoundPackBits(sign: u64, r: Result)
    requires sign <= 1 && Significant(r.m) && r.exp <= 2045
    ensures var d := Denormalize(r);
            && 0 <= d.exp && d.exp * HIDDEN + RoundTail(d.m) <= INF
            && RoundPack(sign, r) == WithSign(sign == 1, d.exp * HIDDEN + RoundTail(d.m))
  {
    hide Pow2, RoundTail, Or64, Shl64, Shr64, Add64, WithSign;
    var d := Denormalize(r);
    DenormalizedRange(r);
    TailRange(d);
    OverflowTest(r);
    var m := RoundTail(d.m);
    AssembleInf(sign);
    AssembleBits(sign, if m != 0 then d.exp else 0, m);
  }

  lemma DenormalizedRange(r: Result)
    requires Significant(r.m)
    ensures var d := Denormalize(r);
            && 0 <= d.exp && (d.exp == 0 || Significant(d.m)) && d.m < SIGNBIT
            && (r.exp >= 0 ==> d == r) && (r.exp < 0 ==> d.exp == 0)
  {
    if r.exp < 0 {
      DenormalizeJams(r.m, -r.exp);
      JamShrinks(r.m, -r.exp);
    }
  }

  lemma TailRange(d: Result)
    requires d.m < SIGNBIT && 0 <= d.exp <= 2045 && (d.exp == 0 || Significant(d.m))
    ensures d.exp * HIDDEN + RoundTail(d.m) <= INF
    ensures d.exp > 0 ==> RoundTail(d.m) > 0
  {
    TailArithmetic(d.m);
  }

  lemma ScaleUnit(e: nat)
    ensures Pow2(e) * Pow2(1474) == 0x400 * Pow2(e + 1464)
  {
    hide Pow2;
    Pow2Add(e, 1474);
    Pow2Add(e + 1464, 10);
    Pow2Table();
  }

  lemma OverflowRounds(v: int, s: nat)
    requires Overflows(Abs(v), s)
    ensures RoundsTo(v, s, WithSign(v < 0, INF))
  {
    assert Abs(Abs(v)) == Abs(v);
  }

  lemma OverflowTest(r: Result)
    requires Significant(r.m) && r.exp <= 2045
    ensures r.exp == 2045 && Shr64(Add64(r.m, 0x200), 63) == 1 ==> r.exp * HIDDEN + RoundTail(r.m) == INF
  {
    hide RoundTail;
    AddNoWrap(r.m, 0x200);
    TopShifts(r.m + 0x200);
    TailArithmetic(r.m);
    hide Shr64, Add64;
    if r.m + 0x200 >= SIGNBIT { LastTail(r.m); }
  }

  lemma LastTail(m: nat)
    requires SIGNBIT - 0x200 <= m < SIGNBIT
    ensures m / 0x400 == 2 * HIDDEN - 1 && m % 0x400 >= 0x200
  {
  }

  lemma RoundPackZero(sign: u64, r: Result)
    requires sign <= 1 && r.m == 0 && r.exp <= 2045
    ensures RoundPack(sign, r) == WithSign(sign == 1, 0)
  {
    TailArithmetic(0);
    assert Shr64(Add64(0, 0x200), 63) == 0 by { Pow2Table(); }
    var d := Denormalize(r);
    if r.exp < 0 {
      DenormalizeJams(0, -r.exp);
      JamAt(0, Pow2(-r.exp), 0, 0);
    }
    assert d.m == 0;
    AssembleBits(sign, 0, 0);
  }

  // ----- the theorem -----

  /** Two terms of exact magnitudes vp >= vz, added with their signs and rounded once. */
  lemma SumRounds(p: Term, z: Term, vp: int, vz: int)
    requires Denotes(p, vp) && Denotes(z, vz) && p.sign <= 1 && z.sign <= 1
    requires p.exp >= z.exp && (p.exp == z.exp ==> p.Sig() >= z.Sig() && p.exp <= 2046)
    ensures RoundsTo((if p.sign == 1 then -vp else vp) + (if z.sign == 1 then -vz else vz), 1474,
                     RoundPack(p.sign, Combine(p, z)))
  {
    hide Pow2, Faithful, Denotes, RoundsTo, RoundPack, Combine, Significant;
    var v := (if p.sign == 1 then -vp else vp) + (if z.sign == 1 then -vz else vz);
    var r := Combine(p, z);
    CombineFaithful(p, z, vp, vz);
    if r.m == 0 {
      NotSignificant(r.m);
      RoundPackZero(p.sign, r);
      ZeroRounds(1474, RoundPack(p.sign, r));
    } else {
      SignificantPositive(r.m, Abs(v), Pow2(r.exp + 1464));
      RoundPackCorrect(p.sign, r, v);
    }
  }

  lemma NotSignificant(m: nat)
    requires m == 0
    ensures !Significant(m)
  {
  }

  lemma SignificantPositive(m: nat, v: int, d: nat)
    requires Significant(m) && Faithful(m, v, d) && d >= 1
    ensures v > 0
  {
    MulMono(d, 1, m - 1);
    NextTo(m, d);
  }

  lemma DenotesOrder(p: Term, a: Term, vp: int, va: int)
    requires Denotes(p, vp) && Denotes(a, va) && a.exp <= 2046
    ensures SmallerThan(p, a) ==> a.exp >= p.exp && (a.exp == p.exp ==> a.Sig() >= p.Sig() && a.exp <= 2046)
    ensures !SmallerThan(p, a) ==> p.exp >= a.exp && (p.exp == a.exp ==> p.Sig() >= a.Sig() && p.exp <= 2046)
  {
  }

  /** For all finite x, y, z, FMA is the correctly rounded value of the exact real
      number x*y + z: one rounding, to nearest with ties to even, through cancellation,
      subnormal results and overflow. */
  lemma FmaCorrect(x: u64, y: u64, z: u64)
    requires IsFinite(x) && IsFinite(y) && IsFinite(z)
    ensures FMA(x, y, z).Bits?
    ensures RoundsTo(Val(x) * Val(y) + Val(z) * Pow2(1074), 1074, FMA(x, y, z).b)
  {
    hide *;
    if IsZero(x) || IsZero(y) {
      ZeroFactor(x, y, z);
    } else if IsZero(z) {
      ZeroAddend(x, y, z);
    } else {
      NonzeroFma(x, y, z);
    }
  }

  lemma ZeroFactor(x: u64, y: u64, z: u64)
    requires IsFinite(x) && IsFinite(y) && IsFinite(z) && (IsZero(x) || IsZero(y))
    ensures FMA(x, y, z).Bits?
    ensures RoundsTo(Val(x) * Val(y) + Val(z) * Pow2(1074), 1074, FMA(x, y, z).b)
  {
    hide Mag, Pow2, RoundsTo;
    SignParts(x); SignParts(y);
    MagZero();
    var r := FMA(x, y, z).b;
    assert Val(x) * Val(y) == 0 && Val(z) * Pow2(1074) == 0 + Val(z) * Pow2(1074);
    ZeroProduct(x, y);
    RoundIsNearest(Val(z), 0);
    Pow2Table();
    ExactRounds(Val(z), 0, z, r);
    SameScale(Val(r), Val(z), Pow2(1074));
    ExactIsRounded(Val(x) * Val(y) + Val(z) * Pow2(1074), 1074, r);
  }

  lemma SameScale(a: int, b: int, p: nat)
    requires a == b
    ensures a * p == b * p
  {
  }

  lemma ZeroProduct(x: u64, y: u64)
    requires Val(x) * Val(y) == 0
    ensures Val(MulF(x, y)) == 0
  {
    hide Mag, RoundMag;
    RoundIsNearest(0, 1074);
    MagZero();
    ZeroExact();
    var a := RoundMag(0, 1074);
    WithSignParts(false, a);
    WithSignParts(Sign(x) != Sign(y), a);
  }

  lemma ZeroExact()
    ensures Val(Round(0, 1074)) == 0
  {
    hide Mag, Pow2, RoundsTo;
    RoundIsNearest(0, 1074);
    MagZero();
    assert Val(0) == 0 && 0 * Pow2(1074) == 0;
    ExactRounds(0, 1074, 0, Round(0, 1074));
  }

  lemma ZeroAddend(x: u64, y: u64, z: u64)
    requires IsFinite(x) && !IsZero(x) && IsFinite(y) && !IsZero(y) && IsZero(z)
    ensures FMA(x, y, z).Bits?
    ensures RoundsTo(Val(x) * Val(y) + Val(z) * Pow2(1074), 1074, FMA(x, y, z).b)
  {
    hide Mag, Pow2, RoundsTo, MulF, AddF;
    MagZero();
    SignParts(z);
    var p, r := MulF(x, y), FMA(x, y, z).b;
    assert Val(z) * Pow2(1074) == 0;
    MulRounds(x, y);
    ProductBits(x, y);
    AddZero(p, z);
    if IsFinite(p) { SameValueRounds(Val(x) * Val(y), 1074, p, r); }
  }

  lemma ProductBits(x: u64, y: u64)
    ensures AbsBits(MulF(x, y)) <= INF
  {
    hide Mag, RoundMag;
    WithSignParts(Sign(x) != Sign(y), RoundMag(Abs(Val(x) * Val(y)), 1074));
  }

  lemma NonzeroFma(x: u64, y: u64, z: u64)
    requires IsFinite(x) && !IsZero(x) && IsFinite(y) && !IsZero(y) && IsFinite(z) && !IsZero(z)
    ensures FMA(x, y, z).Bits?
    ensures RoundsTo(Val(x) * Val(y) + Val(z) * Pow2(1074), 1074, FMA(x, y, z).b)
  {
    hide Pow2, RoundsTo, RoundPack, Combine, Denotes, Product, Addend, Split, And64, Val;
    AllOnesExponent(x);
    AllOnesExponent(y);
    AllOnesExponent(z);
    ProductDenotes(x, y);
    AddendDenotes(z);
    AddendExp(z);
    var p, a := Product(Split(x), Split(y)), Addend(Split(z));
    var vp, va := Mag(AbsBits(x)) * Mag(AbsBits(y)) * Pow2(400), Mag(AbsBits(z)) * Pow2(1074) * Pow2(400);
    DenotesOrder(p, a, vp, va);
    SignParts(x); SignParts(y); SignParts(z);
    if SmallerThan(p, a) {
      SumRounds(a, p, va, vp);
    } else {
      SumRounds(p, a, vp, va);
    }
    SignedSum(x, y, z);
    RoundsUnscale(Val(x) * Val(y) + Val(z) * Pow2(1074), 1074, 400, FMA(x, y, z).b);
  }

  lemma AddendExp(z: u64)
    requires IsFinite(z) && !IsZero(z)
    ensures Addend(Split(z)).exp <= 2046
  {
    SplitValue(z);
  }

  lemma SignedSum(x: u64, y: u64, z: u64)
    ensures var vp, va := Mag(AbsBits(x)) * Mag(AbsBits(y)) * Pow2(400), Mag(AbsBits(z)) * Pow2(1074) * Pow2(400);
            (Val(x) * Val(y) + Val(z) * Pow2(1074)) * Pow2(400)
            == (if Sign(x) == Sign(y) then vp else -vp) + (if Sign(z) == 1 then -va else va)
  {
    hide Pow2, Mag;
    SignParts(x); SignParts(y); SignParts(z);
    SignedProduct(Mag(AbsBits(x)), Mag(AbsBits(y)), Sign(x) == 1, Sign(y) == 1);
    SignedScale(Mag(AbsBits(z)), Pow2(1074), Sign(z) == 1);
    hide Val;
    SumScale(Mag(AbsBits(x)) * Mag(AbsBits(y)), Mag(AbsBits(z)) * Pow2(1074), Val(x) * Val(y), Val(z) * Pow2(1074),
             Sign(x) != Sign(y), Sign(z) == 1, Pow2(400));
  }

  lemma SignedScale(a: nat, p: nat, neg: bool)
    ensures (if neg then 0 - a else a) * p == if neg then 0 - a * p else a * p
  {
  }

  lemma SumScale(xy: int, zz: int, vxy: int, vzz: int, nxy: bool, nzz: bool, p: nat)
    requires vxy == (if nxy then 0 - xy else xy) && vzz == (if nzz then 0 - zz else zz)
    ensures (vxy + vzz) * p == (if nxy then -(xy * p) else xy * p) + (if nzz then -(zz * p) else zz * p)
  {
    Distribute(vxy, vzz, p);
    NegScale(xy, p);
    NegScale(zz, p);
  }

  lemma Distribute(a: int, b: int, p: nat)
    ensures (a + b) * p == a * p + b * p
  {
  }

  lemma SignedProduct(a: nat, b: nat, na: bool, nb: bool)
    ensures (if na then 0 - a else a) * (if nb then 0 - b else b) == if na == nb then a * b else 0 - a * b
  {
  }
}
