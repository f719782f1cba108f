/** Machine words as natural numbers: powers of two, the bitwise operators and
    Go's shifts on uint64, with the laws the floating-point files rely on. */
module Words {

  function Pow2(n: nat): (p: nat)
    ensures p >= 1
  {
    if n == 0 then 1 else 2 * Pow2(n - 1)
  }

  const TWO64: nat := 0x1_0000_0000_0000_0000
  const MAX64: nat := 0xFFFF_FFFF_FFFF_FFFF

  type u64 = x: int | 0 <= x < 0x1_0000_0000_0000_0000

  // ----- bitwise operators, one bit at a time -----

  function BitAnd(x: nat, y: nat): nat {
    if x == 0 || y == 0 then 0
    else 2 * BitAnd(x / 2, y / 2) + (if x % 2 == 1 && y % 2 == 1 then 1 else 0)
  }

  function BitOr(x: nat, y: nat): nat
    decreases x + y
  {
    if x == 0 then y
    else if y == 0 then x
    else 2 * BitOr(x / 2, y / 2) + (if x % 2 == 1 || y % 2 == 1 then 1 else 0)
  }

  function BitXor(x: nat, y: nat): nat
    decreases x + y
  {
    if x == 0 then y
    else if y == 0 then x
    else 2 * BitXor(x / 2, y / 2) + (if x % 2 != y % 2 then 1 else 0)
  }

  /** Go's unary ^ on uint64. */
  function Not64(x: u64): u64 { MAX64 - x }

  // ----- shifts and wrapping arithmetic on uint64 -----

  /** x << n: a count of 64 or more shifts everything out. */
  function Shl64(x: u64, n: nat): u64 {
    if n >= 64 then 0 else (x * Pow2(n)) % 0x1_0000_0000_0000_0000
  }

  /** x >> n on an unsigned word. */
  function Shr64(x: u64, n: nat): (r: u64)
  {
    if n >= 64 then 0 else Shrunk(x, n)
  }

  function Shrunk(x: u64, n: nat): (r: u64) {
    DivBound(x, Pow2(n));
    x / Pow2(n)
  }

  function Add64(x: u64, y: u64): u64 { (x + y) % 0x1_0000_0000_0000_0000 }
  function Sub64(x: u64, y: u64): u64 { (x - y) % 0x1_0000_0000_0000_0000 }
  function Mul64(x: u64, y: u64): u64 { (x * y) % 0x1_0000_0000_0000_0000 }

  // ----- arithmetic lemmas -----

  lemma DivBound(x: nat, d: nat)
    requires d >= 1
    ensures 0 <= x / d <= x
  {
    var q := x / d;
    assert x == d * q + x % d;
    if q >= 0 { MulMono(q, 1, d); }
  }

  lemma MulNat(a: nat, b: nat)
    ensures a * b >= 0
  {
  }

  lemma MulMono(a: nat, x: int, y: int)
    requires x <= y
    ensures a * x <= a * y
  {
  }

  /** A multiple of d strictly between -d and d is zero. */
  lemma MulGap(k: int, d: int, m: int)
    requires d > 0 && k * d == m && -d < m < d
    ensures k == 0
  {
  }

  lemma DivModUnique(a: int, d: nat, q: int, r: int)
    requires d > 0 && 0 <= r < d && a == q * d + r
    ensures a / d == q && a % d == r
  {
    var q', r' := a / d, a % d;
    assert a == q' * d + r';
    MulGap(q - q', d, r' - r);
  }

  lemma DivModParts(x: nat, d: nat)
    requires d >= 1
    ensures x == (x / d) * d + x % d && 0 <= x % d < d && x / d >= 0
  {
  }

  lemma {:induction false} Pow2Add(a: nat, b: nat)
    ensures Pow2(a + b) == Pow2(a) * Pow2(b)
  {
    if b > 0 {
      Pow2Add(a, b - 1);
      assert Pow2(a + b) == 2 * Pow2(a + (b - 1));
    }
  }

  lemma {:induction false} Pow2Mono(a: nat, b: nat)
    requires a <= b
    ensures Pow2(a) <= Pow2(b)
    ensures a < b ==> 2 * Pow2(a) <= Pow2(b)
  {
    if a < b { Pow2Mono(a, b - 1); }
  }

  /** The powers of two that appear as word masks in the sources. */
  lemma Pow2Table()
    ensures Pow2(0) == 1 && Pow2(1) == 2 && Pow2(3) == 8
    ensures Pow2(9) == 0x200 && Pow2(10) == 0x400 && Pow2(11) == 0x800
    ensures Pow2(52) == 0x10_0000_0000_0000
    ensures Pow2(53) == 0x20_0000_0000_0000
    ensures Pow2(54) == 0x40_0000_0000_0000
    ensures Pow2(61) == 0x2000_0000_0000_0000
    ensures Pow2(62) == 0x4000_0000_0000_0000
    ensures Pow2(63) == 0x8000_0000_0000_0000
    ensures Pow2(64) == 0x1_0000_0000_0000_0000
  {
    assert Pow2(4) == 16;
    assert Pow2(8) == 256;
    Pow2Add(8, 1); Pow2Add(8, 2); Pow2Add(8, 3);
    Pow2Add(8, 8); Pow2Add(16, 16); Pow2Add(32, 16); Pow2Add(48, 4);
    Pow2Add(52, 1); Pow2Add(52, 2);
    Pow2Add(52, 8); Pow2Add(60, 1); Pow2Add(60, 2); Pow2Add(60, 3); Pow2Add(60, 4);
  }

  // ----- bit-operator lemmas -----

  /** The parts of a number split at bit k. */
  lemma SplitStep(a: nat, b: nat, k: nat)
    requires k > 0 && b < Pow2(k)
    ensures (a * Pow2(k) + b) / 2 == a * Pow2(k - 1) + b / 2
    ensures (a * Pow2(k) + b) % 2 == b % 2
    ensures b / 2 < Pow2(k - 1)
  {
    var p := a * Pow2(k - 1);
    assert a * Pow2(k) == 2 * p by { assert Pow2(k) == 2 * Pow2(k - 1); }
    DivModUnique(a * Pow2(k) + b, 2, p + b / 2, b % 2);
  }

  lemma DoubleProduct(p: nat, k: nat)
    requires k > 0
    ensures p * Pow2(k) == 2 * (p * Pow2(k - 1))
  {
    assert Pow2(k) == 2 * Pow2(k - 1);
  }

  /** One bit of AndSplit, with the products named by their values. */
  lemma AndStep(x: nat, x': nat, b: nat, y: nat, y': nat, d: nat, h: nat)
    requires x / 2 == x' && x % 2 == b % 2 && y / 2 == y' && y % 2 == d % 2
    requires BitAnd(x', y') == h + BitAnd(b / 2, d / 2)
    ensures BitAnd(x, y) == 2 * h + BitAnd(b, d)
    ensures BitAnd(b, d) / 2 == BitAnd(b / 2, d / 2)
  {
    AndUnfold(x, y);
    AndUnfold(b, d);
  }

  lemma AndZeros()
    ensures BitAnd(0, 0) == 0
  {
  }

  lemma {:induction false} AndSplit(a: nat, b: nat, c: nat, d: nat, k: nat)
    requires b < Pow2(k) && d < Pow2(k)
    ensures BitAnd(a * Pow2(k) + b, c * Pow2(k) + d) == BitAnd(a, c) * Pow2(k) + BitAnd(b, d)
    ensures BitAnd(b, d) < Pow2(k)
  {
    hide BitAnd;
    if k == 0 {
      AndZeros();
    } else {
      SplitStep(a, b, k);
      SplitStep(c, d, k);
      AndSplit(a, b / 2, c, d / 2, k - 1);
      hide Pow2;
      MulNat(a, Pow2(k)); MulNat(a, Pow2(k - 1));
      MulNat(c, Pow2(k)); MulNat(c, Pow2(k - 1));
      MulNat(BitAnd(a, c), Pow2(k - 1));
      AndStep(a * Pow2(k) + b, a * Pow2(k - 1) + b / 2, b, c * Pow2(k) + d, c * Pow2(k - 1) + d / 2, d,
              BitAnd(a, c) * Pow2(k - 1));
      DoubleProduct(BitAnd(a, c), k);
    }
  }

  lemma AndUnfold(x: nat, y: nat)
    ensures BitAnd(x, y) == 2 * BitAnd(x / 2, y / 2) + (if x % 2 == 1 && y % 2 == 1 then 1 else 0)
  {
  }

  lemma {:induction false} OrUnfold(x: nat, y: nat)
    ensures BitOr(x, y) == 2 * BitOr(x / 2, y / 2) + (if x % 2 == 1 || y % 2 == 1 then 1 else 0)
  {
  }

  lemma {:induction false} XorUnfold(x: nat, y: nat)
    ensures BitXor(x, y) == 2 * BitXor(x / 2, y / 2) + (if x % 2 != y % 2 then 1 else 0)
  {
  }

  /** One bit of OrSplit, with the products named by their values. */
  lemma OrStep(x: nat, x': nat, b: nat, y: nat, y': nat, d: nat, h: nat)
    requires x / 2 == x' && x % 2 == b % 2 && y / 2 == y' && y % 2 == d % 2
    requires BitOr(x', y') == h + BitOr(b / 2, d / 2)
    ensures BitOr(x, y) == 2 * h + BitOr(b, d)
    ensures BitOr(b, d) / 2 == BitOr(b / 2, d / 2)
  {
    OrUnfold(x, y);
    OrUnfold(b, d);
  }

  lemma OrZeros()
    ensures BitOr(0, 0) == 0
  {
  }

  lemma {:induction false} OrSplit(a: nat, b: nat, c: nat, d: nat, k: nat)
    requires b < Pow2(k) && d < Pow2(k)
    ensures BitOr(a * Pow2(k) + b, c * Pow2(k) + d) == BitOr(a, c) * Pow2(k) + BitOr(b, d)
    ensures BitOr(b, d) < Pow2(k)
  {
    hide BitOr;
    if k == 0 {
      OrZeros();
    } else {
      SplitStep(a, b, k);
      SplitStep(c, d, k);
      OrSplit(a, b / 2, c, d / 2, k - 1);
      hide Pow2;
      MulNat(a, Pow2(k)); MulNat(a, Pow2(k - 1));
      MulNat(c, Pow2(k)); MulNat(c, Pow2(k - 1));
      MulNat(BitOr(a, c), Pow2(k - 1));
      OrStep(a * Pow2(k) + b, a * Pow2(k - 1) + b / 2, b, c * Pow2(k) + d, c * Pow2(k - 1) + d / 2, d,
              BitOr(a, c) * Pow2(k - 1));
      DoubleProduct(BitOr(a, c), k);
    }
  }

  /** One bit of XorSplit, with the products named by their values. */
  lemma XorStep(x: nat, x': nat, b: nat, y: nat, y': nat, d: nat, h: nat)
    requires x / 2 == x' && x % 2 == b % 2 && y / 2 == y' && y % 2 == d % 2
    requires BitXor(x', y') == h + BitXor(b / 2, d / 2)
    ensures BitXor(x, y) == 2 * h + BitXor(b, d)
    ensures BitXor(b, d) / 2 == BitXor(b / 2, d / 2)
  {
    XorUnfold(x, y);
    XorUnfold(b, d);
  }

  lemma XorZeros()
    ensures BitXor(0, 0) == 0
  {
  }

  lemma {:induction false} XorSplit(a: nat, b: nat, c: nat, d: nat, k: nat)
    requires b < Pow2(k) && d < Pow2(k)
    ensures BitXor(a * Pow2(k) + b, c * Pow2(k) + d) == BitXor(a, c) * Pow2(k) + BitXor(b, d)
    ensures BitXor(b, d) < Pow2(k)
  {
    hide BitXor;
    if k == 0 {
      XorZeros();
    } else {
      SplitStep(a, b, k);
      SplitStep(c, d, k);
      XorSplit(a, b / 2, c, d / 2, k - 1);
      hide Pow2;
      MulNat(a, Pow2(k)); MulNat(a, Pow2(k - 1));
      MulNat(c, Pow2(k)); MulNat(c, Pow2(k - 1));
      MulNat(BitXor(a, c), Pow2(k - 1));
      XorStep(a * Pow2(k) + b, a * Pow2(k - 1) + b / 2, b, c * Pow2(k) + d, c * Pow2(k - 1) + d / 2, d,
              BitXor(a, c) * Pow2(k - 1));
      DoubleProduct(BitXor(a, c), k);
    }
  }

  lemma {:induction false} AndOnes(x: nat, k: nat)
    requires x < Pow2(k)
    ensures BitAnd(x, Pow2(k) - 1) == x
  {
    if k > 0 && x > 0 {
      AndOnes(x / 2, k - 1);
      assert (Pow2(k) - 1) / 2 == Pow2(k - 1) - 1 && (Pow2(k) - 1) % 2 == 1;
      AndUnfold(x, Pow2(k) - 1);
    }
  }

  /** Masking with 2^k - 1 keeps the remainder modulo 2^k. */
  lemma AndMask(x: nat, k: nat)
    ensures BitAnd(x, Pow2(k) - 1) == x % Pow2(k)
  {
    hide Pow2;
    var p := Pow2(k);
    DivModParts(x, p);
    var a, b := x / p, x % p;
    AndSplit(a, b, 0, p - 1, k);
    assert BitAnd(a, 0) == 0;
    hide BitAnd;
    assert 0 * p + (p - 1) == p - 1;
    AndOnes(b, k);
  }

  /** Or of numbers with no bit in common is their sum. */
  lemma OrDisjoint(a: nat, b: nat, k: nat)
    requires b < Pow2(k)
    ensures BitOr(a * Pow2(k), b) == a * Pow2(k) + b
    ensures BitOr(b, a * Pow2(k)) == a * Pow2(k) + b
  {
    OrSplit(a, 0, 0, b, k);
    OrSplit(0, b, a, 0, k);
    assert a * Pow2(k) + 0 == a * Pow2(k);
    assert 0 * Pow2(k) + b == b;
  }

  /** Setting the lowest bit. */
  lemma OrOne(x: nat)
    ensures BitOr(x, 1) == if x % 2 == 1 then x else x + 1
  {
    OrUnfold(x, 1);
  }

  lemma {:induction false} OrSame(x: nat)
    ensures BitOr(x, x) == x
  {
    if x > 0 { OrSame(x / 2); }
  }

  lemma AndOne(x: nat)
    ensures BitAnd(x, 1) == x % 2
  {
    AndUnfold(x, 1);
  }

  // ----- the operators on words -----

  function Or64(x: u64, y: u64): u64 {
    OrBound(x, y);
    BitOr(x, y)
  }

  function And64(x: u64, y: u64): u64 {
    AndBound(x, y);
    BitAnd(x, y)
  }

  function Xor64(x: u64, y: u64): u64 {
    XorBound(x, y);
    BitXor(x, y)
  }

  lemma AndBound(x: u64, y: u64)
    ensures BitAnd(x, y) < TWO64
  {
    Pow2Table();
    AndSplit(0, x, 0, y, 64);
  }

  lemma OrBound(x: u64, y: u64)
    ensures BitOr(x, y) < TWO64
  {
    Pow2Table();
    OrSplit(0, x, 0, y, 64);
  }

  lemma XorBound(x: u64, y: u64)
    ensures BitXor(x, y) < TWO64
  {
    Pow2Table();
    XorSplit(0, x, 0, y, 64);
  }

  lemma Regroup(m: nat, p: nat, q: nat)
    ensures (m * p) * q == m * (p * q)
  {
  }

  lemma SmallMod(x: nat, m: nat)
    requires x < m
    ensures x % m == x
  {
  }

  /** Go's x &^ y. */
  function AndNot64(x: u64, y: u64): u64 { And64(x, Not64(y)) }

  lemma SplitProduct(x: nat, hi: nat, lo: nat, p: nat, q: nat)
    requires x == hi * p + lo
    ensures x * q == hi * (p * q) + lo * q
  {
  }

  lemma LowProduct(lo: nat, p: nat, q: nat)
    requires lo < p && q >= 1
    ensures 0 <= lo * q < p * q
  {
  }

  /** A word shifted left by c keeps its low 64 - c bits. */
  lemma Shl64Split(x: u64, c: nat)
    requires c <= 64
    ensures Shl64(x, c) == (x % Pow2(64 - c)) * Pow2(c)
    ensures x % Pow2(64 - c) < Pow2(64 - c)
  {
    Pow2Table();
    Pow2Add(64 - c, c);
    var p, q := Pow2(64 - c), Pow2(c);
    var hi, lo := x / p, x % p;
    DivModParts(x, p);
    if c < 64 {
      SplitProduct(x, hi, lo, p, q);
      LowProduct(lo, p, q);
      DivModUnique(x * q, TWO64, hi, lo * q);
    } else {
      assert p == 1 && lo == 0;
    }
  }

  lemma PowersTo64(n: nat)
    requires n <= 64
    ensures Pow2(n) * Pow2(64 - n) == TWO64
  {
    Pow2Table();
    Pow2Add(n, 64 - n);
  }

  lemma QuotientBound(u: nat, c: nat, d: nat, p: nat, q: nat)
    requires u == c * p + d && u < p * q && p >= 1
    ensures c < q
  {
    if c >= q { MulMono(p, q, c); }
  }

  lemma WideBound(x: u64, y: u64)
    ensures 0 <= (x * y) / TWO64 < TWO64 && x * y >= 0
  {
    MulMono(x, y, TWO64 - 1);
    MulMono(TWO64 - 1, x, TWO64 - 1);
    assert x * y <= (TWO64 - 1) * (TWO64 - 1);
  }

  /** bits.Mul64. */
  function MulWide(x: u64, y: u64): (u64, u64) {
    WideBound(x, y);
    ((x * y) / TWO64, (x * y) % TWO64)
  }
}
