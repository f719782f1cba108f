/** Payne-Hanek reduction by Pi/4: the 192-bit window of 4/Pi and its product with
    the significand of x. */
module TrigReduce {
  import opened Words
  import opened Float64

  const PI4: nat := 0x3FE9_21FB_5444_2D18   // Pi/4 as a double

  /** The binary digits of 4/Pi: the value is the sum of MPI4[i] * 2^(-64*i). */
  const MPI4: seq<u64> := [
    0x0000000000000001,
    0x45f306dc9c882a53,
    0xf84eafa3ea69bb81,
    0xb6c52b3278872083,
    0xfca2c757bd778ac3,
    0x6e48dc74849ba5c0,
    0x0c925dd413a32439,
    0xfc3bd63962534e7d,
    0xd1046bea5d768909,
    0xd338e04d68befc82,
    0x7323ac7306a673e9,
    0x3908bf177bf25076,
    0x3ff12fffbc0b301f,
    0xde5e2316b414da3e,
    0xda6cfd9e4f96136e,
    0x9e8c7ecd3cbfd45a,
    0xea4f758fd7cbe2f6,
    0x7a0e73ef14a525d4,
    0xd7f6bf623f1aba10,
    0xac06608df8f6d757
  ]

  // ----- the computation -----

  function Significand(x: u64): u64 {
    Or64(AndNot64(x, INF), Shl64(1, 52))
  }

  /** exp such that x == Significand(x) * 2^exp. */
  function BinaryExponent(x: u64): int {
    And64(Shr64(x, 52), MASK) - BIAS - 52
  }

  /** One 64-bit digit of the window: u shifted left by n, filled from v. */
  function Digit(u: u64, v: u64, n: nat): u64
    requires n < 64
  {
    Or64(Shl64(u, n), Shr64(v, 64 - n))
  }

  /** The top two words of the product of a 192-bit number and ix, modulo 2^128. */
  function ProductTop(z0: u64, z1: u64, z2: u64, ix: u64): (u64, u64) {
    var z2hi := MulWide(z2, ix).0;
    var z1hi, z1lo := MulWide(z1, ix).0, MulWide(z1, ix).1;
    var z0lo := Mul64(z0, ix);
    var lo, c := Add64(z1lo, z2hi), (z1lo + z2hi) / TWO64;
    (Add64(Add64(z0lo, z1hi), c), lo)
  }

  /** The integer part j modulo 8, and the leading words hi:lo it is taken from. */
  datatype Reduced = Reduced(j: u64, hi: u64, lo: u64)

  function Reduce(x: u64, table: seq<u64>): Reduced
    requires |table| == 20
    requires IsFinite(x) && !LessF(x, PI4)
  {
    WindowInTable(x);
    var ix, exp := Significand(x), BinaryExponent(x);
    var digit, bitshift := (exp + 61) / 64, (exp + 61) % 64;
    var z0 := Digit(table[digit], table[digit + 1], bitshift);
    var z1 := Digit(table[digit + 1], table[digit + 2], bitshift);
    var z2 := Digit(table[digit + 2], table[digit + 3], bitshift);
    var p := ProductTop(z0, z1, z2, ix);
    Reduced(Shr64(p.0, 61), p.0, p.1)
  }

  /** The two fields denote x: its value is Significand(x) * 2^BinaryExponent(x). */
  lemma SignificandValue(x: u64)
    requires IsFinite(x) && !LessF(x, PI4)
    ensures BinaryExponent(x) + 1074 >= 0 && Val(x) == Significand(x) * Pow2(BinaryExponent(x) + 1074)
  {
    WindowInTable(x);
    ExponentField(x);
    ClearExponent(x);
    SetHidden(Fraction(x));
    AbsParts(x);
    hide BitAnd, BitOr, Shr64, Shl64, Mag, Pow2, LessF;
    MagAt(Exponent(x) - 1, HIDDEN + Fraction(x));
    assert AbsBits(x) == (Exponent(x) - 1) * HIDDEN + (HIDDEN + Fraction(x));
  }

  /** For x >= Pi/4 every table access is in range. */
  lemma WindowInTable(x: u64)
    requires IsFinite(x) && !LessF(x, PI4)
    ensures -53 <= BinaryExponent(x) <= 971
    ensures HIDDEN <= Significand(x) < 2 * HIDDEN
    ensures Sign(x) == 0 && Exponent(x) >= 1
    ensures 0 <= (BinaryExponent(x) + 61) / 64 <= 16
  {
    hide BitAnd, BitOr, Shr64, Shl64, Mag, Pow2;
    BigEnough(x);
    ExponentField(x);
    ClearExponent(x);
    SetExponent(0, 1, Fraction(x));
  }

  lemma BigEnough(x: u64)
    requires IsFinite(x) && !LessF(x, PI4)
    ensures Sign(x) == 0 && 1022 <= Exponent(x) <= 2046
  {
    hide Mag;
    SignParts(x);
    assert Val(PI4) == Mag(PI4);
    MagMono(0, PI4);
    MagZero();
    MagMono(0, AbsBits(x));
    if AbsBits(x) < PI4 { MagMono(AbsBits(x), PI4); }
    AbsParts(x);
  }

  // ----- specification -----

  /** The table as one number: table[0] is its integer part, 64 bits per entry. */
  function TableValue(t: seq<u64>): nat {
    if |t| == 0 then 0 else TableValue(t[..|t| - 1]) * TWO64 + t[|t| - 1]
  }

  /** hi:lo, read in units of 2^-125, against the exact product of x and the tabulated
      4/Pi. The exact product is Significand(x) * TableValue * 2^(exp - 1216); it exceeds
      some multiple of 8 plus hi:lo by less than 2 units. */
  ghost predicate WithinTwoUnits(product: nat, r: Reduced, n: nat) {
    exists k: nat :: AboveBy(product, k, r, n)
  }

  ghost function Scale(x: u64): (n: nat)
    requires IsFinite(x) && !LessF(x, PI4)
    ensures n == 1091 - BinaryExponent(x)
  {
    WindowInTable(x);
    1091 - BinaryExponent(x)
  }

  ghost predicate AboveBy(product: nat, k: nat, r: Reduced, n: nat) {
    var approx := (k * (TWO64 * TWO64) + (r.hi * TWO64 + r.lo)) * Pow2(n);
    approx <= product < approx + 2 * Pow2(n)
  }

  // ----- proof -----

  /** A digit of the window in terms of the two table words it is cut from. */
  lemma DigitValue(u: u64, v: u64, n: nat)
    requires n < 64
    ensures Digit(u, v, n) == (u % Pow2(64 - n)) * Pow2(n) + v / Pow2(64 - n)
  {
    hide BitOr, Pow2, Shl64;
    Shl64Split(u, n);
    PowersTo64(n);
    DivModParts(v, Pow2(64 - n));
    QuotientBound(v, v / Pow2(64 - n), v % Pow2(64 - n), Pow2(64 - n), Pow2(n));
    OrDisjoint(u % Pow2(64 - n), v / Pow2(64 - n), n);
    if n == 0 { TopShift(v); }
  }

  lemma TopShift(v: u64)
    ensures v / Pow2(64) == 0
  {
    Pow2Table();
  }

  /** Four table words, cut into a 192-bit window. */
  lemma WindowValue(t0: u64, t1: u64, t2: u64, t3: u64, n: nat)
    requires n < 64
    ensures var q := Pow2(64 - n);
            var w := (Digit(t0, t1, n) * TWO64 + Digit(t1, t2, n)) * TWO64 + Digit(t2, t3, n);
            && ((t0 * TWO64 + t1) * TWO64 + t2) * TWO64 + t3
               == ((t0 / q) * (TWO64 * TWO64 * TWO64) + w) * q + t3 % q
            && t3 % q < q
  {
    hide Digit, Pow2;
    var p, q := Pow2(n), Pow2(64 - n);
    PowersTo64(n);
    DigitValue(t0, t1, n);
    DigitValue(t1, t2, n);
    DigitValue(t2, t3, n);
    DivModParts(t0, q); DivModParts(t1, q); DivModParts(t2, q); DivModParts(t3, q);
    WindowProducts(t0 / q, t0 % q, t1 / q, t1 % q, t2 / q, t2 % q, t3 / q, t3 % q, p, q);
  }

  lemma WindowProducts(a0: nat, c0: nat, a1: nat, c1: nat, a2: nat, c2: nat, a3: nat, c3: nat, p: nat, q: nat)
    requires p * q == TWO64
    ensures (((a0 * q + c0) * TWO64 + (a1 * q + c1)) * TWO64 + (a2 * q + c2)) * TWO64 + (a3 * q + c3)
         == (a0 * (TWO64 * TWO64 * TWO64) + (((c0 * p + a1) * TWO64 + (c1 * p + a2)) * TWO64 + (c2 * p + a3))) * q + c3
  {
    DigitShift(c0, p, a1, q);
    DigitShift(c1, p, a2, q);
    DigitShift(c2, p, a3, q);
    var d0, d1, d2 := c0 * p + a1, c1 * p + a2, c2 * p + a3;
    SpreadWords(a0, d0, d1, d2, q);
  }

  lemma DigitShift(c: nat, p: nat, a: nat, q: nat)
    requires p * q == TWO64
    ensures (c * p + a) * q == c * TWO64 + a * q
  {
    assert (c * p) * q == c * (p * q);
  }

  lemma SpreadWords(a: nat, d0: nat, d1: nat, d2: nat, q: nat)
    ensures (a * (TWO64 * TWO64 * TWO64) + ((d0 * TWO64 + d1) * TWO64 + d2)) * q
         == (a * q) * (TWO64 * TWO64 * TWO64) + ((d0 * q) * TWO64 + d1 * q) * TWO64 + d2 * q
  {
  }

  /** The low word of the 256-bit product is dropped; the top words wrap modulo 2^128. */
  lemma ProductTopValue(z0: u64, z1: u64, z2: u64, ix: u64) returns (k: nat, r: nat)
    ensures var t := ProductTop(z0, z1, z2, ix);
            ((z0 * TWO64 + z1) * TWO64 + z2) * ix == (k * (TWO64 * TWO64) + (t.0 * TWO64 + t.1)) * TWO64 + r
    ensures r < TWO64
  {
    WordProduct(z0, ix);
    WordProduct(z1, ix);
    WordProduct(z2, ix);
    hide MulWide;
    var h0, l0 := MulWide(z0, ix).0, MulWide(z0, ix).1;
    var h1, l1 := MulWide(z1, ix).0, MulWide(z1, ix).1;
    var h2, l2 := MulWide(z2, ix).0, MulWide(z2, ix).1;
    var c := (l1 + h2) / TWO64;
    k, r := h0 + (l0 + h1 + c) / TWO64, l2;
    assert Mul64(z0, ix) == l0;
    CarryWords(l0, h1, l1, h2, h0);
    var t := ProductTop(z0, z1, z2, ix);
    hide ProductTop;
    SpreadProduct(z0, z1, z2, ix, h0 * TWO64 + l0, h1 * TWO64 + l1, h2 * TWO64 + l2);
  }

  lemma WordProduct(z: u64, ix: u64)
    ensures z * ix == MulWide(z, ix).0 * TWO64 + MulWide(z, ix).1
    ensures Mul64(z, ix) == MulWide(z, ix).1
  {
  }

  lemma CarryWords(l0: u64, h1: u64, l1: u64, h2: u64, h0: u64)
    ensures var c: u64 := (l1 + h2) / TWO64;
            var k := h0 + (l0 + h1 + c) / TWO64;
            k * (TWO64 * TWO64) + (Add64(Add64(l0, h1), c) * TWO64 + Add64(l1, h2))
            == h0 * (TWO64 * TWO64) + (l0 + h1) * TWO64 + (l1 + h2)
  {
    var c: u64 := (l1 + h2) / TWO64;
    assert Add64(Add64(l0, h1), c) == (l0 + h1 + c) % TWO64;
  }

  lemma SpreadProduct(z0: nat, z1: nat, z2: nat, ix: nat, p0: nat, p1: nat, p2: nat)
    requires z0 * ix == p0 && z1 * ix == p1 && z2 * ix == p2
    ensures ((z0 * TWO64 + z1) * TWO64 + z2) * ix == (p0 * TWO64 + p1) * TWO64 + p2
  {
    assert ((z0 * TWO64 + z1) * TWO64 + z2) * ix == ((z0 * ix) * TWO64 + z1 * ix) * TWO64 + z2 * ix;
  }

  lemma TablePrefix(t: seq<u64>, i: nat)
    requires i < |t|
    ensures TableValue(t[..i + 1]) == TableValue(t[..i]) * TWO64 + t[i]
  {
    assert t[..i + 1][..i] == t[..i];
  }

  /** The words from i on contribute less than one unit of word i - 1. */
  lemma {:induction false} TableTail(t: seq<u64>, i: nat) returns (low: nat)
    requires i <= |t|
    ensures TableValue(t) == TableValue(t[..i]) * Pow2(64 * (|t| - i)) + low
    ensures low < Pow2(64 * (|t| - i))
    decreases |t| - i
  {
    hide Pow2, TableValue;
    if i == |t| {
      low := 0;
      assert t[..i] == t;
      Pow2Table();
    } else {
      var rest := TableTail(t, i + 1);
      TablePrefix(t, i);
      var p := Pow2(64 * (|t| - i - 1));
      WordShift(|t| - i - 1);
      ScaleNat(t[i], p);
      low := t[i] * p + rest;
      TailProducts(TableValue(t[..i]), t[i], p, rest);
    }
  }

  lemma WordShift(n: nat)
    ensures Pow2(64 * (n + 1)) == TWO64 * Pow2(64 * n)
  {
    Pow2Table();
    Pow2Add(64, 64 * n);
  }

  lemma TailProducts(v: nat, w: u64, p: nat, rest: nat)
    requires rest < p
    ensures (v * TWO64 + w) * p + rest == v * (TWO64 * p) + (w * p + rest)
    ensures 0 <= w * p + rest < TWO64 * p
  {
    MulMono(p, w + 1, TWO64);
    ScaleNat(w, p);
    assert (w + 1) * p == w * p + p;
  }

  function Window(t: seq<u64>, d: nat, b: nat): nat
    requires d + 3 < |t| && b < 64
  {
    (Digit(t[d], t[d + 1], b) * TWO64 + Digit(t[d + 1], t[d + 2], b)) * TWO64 + Digit(t[d + 2], t[d + 3], b)
  }

  /** The table up to and including the words of the window at word d, bit offset b. */
  lemma PrefixAroundWindow(t: seq<u64>, d: nat, b: nat) returns (k: nat, c: nat)
    requires d + 3 < |t| && b < 64
    ensures TableValue(t[..d + 4]) == (k * (TWO64 * TWO64 * TWO64) + Window(t, d, b)) * Pow2(64 - b) + c
    ensures c < Pow2(64 - b)
  {
    hide Pow2, Digit, TableValue;
    var q := Pow2(64 - b);
    TablePrefix(t, d); TablePrefix(t, d + 1); TablePrefix(t, d + 2); TablePrefix(t, d + 3);
    WindowValue(t[d], t[d + 1], t[d + 2], t[d + 3], b);
    PowersTo64(b);
    var v := TableValue(t[..d]);
    ScaleNat(v, Pow2(b));
    DivModParts(t[d], q);
    k, c := v * Pow2(b) + t[d] / q, t[d + 3] % q;
    var words := ((t[d] * TWO64 + t[d + 1]) * TWO64 + t[d + 2]) * TWO64 + t[d + 3];
    assert TableValue(t[..d + 4]) == v * (TWO64 * TWO64 * TWO64 * TWO64) + words;
    AboveWindow(v, Pow2(b), q, t[d] / q, Window(t, d, b), c, words);
  }

  /** The whole table around the window. */
  lemma TableAroundWindow(t: seq<u64>, d: nat, b: nat) returns (k: nat, rest: nat)
    requires |t| == 20 && d <= 16 && b < 64
    ensures TableValue(t) == (k * (TWO64 * TWO64 * TWO64) + Window(t, d, b)) * Pow2(64 * (17 - d) - b) + rest
    ensures rest < Pow2(64 * (17 - d) - b)
  {
    hide Pow2, Window, TableValue;
    var q, l := Pow2(64 - b), Pow2(64 * (16 - d));
    var low := TableTail(t, d + 4);
    var c;
    k, c := PrefixAroundWindow(t, d, b);
    Pow2Add(64 - b, 64 * (16 - d));
    var kw := k * (TWO64 * TWO64 * TWO64) + Window(t, d, b);
    ScaleNat(c, l);
    rest := c * l + low;
    BelowWindow(kw, q, l, c, low);
  }

  lemma AboveWindow(v: nat, p: nat, q: nat, a: nat, w: nat, c: nat, words: nat)
    requires p * q == TWO64 && words == (a * (TWO64 * TWO64 * TWO64) + w) * q + c
    ensures v * (TWO64 * TWO64 * TWO64 * TWO64) + words == ((v * p + a) * (TWO64 * TWO64 * TWO64) + w) * q + c
  {
    AboveShift(v, p, q, a, w, TWO64 * TWO64 * TWO64);
  }

  lemma AboveShift(v: nat, p: nat, q: nat, a: nat, w: nat, c: nat)
    requires p * q == TWO64
    ensures ((v * p + a) * c + w) * q == v * c * TWO64 + (a * c + w) * q
  {
    calc {
      ((v * p + a) * c + w) * q;
      { assert (v * p + a) * c == (v * p) * c + a * c; }
      ((v * p) * c + (a * c + w)) * q;
      ((v * p) * c) * q + (a * c + w) * q;
      { assert ((v * p) * c) * q == (v * c) * (p * q); }
      (v * c) * TWO64 + (a * c + w) * q;
    }
  }

  lemma BelowWindow(kw: nat, q: nat, l: nat, c: nat, low: nat)
    requires c < q && low < l
    ensures (kw * q + c) * l + low == kw * (q * l) + (c * l + low)
    ensures 0 <= c * l + low < q * l
  {
    assert (kw * q) * l == kw * (q * l);
    MulMono(l, c + 1, q);
    ScaleNat(c, l);
    assert (c + 1) * l == c * l + l;
  }

  lemma CombineWindow(ix: nat, ixk: nat, k2: nat, wix: nat, hl: nat, r: nat, m: nat, rest: nat)
    requires wix == (k2 * (TWO64 * TWO64) + hl) * TWO64 + r && r < TWO64 && rest < m && ix < TWO64
    ensures var approx := ((ixk + k2) * (TWO64 * TWO64) + hl) * (TWO64 * m);
            var product := (ixk * (TWO64 * TWO64 * TWO64) + wix) * m + ix * rest;
            approx <= product < approx + 2 * (TWO64 * m)
  {
    var h := (ixk + k2) * (TWO64 * TWO64) + hl;
    var x, s := h * TWO64, ixk * (TWO64 * TWO64 * TWO64) + wix;
    assert s == x + r;
    UnscaleWord(h, m);
    SumParts(x, r, s, m);
    StrictScale(r, TWO64, m);
    MulMono(ix, rest, m);
    MulMono(m, ix, TWO64);
    ScaleNat(r, m);
    ScaleNat(ix, rest);
  }

  lemma ProductParts(ix: nat, k: nat, c: nat, w: nat, m: nat, rest: nat)
    ensures ix * ((k * c + w) * m + rest) == ((ix * k) * c + w * ix) * m + ix * rest
  {
    assert ix * ((k * c + w) * m) == (ix * (k * c + w)) * m;
    assert ix * (k * c + w) == (ix * k) * c + w * ix;
  }

  lemma SumParts(x: nat, r: nat, s: nat, m: nat)
    requires s == x + r
    ensures s * m == x * m + r * m
  {
  }

  lemma UnscaleWord(h: nat, m: nat)
    ensures h * (TWO64 * m) == (h * TWO64) * m
  {
  }

  /** The 128 bits kept by the reduction of x lie below the exact product of x with the
      tabulated 4/Pi, modulo 8, by less than 2 units of 2^-125: the exact product is
      Significand(x) * TableValue(table) * 2^(exp - 1216). */
  lemma ReduceError(x: u64, table: seq<u64>)
    requires |table| == 20 && IsFinite(x) && !LessF(x, PI4)
    ensures WithinTwoUnits(Significand(x) * TableValue(table), Reduce(x, table), Scale(x))
  {
    hide Pow2, Digit, TableValue, Significand, BinaryExponent, ProductTop, LessF;
    WindowInTable(x);
    var ix, exp := Significand(x), BinaryExponent(x);
    var d, b := (exp + 61) / 64, (exp + 61) % 64;
    var z0, z1, z2 :=
      Digit(table[d], table[d + 1], b), Digit(table[d + 1], table[d + 2], b), Digit(table[d + 2], table[d + 3], b);
    var k, rest := TableAroundWindow(table, d, b);
    var k2, r := ProductTopValue(z0, z1, z2, ix);
    var p := ProductTop(z0, z1, z2, ix);
    var m := 64 * (17 - d) - b;
    assert m == 1027 - exp;
    assert Pow2(64 + m) == TWO64 * Pow2(m) by { Pow2Table(); Pow2Add(64, m); }
    assert Window(table, d, b) == (z0 * TWO64 + z1) * TWO64 + z2;
    ScaleNat(ix, k);
    ProductParts(ix, k, TWO64 * TWO64 * TWO64, Window(table, d, b), Pow2(m), rest);
    CombineWindow(ix, ix * k, k2, Window(table, d, b) * ix, p.0 * TWO64 + p.1, r, Pow2(m), rest);
    assert AboveBy(ix * TableValue(table), ix * k + k2, Reduce(x, table), 64 + m);
  }

  /** The same with the digits of 4/Pi themselves, and with x in place of its significand:
      the exact product of x with them, up to a power of two and modulo 8. */
  lemma ReduceByPi4(x: u64)
    requires IsFinite(x) && !LessF(x, PI4)
    ensures
      var e := BinaryExponent(x);
      && -53 <= e <= 971
      && Val(x) == Significand(x) * Pow2(e + 1074)
      && WithinTwoUnits(Significand(x) * TableValue(MPI4), Reduce(x, MPI4), Scale(x))
  {
    hide Pow2, TableValue, Significand, BinaryExponent, LessF, Reduce, WithinTwoUnits, IsFinite, Val;
    WindowInTable(x);
    SignificandValue(x);
    TableSize();
    ReduceError(x, MPI4);
  }

  lemma TableSize()
    ensures |MPI4| == 20
  {
  }

  const TWO125: nat := 0x2000_0000_0000_0000 * 0x1_0000_0000_0000_0000

  /** j is the integer part of the exact product modulo 8, except possibly when the kept
      fraction is within one unit of the next integer. */
  lemma ReduceInteger(x: u64, table: seq<u64>)
    requires |table| == 20 && IsFinite(x) && !LessF(x, PI4)
    requires var r := Reduce(x, table); (r.hi * TWO64 + r.lo) % TWO125 != TWO125 - 1
    ensures var n := 1091 - BinaryExponent(x);
            n >= 0 && (Significand(x) * TableValue(table) / Pow2(n + 125)) % 8 == Reduce(x, table).j
  {
    hide Pow2, TableValue, Significand, BinaryExponent, LessF, AboveBy, Reduce;
    ReduceError(x, table);
    var r, n := Reduce(x, table), 1091 - BinaryExponent(x);
    var product := Significand(x) * TableValue(table);
    var k :| AboveBy(product, k, r, n);
    ReduceTopBits(x, table);
    OctantOf(product, k, r, n);
  }

  lemma OctantOf(product: nat, k: nat, r: Reduced, n: nat)
    requires AboveBy(product, k, r, n)
    requires r.j < 8 && (r.hi * TWO64 + r.lo) / TWO125 == r.j && (r.hi * TWO64 + r.lo) % TWO125 != TWO125 - 1
    ensures (product / Pow2(n + 125)) % 8 == r.j
  {
    hide Pow2;
    var p := Pow2(n);
    assert Pow2(n + 125) == p * TWO125 by { Pow2Table(); Pow2Add(n, 125); Pow2Add(61, 64); }
    Octant(product, k * (TWO64 * TWO64) + (r.hi * TWO64 + r.lo), k, r.hi * TWO64 + r.lo, r.j, p);
  }

  lemma ReduceTopBits(x: u64, table: seq<u64>)
    requires |table| == 20 && IsFinite(x) && !LessF(x, PI4)
    ensures var r := Reduce(x, table);
            r.j < 8 && (r.hi * TWO64 + r.lo) / TWO125 == r.j
  {
    hide LessF, ProductTop, Digit, Significand, BinaryExponent;
    var r := Reduce(x, table);
    assert r.j == r.hi / 0x2000_0000_0000_0000 by { Pow2Table(); hide Pow2; }
    hide Reduce;
    TopOfPair(r.hi, r.lo);
  }

  lemma TopOfPair(hi: u64, lo: u64)
    ensures (hi * TWO64 + lo) / TWO125 == hi / 0x2000_0000_0000_0000 < 8
  {
    var j, f := hi / 0x2000_0000_0000_0000, hi % 0x2000_0000_0000_0000;
    DivModUnique(hi * TWO64 + lo, TWO125, j, f * TWO64 + lo);
  }

  lemma Octant(product: nat, a: nat, k: nat, hl: nat, j: nat, p: nat)
    requires p >= 1 && a == k * (TWO64 * TWO64) + hl && a * p <= product < a * p + 2 * p
    requires hl / TWO125 == j < 8 && hl % TWO125 != TWO125 - 1
    ensures (product / (p * TWO125)) % 8 == j
  {
    var f := hl % TWO125;
    assert a == (8 * k + j) * TWO125 + f;
    var rem := product - a * p;
    OctantRest(8 * k + j, f, p, rem);
    DivModUnique(product, p * TWO125, 8 * k + j, f * p + rem);
  }

  lemma OctantRest(q: nat, f: nat, p: nat, rem: nat)
    requires f < TWO125 - 1 && rem < 2 * p
    ensures (q * TWO125 + f) * p + rem == q * (p * TWO125) + (f * p + rem)
    ensures 0 <= f * p + rem < p * TWO125
  {
    assert (q * TWO125) * p == q * (p * TWO125);
    ScaleNat(f, p);
    MulMono(p, f + 2, TWO125);
    assert (f + 2) * p == f * p + 2 * p;
  }
}
