/** IEEE 754 binary64 values as 64-bit patterns.

    Every finite double is an integer multiple of 2^-1074, so the magnitude of a
    pattern is an exact natural number in that unit. Rounding to nearest, ties to
    even (IEEE 754-2008 section 4.3.1) is then a statement about integers: an exact
    result is v * 2^-(1074+s) for an integer v and a scale s. */
module Float64 {
  import opened Words

  const MASK: nat := 0x7FF
  const BIAS: nat := 1023
  const HIDDEN: nat := 0x10_0000_0000_0000          // 1 << 52
  const INF: nat := 0x7FF0_0000_0000_0000           // uvinf
  const NANBITS: nat := 0x7FF8_0000_0000_0001       // uvnan
  const SIGNBIT: nat := 0x8000_0000_0000_0000

  // ----- fields of a pattern -----

  function Sign(b: u64): nat { b / SIGNBIT }
  function AbsBits(b: u64): u64 { b % SIGNBIT }
  function Exponent(b: u64): nat { AbsBits(b) / HIDDEN }
  function Fraction(b: u64): nat { b % HIDDEN }

  predicate IsFinite(b: u64) { AbsBits(b) < INF }
  predicate IsNaN(b: u64) { AbsBits(b) > INF }
  predicate IsInf(b: u64) { AbsBits(b) == INF }
  predicate IsZero(b: u64) { AbsBits(b) == 0 }

  /** Magnitude of a sign-free pattern in units of 2^-1074. At the pattern of
      infinity it is 2^1024, the value just past the largest finite double. */
  function Mag(a: nat): nat {
    var e, f := a / HIDDEN, a % HIDDEN;
    if e == 0 then f else (HIDDEN + f) * Pow2(e - 1)
  }

  /** Value of a pattern in units of 2^-1074. */
  function Val(b: u64): int {
    if Sign(b) == 1 then 0 - Mag(AbsBits(b)) else Mag(AbsBits(b))
  }

  function WithSign(negative: bool, a: u64): u64
    requires a < SIGNBIT
  {
    if negative then SIGNBIT + a else a
  }

  function Abs(x: int): nat { if x < 0 then -x else x }

  // ----- correct rounding -----

  /** v * 2^-(1074+s) has reached 2^1024 - 2^970, halfway between the largest
      finite double and 2^1024: the point from which nearest rounding overflows. */
  ghost predicate Overflows(v: int, s: nat) {
    2 * Abs(v) >= (Mag(INF - 1) + Mag(INF)) * Pow2(s)
  }

  /** Distance between v and the value of b, in units of 2^-(1074+s). */
  ghost function Dist(v: int, s: nat, b: u64): nat {
    Abs(v - Val(b) * Pow2(s))
  }

  /** b is the result of rounding v * 2^-(1074+s) to nearest, ties to even.
      The sign of a zero result is left open. */
  ghost predicate RoundsTo(v: int, s: nat, b: u64) {
    if Overflows(v, s) then
      b == WithSign(v < 0, INF)
    else
      && IsFinite(b)
      && (forall f: u64 | IsFinite(f) :: Dist(v, s, b) <= Dist(v, s, f))
      && (forall f: u64 | IsFinite(f) && Val(f) != Val(b) && Dist(v, s, b) == Dist(v, s, f) :: b % 2 == 0)
  }

  // ----- the grid of magnitudes -----

  /** Gap between a magnitude pattern and the next one. */
  function Ulp(a: nat): (u: nat)
    ensures u >= 1
  {
    var e := a / HIDDEN;
    if e == 0 then 1 else Pow2(e - 1)
  }

  /** A pattern written as exponent step plus significand. */
  lemma MagAt(e: nat, m: nat)
    requires m <= 2 * HIDDEN && (e == 0 || m >= HIDDEN)
    ensures Mag(e * HIDDEN + m) == m * Pow2(e)
  {
    hide Mag;
    if m == 2 * HIDDEN {
      MagAtCarry(e, m, e * HIDDEN + m);
    } else if m >= HIDDEN {
      MagAtNormal(e, m, e * HIDDEN + m);
    } else {
      MagAtSubnormal(m);
    }
  }

  lemma MagAtSubnormal(m: nat)
    requires m < HIDDEN
    ensures Mag(0 * HIDDEN + m) == m * Pow2(0)
  {
    FieldsAt(m, 0, m);
  }

  lemma MagAtCarry(e: nat, m: nat, a: nat)
    requires a == e * HIDDEN + m && m == 2 * HIDDEN
    ensures Mag(a) == m * Pow2(e)
  {
    FieldsAt(a, e + 2, 0);
    HalveDouble(HIDDEN, m, Pow2(e));
  }

  lemma HalveDouble(h: nat, m: nat, p: nat)
    requires m == 2 * h
    ensures h * (2 * p) == m * p
  {
  }

  lemma MagAtNormal(e: nat, m: nat, a: nat)
    requires a == e * HIDDEN + m && HIDDEN <= m < 2 * HIDDEN
    ensures Mag(a) == m * Pow2(e)
  {
    FieldsAt(a, e + 1, m - HIDDEN);
  }

  lemma FieldsAt(a: nat, e: nat, f: nat)
    requires a == e * HIDDEN + f && f < HIDDEN
    ensures a / HIDDEN == e && a % HIDDEN == f
  {
  }

  lemma MagStep(a: nat)
    ensures Mag(a + 1) == Mag(a) + Ulp(a)
  {
    var e, f := a / HIDDEN, a % HIDDEN;
    if f + 1 < HIDDEN {
      DivModUnique(a + 1, HIDDEN, e, f + 1);
      if e > 0 { assert (HIDDEN + f + 1) * Pow2(e - 1) == (HIDDEN + f) * Pow2(e - 1) + Pow2(e - 1); }
    } else {
      DivModUnique(a + 1, HIDDEN, e + 1, 0);
      if e > 0 { assert Pow2(e) == 2 * Pow2(e - 1); }
    }
  }

  lemma {:induction false} MagMono(a: nat, b: nat)
    requires a <= b
    ensures Mag(a) <= Mag(b)
    ensures a < b ==> Mag(a) < Mag(b)
    decreases b - a
  {
    if a < b {
      MagMono(a, b - 1);
      MagStep(b - 1);
    }
  }

  lemma SignParts(b: u64)
    ensures b == Sign(b) * SIGNBIT + AbsBits(b) && (Sign(b) == 0 || Sign(b) == 1)
    ensures b % 2 == AbsBits(b) % 2
  {
  }

  lemma WithSignParts(negative: bool, a: u64)
    requires a < SIGNBIT
    ensures Sign(WithSign(negative, a)) == (if negative then 1 else 0)
    ensures AbsBits(WithSign(negative, a)) == a
    ensures Val(WithSign(negative, a)) == if negative then 0 - Mag(a) else Mag(a)
    ensures WithSign(negative, a) % 2 == a % 2
  {
  }

  // ----- rounding from a bracket -----

  /** On magnitudes: a is nearest to v among all finite patterns, ties to even. */
  ghost predicate NearestMag(v: nat, s: nat, a: nat) {
    && a < INF
    && (forall f: nat | f < INF :: Abs(v - Mag(a) * Pow2(s)) <= Abs(v - Mag(f) * Pow2(s)))
    && (forall f: nat | f < INF && f != a && Abs(v - Mag(a) * Pow2(s)) == Abs(v - Mag(f) * Pow2(s)) :: a % 2 == 0)
  }

  /** The pattern chosen between a and a + 1 for v. */
  ghost predicate PicksEven(v: nat, s: nat, a: nat, r: nat) {
    var mid := (Mag(a) + Mag(a + 1)) * Pow2(s);
    && (r == a || r == a + 1)
    && (2 * v < mid ==> r == a)
    && (2 * v > mid ==> r == a + 1)
    && (2 * v == mid ==> r % 2 == 0)
  }

  lemma Scaled(x: nat, y: nat, p: nat)
    requires x <= y
    ensures x * p <= y * p
    ensures (x + y) * p == x * p + y * p
  {
  }

  lemma PickedIsNearest(v: nat, s: nat, a: nat, r: nat)
    requires a < INF && r < INF
    requires Mag(a) * Pow2(s) <= v <= Mag(a + 1) * Pow2(s)
    requires PicksEven(v, s, a, r)
    ensures NearestMag(v, s, r)
  {
    var p := Pow2(s);
    MagMono(a, a + 1);
    Scaled(Mag(a), Mag(a + 1), p);
    forall f: nat | f < INF
      ensures Abs(v - Mag(r) * p) <= Abs(v - Mag(f) * p)
      ensures f != r && Abs(v - Mag(r) * p) == Abs(v - Mag(f) * p) ==> r % 2 == 0
    {
      if f <= a {
        MagMono(f, a);
        Scaled(Mag(f), Mag(a), p);
        if f < a { StrictScale(Mag(f), Mag(a), p); }
      } else {
        MagMono(a + 1, f);
        Scaled(Mag(a + 1), Mag(f), p);
        if f > a + 1 { StrictScale(Mag(a + 1), Mag(f), p); }
      }
    }
  }

  lemma StrictScale(x: nat, y: nat, p: nat)
    requires x < y && p > 0
    ensures x * p < y * p
  {
  }

  lemma MidpointScale(a: nat, b: nat, p: nat)
    ensures (a + b) * p == a * p + b * p
  {
  }

  /** Rounding a magnitude inside [Mag(a), Mag(a+1)] by the nearer end, ties to the
      even pattern, and attaching the sign of v is correct rounding of v. */
  lemma PickedRounds(v: int, s: nat, a: nat, r: nat)
    requires a < INF
    requires Mag(a) * Pow2(s) <= Abs(v) <= Mag(a + 1) * Pow2(s)
    requires PicksEven(Abs(v), s, a, r)
    ensures RoundsTo(v, s, WithSign(v < 0, r))
  {
    MagMono(a, INF - 1);
    MagMono(a + 1, INF);
    Scaled(Mag(a) + Mag(a + 1), Mag(INF - 1) + Mag(INF), Pow2(s));
    if r == INF {
      assert a == INF - 1;
      assert INF % 2 == 0;
    } else {
      NotOverflow(v, s, a, r);
      PickedIsNearest(Abs(v), s, a, r);
      SignedNearest(v, s, r);
    }
  }

  lemma NotOverflow(v: int, s: nat, a: nat, r: nat)
    requires a < INF && r < INF
    requires Abs(v) <= Mag(a + 1) * Pow2(s)
    requires PicksEven(Abs(v), s, a, r)
    ensures !Overflows(v, s)
  {
    var p := Pow2(s);
    if a == INF - 1 {
      assert (INF - 1) % 2 == 1;
    } else {
      MagMono(a + 1, INF - 1);
      MagMono(INF - 1, INF);
      Scaled(Mag(a + 1), Mag(INF - 1), p);
      StrictScale(Mag(INF - 1), Mag(INF), p);
      MidpointScale(Mag(INF - 1), Mag(INF), p);
    }
  }

  lemma SignedNearest(v: int, s: nat, r: nat)
    requires !Overflows(v, s)
    requires NearestMag(Abs(v), s, r)
    ensures RoundsTo(v, s, WithSign(v < 0, r))
  {
    var b := WithSign(v < 0, r);
    var p := Pow2(s);
    WithSignParts(v < 0, r);
    NegScale(Mag(r), p);
    assert Dist(v, s, b) == Abs(Abs(v) - Mag(r) * p);
    forall f: u64 | IsFinite(f)
      ensures Dist(v, s, b) <= Dist(v, s, f)
      ensures Val(f) != Val(b) && Dist(v, s, b) == Dist(v, s, f) ==> b % 2 == 0
    {
      var g := AbsBits(f);
      SignParts(f);
      NegScale(Mag(g), p);
      ScaleNat(Mag(g), p);
      assert Abs(Abs(v) - Mag(r) * p) <= Abs(Abs(v) - Mag(g) * p);
      assert Dist(v, s, f) >= Abs(Abs(v) - Mag(g) * p);
      if Val(f) != Val(b) && Dist(v, s, b) == Dist(v, s, f) && g == r {
        // the mirror image of b: only a zero-distance pair could tie
        NegScale(Val(b), p);
        MagMono(0, r);
        ScaleNat(Mag(r), p);
        StrictScale(0, Mag(r), p);
        assert false;
      }
    }
  }

  lemma NegScale(x: int, p: nat)
    ensures (0 - x) * p == 0 - x * p
  {
  }

  lemma ScaleNat(x: nat, p: nat)
    ensures x * p >= 0
  {
  }

  // ----- rounding does not depend on the unit -----

  lemma DistScales(v: int, s: nat, k: nat, b: u64)
    ensures Dist(v * Pow2(k), s + k, b) == Dist(v, s, b) * Pow2(k)
  {
    hide Mag, Pow2;
    var d, p := v - Val(b) * Pow2(s), Pow2(k);
    Pow2Add(s, k);
    assert Val(b) * (Pow2(s) * p) == (Val(b) * Pow2(s)) * p;
    assert v * p - (Val(b) * Pow2(s)) * p == d * p;
    AbsScales(d, p);
  }

  lemma AbsScales(d: int, p: nat)
    ensures Abs(d * p) == Abs(d) * p
  {
    if d < 0 { NegScale(0 - d, p); ScaleNat(-d, p); } else { ScaleNat(d, p); }
  }

  lemma OverflowScales(v: int, s: nat, k: nat)
    ensures Overflows(v * Pow2(k), s + k) <==> Overflows(v, s)
  {
    hide Mag, Pow2;
    var m, p, q := Mag(INF - 1) + Mag(INF), Pow2(s), Pow2(k);
    Pow2Add(s, k);
    AbsScales(v, q);
    assert m * (p * q) == (m * p) * q;
    if 2 * Abs(v) >= m * p { MulMono(q, m * p, 2 * Abs(v)); } else { MulMono(q, 2 * Abs(v) + 1, m * p); }
  }

  lemma CancelScale(x: nat, y: nat, p: nat)
    requires p >= 1
    ensures x * p <= y * p <==> x <= y
    ensures x * p == y * p <==> x == y
  {
    if x < y { StrictScale(x, y, p); } else if y < x { StrictScale(y, x, p); }
  }

  /** Rounding is about the real number, not about the unit it is written in. */
  lemma RoundsScales(v: int, s: nat, k: nat, b: u64)
    ensures RoundsTo(v * Pow2(k), s + k, b) <==> RoundsTo(v, s, b)
  {
    hide Mag, Pow2, Overflows, Dist, Val;
    var p := Pow2(k);
    OverflowScales(v, s, k);
    if v < 0 { StrictScale(0, -v, p); NegScale(-v, p); } else { ScaleNat(v, p); }
    if !Overflows(v, s) {
      forall f: u64
        ensures Dist(v, s, b) <= Dist(v, s, f) <==> Dist(v * p, s + k, b) <= Dist(v * p, s + k, f)
        ensures Dist(v, s, b) == Dist(v, s, f) <==> Dist(v * p, s + k, b) == Dist(v * p, s + k, f)
      {
        DistScales(v, s, k, b);
        DistScales(v, s, k, f);
        CancelScale(Dist(v, s, b), Dist(v, s, f), p);
      }
    }
  }

  lemma RoundsUnscale(v: int, s: nat, k: nat, b: u64)
    requires RoundsTo(v * Pow2(k), s + k, b)
    ensures RoundsTo(v, s, b)
  {
    RoundsScales(v, s, k, b);
  }

  /** Two ways of writing the same real number round alike. */
  lemma SameReal(v: int, s: nat, w: int, t: nat, b: u64)
    requires v * Pow2(t) == w * Pow2(s)
    ensures RoundsTo(v, s, b) <==> RoundsTo(w, t, b)
  {
    hide RoundsTo, Pow2;
    RoundsScales(v, s, t, b);
    RoundsScales(w, t, s, b);
    assert s + t == t + s;
  }

  lemma ZeroRounds(s: nat, b: u64)
    requires IsZero(b)
    ensures RoundsTo(0, s, b)
  {
    assert Mag(0) == 0;
    assert Val(b) == 0;
    MagMono(0, INF - 1);
    MagMono(INF - 1, INF);
    StrictScale(0, Mag(INF - 1) + Mag(INF), Pow2(s));
    assert !Overflows(0, s);
    assert 0 * Pow2(s) == 0;
    assert b % 2 == 0;
  }

  // ----- rounding as a function: what the hardware operations return -----

  /** The least e with m < 2^53 * 2^(e+s), searched upwards. */
  function ScaleFrom(m: nat, s: nat, e: nat): (r: nat)
    ensures r >= e && m < 2 * HIDDEN * Pow2(r + s)
    ensures r == e || m >= 2 * HIDDEN * Pow2(r - 1 + s)
    decreases if m > e then m - e else 0
  {
    Pow2Exceeds(e + s);
    if m < 2 * HIDDEN * Pow2(e + s) then e else ScaleFrom(m, s, e + 1)
  }

  lemma {:induction false} Pow2Exceeds(n: nat)
    ensures Pow2(n) > n
  {
    if n > 0 { Pow2Exceeds(n - 1); }
  }

  function RoundMag(m: nat, s: nat): (a: nat)
    ensures a <= INF
  {
    var e := ScaleFrom(m, s, 0);
    var u := Pow2(e + s);
    DivModParts(m, u);
    var q, r := m / u, m % u;
    var a := e * HIDDEN + q + (if 2 * r > u || (2 * r == u && q % 2 == 1) then 1 else 0);
    if a >= INF then INF else a
  }

  /** Round to nearest, ties to even: the value v * 2^-(1074+s) as a double. */
  function Round(v: int, s: nat): u64 {
    WithSign(v < 0, RoundMag(Abs(v), s))
  }

  /** Rounding as computed meets the standard's definition. */
  lemma RoundIsNearest(v: int, s: nat)
    ensures RoundsTo(v, s, Round(v, s))
  {
    hide *;
    var e, q := RoundBracket(Abs(v), s);
    var a := e * HIDDEN + q;
    if a < INF {
      PickedRounds(v, s, a, RoundMag(Abs(v), s));
      RoundUnfold(v, s);
    } else {
      TopOverflow(v, s, a, Mag(a) * Pow2(s));
    }
  }

  lemma RoundUnfold(v: int, s: nat)
    ensures Round(v, s) == WithSign(v < 0, RoundMag(Abs(v), s))
  {
    hide RoundMag;
  }

  /** The bracket around m found by RoundMag, and its choice between the two ends. */
  lemma RoundBracket(m: nat, s: nat) returns (e: nat, q: nat)
    ensures var a := e * HIDDEN + q;
            && Mag(a) * Pow2(s) <= m
            && (a < INF ==> m <= Mag(a + 1) * Pow2(s) && PicksEven(m, s, a, RoundMag(m, s)))
            && (a >= INF ==> RoundMag(m, s) == INF)
  {
    hide Mag, Pow2, ScaleFrom, PicksEven;
    e := ScaleFrom(m, s, 0);
    var u := Pow2(e + s);
    DivModParts(m, u);
    q := m / u;
    var r := m % u;
    QuotientRange(m, s, e, q, r);
    GridPoint(e, q, s);
    GridPoint(e, q + 1, s);
    Halves(q, u);
    if e * HIDDEN + q < INF { RoundPick(m, s, e, q, r, u); }
  }

  lemma QuotientRange(m: nat, s: nat, e: nat, q: nat, r: nat)
    requires m == q * Pow2(e + s) + r && r < Pow2(e + s) && m < 2 * HIDDEN * Pow2(e + s)
    requires e == 0 || m >= 2 * HIDDEN * Pow2(e - 1 + s)
    ensures q < 2 * HIDDEN && (e == 0 || q >= HIDDEN)
  {
    var u := Pow2(e + s);
    if e > 0 {
      assert u == 2 * Pow2(e - 1 + s);
    }
    hide Pow2;
    if q >= 2 * HIDDEN { MulMono(u, 2 * HIDDEN, q); }
    if e > 0 {
      assert m >= HIDDEN * u;
      if q < HIDDEN { MulMono(u, q + 1, HIDDEN); Halves(q, u); }
    }
  }

  lemma Halves(q: nat, u: nat)
    ensures (q + 1) * u == q * u + u
    ensures (q + (q + 1)) * u == 2 * (q * u) + u
  {
  }

  lemma GridPoint(e: nat, q: nat, s: nat)
    requires q <= 2 * HIDDEN && (e == 0 || q >= HIDDEN)
    ensures Mag(e * HIDDEN + q) * Pow2(s) == q * Pow2(e + s)
  {
    hide Mag, Pow2;
    MagAt(e, q);
    Pow2Add(e, s);
    assert (q * Pow2(e)) * Pow2(s) == q * (Pow2(e) * Pow2(s));
  }

  lemma RoundPick(m: nat, s: nat, e: nat, q: nat, r: nat, u: nat)
    requires e == ScaleFrom(m, s, 0) && u == Pow2(e + s) && q == m / u && r == m % u
    requires m == q * u + r && e * HIDDEN + q < INF
    requires Mag(e * HIDDEN + q) * Pow2(s) == q * u && Mag(e * HIDDEN + q + 1) * Pow2(s) == (q + 1) * u
    ensures PicksEven(m, s, e * HIDDEN + q, RoundMag(m, s))
  {
    hide Mag, Pow2, ScaleFrom, PicksEven;
    var a := e * HIDDEN + q;
    Halves(q, u);
    EvenBase(e, q);
    PickAt(m, s, a, RoundMag(m, s), q * u, (q + 1) * u, 2 * r > u || (2 * r == u && q % 2 == 1));
  }

  lemma EvenBase(e: nat, q: nat)
    ensures (e * HIDDEN + q) % 2 == q % 2
  {
  }

  /** PicksEven with the two ends of the bracket named. */
  lemma PickAt(v: nat, s: nat, a: nat, r: nat, lo: int, hi: int, up: bool)
    requires lo == Mag(a) * Pow2(s) && hi == Mag(a + 1) * Pow2(s)
    requires up <==> 2 * v > lo + hi || (2 * v == lo + hi && a % 2 == 1)
    requires r == if up then a + 1 else a
    ensures PicksEven(v, s, a, r)
  {
    hide Pow2, Mag;
    MidpointScale(Mag(a), Mag(a + 1), Pow2(s));
  }

  lemma TopOverflow(v: int, s: nat, a: nat, low: int)
    requires a >= INF && low == Mag(a) * Pow2(s) && low <= Abs(v)
    requires RoundMag(Abs(v), s) == INF
    ensures RoundsTo(v, s, Round(v, s))
  {
    hide Pow2, RoundMag, WithSign, Mag;
    MagMono(INF, a);
    MagMono(INF - 1, INF);
    Scaled(Mag(INF), Mag(a), Pow2(s));
    Scaled(Mag(INF - 1), Mag(INF), Pow2(s));
  }

  /** A representable value is returned unchanged. */
  lemma ExactRounds(v: int, s: nat, b: u64, r: u64)
    requires IsFinite(b) && v == Val(b) * Pow2(s) && RoundsTo(v, s, r)
    ensures IsFinite(r) && Val(r) == Val(b)
  {
    hide Mag, Pow2;
    SignParts(b);
    MagMono(AbsBits(b), INF - 1);
    MagMono(INF - 1, INF);
    StrictScale(2 * Mag(AbsBits(b)), Mag(INF - 1) + Mag(INF), Pow2(s));
    AbsScales(Val(b), Pow2(s));
    DoubleScale(Mag(AbsBits(b)), Pow2(s));
    assert !Overflows(v, s);
    assert Dist(v, s, b) == 0;
    assert Dist(v, s, r) == 0;
    if Val(r) != Val(b) {
      SameProduct(Val(r), Val(b), Pow2(s));
    }
  }

  lemma ExactIsRounded(v: int, s: nat, b: u64)
    requires IsFinite(b) && v == Val(b) * Pow2(s)
    ensures RoundsTo(v, s, b)
  {
    hide Mag, Pow2;
    SignParts(b);
    MagMono(AbsBits(b), INF - 1);
    MagMono(INF - 1, INF);
    StrictScale(2 * Mag(AbsBits(b)), Mag(INF - 1) + Mag(INF), Pow2(s));
    AbsScales(Val(b), Pow2(s));
    DoubleScale(Mag(AbsBits(b)), Pow2(s));
    assert !Overflows(v, s);
    forall f: u64 | IsFinite(f) && Dist(v, s, f) == 0
      ensures Val(f) == Val(b)
    {
      SameProduct(Val(f), Val(b), Pow2(s));
    }
  }

  lemma DoubleScale(x: nat, p: nat)
    ensures (2 * x) * p == 2 * (x * p)
  {
  }

  lemma SameProduct(x: int, y: int, p: nat)
    requires x * p == y * p && p >= 1
    ensures x == y
  {
    assert (x - y) * p == 0;
  }

  /** The definition determines the rounded value. */
  lemma RoundsUnique(v: int, s: nat, b: u64, c: u64)
    requires RoundsTo(v, s, b) && RoundsTo(v, s, c)
    ensures b == c || (IsFinite(b) && IsFinite(c) && Val(b) == Val(c))
  {
    if !Overflows(v, s) && Val(b) != Val(c) {
      hide Overflows, Val, Dist;
      assert Dist(v, s, b) == Dist(v, s, c);
      var lo, hi := if Val(b) < Val(c) then b else c, if Val(b) < Val(c) then c else b;
      var f := Between(lo, hi);
      StrictlyNearer(v, s, lo, hi, f);
    }
  }

  lemma StrictlyNearer(v: int, s: nat, b: u64, c: u64, f: u64)
    requires Val(b) < Val(f) < Val(c) && Dist(v, s, b) == Dist(v, s, c)
    ensures Dist(v, s, f) < Dist(v, s, b)
  {
    hide Val, Pow2;
    var p := Pow2(s);
    StrictProduct(Val(b), Val(f), p);
    StrictProduct(Val(f), Val(c), p);
  }

  lemma StrictProduct(x: int, y: int, p: nat)
    requires x < y && p >= 1
    ensures x * p < y * p
  {
  }

  /** Two different even patterns always have a pattern strictly between them. */
  lemma Between(b: u64, c: u64) returns (f: u64)
    requires IsFinite(b) && IsFinite(c) && b % 2 == 0 && c % 2 == 0 && Val(b) < Val(c)
    ensures IsFinite(f) && Val(b) < Val(f) < Val(c)
  {
    hide Mag;
    SignParts(b);
    SignParts(c);
    var x, y := AbsBits(b), AbsBits(c);
    assert Mag(0) == 0 by { MagZero(); }
    MagMono(0, x);
    MagMono(0, y);
    if Sign(b) == 0 && Sign(c) == 0 {
      if x >= y { MagMono(y, x); }
      f := WithSign(false, x + 1);
      WithSignParts(false, x + 1);
      MagMono(x, x + 1);
      MagMono(x + 1, y);
    } else if Sign(b) == 1 && Sign(c) == 1 {
      if y >= x { MagMono(x, y); }
      f := WithSign(true, x - 1);
      WithSignParts(true, x - 1);
      MagMono(x - 1, x);
      MagMono(y, x - 1);
    } else if y == 0 {
      f := WithSign(true, x - 1);
      WithSignParts(true, x - 1);
      MagMono(x - 1, x);
      MagMono(0, x - 1);
    } else if x == 0 {
      f := WithSign(false, y - 1);
      WithSignParts(false, y - 1);
      MagMono(y - 1, y);
      MagMono(0, y - 1);
    } else {
      f := 0;
      MagMono(0, x);
      MagMono(0, y);
      WithSignParts(false, 0);
    }
  }

  lemma MagZero()
    ensures Mag(0) == 0
  {
  }

  // ----- reading the fields with shifts and masks -----

  lemma ExponentField(b: u64)
    ensures BitAnd(Shr64(b, 52), MASK) == Exponent(b) <= MASK
    ensures Shr64(b, 63) == Sign(b)
  {
    TopShifts(b);
    assert BitAnd(b / HIDDEN, MASK) == (b / HIDDEN) % 0x800 by {
      Pow2Table();
      AndMask(b / HIDDEN, 11);
    }
    hide BitAnd, Shr64;
    ExponentDigits(b);
  }

  lemma TopShifts(b: u64)
    ensures Shr64(b, 52) == b / HIDDEN && Shr64(b, 63) == b / SIGNBIT
  {
    Pow2Table();
    hide Pow2;
  }

  lemma ExponentDigits(b: u64)
    ensures (b / HIDDEN) % 0x800 == (b % SIGNBIT) / HIDDEN <= MASK
  {
  }

  lemma AbsParts(b: u64)
    ensures AbsBits(b) == Exponent(b) * HIDDEN + Fraction(b)
    ensures AbsBits(b) / HIDDEN == Exponent(b) && AbsBits(b) % HIDDEN == Fraction(b)
  {
  }

  lemma SetHidden(f: u64)
    requires f < HIDDEN
    ensures Or64(f, Shl64(1, 52)) == HIDDEN + f
  {
    assert Shl64(1, 52) == HIDDEN && Pow2(52) == HIDDEN by { Pow2Table(); }
    OrDisjoint(1, f, 52);
  }

  // ----- hardware arithmetic on finite values -----

  /** Multiplication, rounded once; the sign is the exclusive or of the signs. */
  function MulF(x: u64, y: u64): u64 {
    WithSign(Sign(x) != Sign(y), RoundMag(Abs(Val(x) * Val(y)), 1074))
  }

  /** Subtraction, rounded once; an exact zero is +0. */
  function SubF(x: u64, y: u64): u64 { Round(Val(x) - Val(y), 0) }

  /** Addition, rounded once; the sign of an exact zero is left as +0. */
  function AddF(x: u64, y: u64): u64 { Round(Val(x) + Val(y), 0) }

  function NegF(x: u64): u64 {
    if x < SIGNBIT then x + SIGNBIT else x - SIGNBIT
  }

  predicate LessF(x: u64, y: u64) { Val(x) < Val(y) }

  lemma MagPositive(a: nat)
    ensures Mag(a) > 0 <==> a > 0
  {
    MagZero();
    if a > 0 { MagMono(0, a); }
  }

  lemma MulRounds(x: u64, y: u64)
    requires !IsZero(x) && !IsZero(y)
    ensures RoundsTo(Val(x) * Val(y), 1074, MulF(x, y))
  {
    hide Mag, RoundsTo, RoundMag;
    RoundIsNearest(Val(x) * Val(y), 1074);
    SignParts(x);
    SignParts(y);
    MagPositive(AbsBits(x));
    MagPositive(AbsBits(y));
    ProductSign(Val(x), Val(y));
  }

  lemma ProductSign(a: int, b: int)
    requires a != 0 && b != 0
    ensures a * b < 0 <==> (a < 0) != (b < 0)
    ensures a * b != 0
  {
  }

  /** A natural number with at most 53 significant bits, below 2^1024, is a magnitude. */
  lemma {:induction false} Representable(q: nat, e: nat) returns (a: nat)
    requires q <= 2 * HIDDEN && q * Pow2(e) < Mag(INF)
    ensures a < INF && Mag(a) == q * Pow2(e)
    decreases e
  {
    if e == 0 || q >= HIDDEN {
      a := e * HIDDEN + q;
      MagAt(e, q);
      if a >= INF { MagMono(INF, a); }
    } else {
      DoubleProduct(q, e);
      HalfDouble(q, Pow2(e - 1));
      a := Representable(2 * q, e - 1);
    }
  }

  lemma HalfDouble(q: nat, p: nat)
    ensures (2 * q) * p == 2 * (q * p)
  {
  }

  /** Every magnitude is a significand of at most 53 bits times a power of two. */
  lemma MagParts(a: nat) returns (q: nat, e: nat)
    ensures q < 2 * HIDDEN && Mag(a) == q * Pow2(e) && a == e * HIDDEN + q && (e == 0 || q >= HIDDEN)
  {
    var h, f := a / HIDDEN, a % HIDDEN;
    DivModParts(a, HIDDEN);
    if h == 0 { q, e := f, 0; } else { q, e := HIDDEN + f, h - 1; }
    MagAt(e, q);
  }

  // ----- rewriting the exponent field -----

  /** x &^= mask << shift */
  lemma ClearExponent(x: u64)
    ensures AndNot64(x, INF) == Sign(x) * SIGNBIT + Fraction(x)
  {
    var h, f := x / HIDDEN, x % HIDDEN;
    assert Not64(INF) == 0x800 * HIDDEN + (HIDDEN - 1);
    AndHighLow(h, f);
    hide BitAnd;
    SignOfTop(x);
    DivModParts(x, HIDDEN);
  }

  lemma SignOfTop(x: u64)
    ensures x / HIDDEN == Sign(x) * 0x800 + Exponent(x) && Exponent(x) < 0x800 && Sign(x) <= 1
  {
  }

  lemma AndHighLow(h: nat, f: nat)
    requires h < 0x1000 && f < HIDDEN
    ensures BitAnd(h * HIDDEN + f, 0x800 * HIDDEN + (HIDDEN - 1)) == (h / 0x800) * SIGNBIT + f
  {
    var s, e := h / 0x800, h % 0x800;
    assert BitAnd(h, 0x800) == s * 0x800 by {
      Pow2Table();
      AndSplit(s, e, 1, 0, 11);
      AndOne(s);
      assert BitAnd(e, 0) == 0;
    }
    assert BitAnd(h * HIDDEN + f, 0x800 * HIDDEN + (HIDDEN - 1)) == BitAnd(h, 0x800) * HIDDEN + f by {
      Pow2Table();
      AndSplit(h, f, 0x800, HIDDEN - 1, 52);
      AndOnes(f, 52);
    }
  }

  lemma OrZero(f: nat)
    ensures BitOr(f, 0) == f
  {
  }

  /** x |= e << shift on a pattern whose exponent field is clear */
  lemma SetExponent(s: nat, e: nat, f: nat)
    requires s <= 1 && e < 0x800 && f < HIDDEN
    ensures Shl64(e, 52) == e * HIDDEN
    ensures Or64(s * SIGNBIT + f, e * HIDDEN) == s * SIGNBIT + e * HIDDEN + f
  {
    hide Pow2, BitOr;
    assert Shl64(e, 52) == e * HIDDEN by { Pow2Table(); }
    assert BitOr(s * 0x800, e) == s * 0x800 + e by {
      Pow2Table();
      OrDisjoint(s, e, 11);
    }
    assert BitOr((s * 0x800) * HIDDEN + f, e * HIDDEN + 0) == (s * 0x800 + e) * HIDDEN + f by {
      Pow2Table();
      OrSplit(s * 0x800, f, e, 0, 52);
      OrZero(f);
    }
  }

  lemma FieldsOf(s: nat, e: nat, f: nat)
    requires s <= 1 && e < 0x800 && f < HIDDEN
    ensures var b := s * SIGNBIT + e * HIDDEN + f;
            Sign(b) == s && Exponent(b) == e && Fraction(b) == f && AbsBits(b) == e * HIDDEN + f
  {
  }

  /** Adding a zero changes no value. */
  lemma AddZero(p: u64, z: u64)
    requires AbsBits(p) <= INF && IsZero(z)
    ensures IsFinite(p) ==> IsFinite(AddF(p, z)) && Val(AddF(p, z)) == Val(p)
    ensures !IsFinite(p) ==> AddF(p, z) == p
  {
    hide Mag, Pow2, RoundsTo;
    MagZero();
    SignParts(z);
    SignParts(p);
    assert Val(z) == 0;
    RoundIsNearest(Val(p), 0);
    Pow2Table();
    if IsFinite(p) {
      ExactRounds(Val(p), 0, p, Round(Val(p), 0));
    } else {
      InfinityRounds(p);
    }
  }

  lemma InfinityRounds(p: u64)
    requires AbsBits(p) == INF
    ensures Round(Val(p), 0) == p
  {
    hide Mag, Pow2, RoundMag;
    RoundIsNearest(Val(p), 0);
    Pow2Table();
    MagMono(INF - 1, INF);
    MagPositive(INF);
    SignParts(p);
    assert Overflows(Val(p), 0);
  }

  /** Rounding constrains only the value of a finite result and its last bit. */
  lemma SameValueRounds(v: int, s: nat, b: u64, c: u64)
    requires RoundsTo(v, s, b) && IsFinite(b) && IsFinite(c) && Val(b) == Val(c)
    ensures RoundsTo(v, s, c)
  {
    hide Mag, Pow2;
    SignParts(b);
    SignParts(c);
    var x, y := AbsBits(b), AbsBits(c);
    if x < y { MagMono(x, y); } else if y < x { MagMono(y, x); }
    WithSignParts(v < 0, INF);
  }
}
