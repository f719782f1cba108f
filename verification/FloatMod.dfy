/** Frexp, Ldexp and the floating-point remainder. */
module FloatMod {
  import opened Words
  import opened Float64

  const ONE: nat := 1023 * HIDDEN       // 1.0
  const TWO52: nat := 1075 * HIDDEN     // 1 << 52
  const TWOM53: nat := 970 * HIDDEN     // 1.0 / (1 << 53)

  // ----- the functions -----

  datatype FracExp = FracExp(frac: u64, exp: int)

  function Normalize(x: u64): FracExp {
    if LessF(AbsBits(x), HIDDEN) then FracExp(MulF(x, TWO52), -52) else FracExp(x, 0)
  }

  function ExponentBits(x: u64): nat { And64(Shr64(x, 52), MASK) }

  function ReplaceExponent(x: u64, e: u64): u64 {
    Or64(AndNot64(x, INF), Shl64(e, 52))
  }

  function Frexp(f: u64): FracExp {
    if IsZero(f) || IsInf(f) || IsNaN(f) then FracExp(f, 0)
    else
      var n := Normalize(f);
      FracExp(ReplaceExponent(n.frac, BIAS - 1), n.exp + ExponentBits(n.frac) - BIAS + 1)
  }

  function Ldexp(frac: u64, exp: int): u64 {
    if IsZero(frac) || IsInf(frac) || IsNaN(frac) then frac
    else
      var n := Normalize(frac);
      var e := exp + n.exp + ExponentBits(n.frac) - BIAS;
      if e < -1075 then WithSign(Sign(frac) == 1, 0)           // underflow
      else if e > 1023 then WithSign(LessF(frac, 0), INF)      // overflow
      else if e < -1022 then MulF(TWOM53, ReplaceExponent(n.frac, e + 53 + BIAS))
      else MulF(ONE, ReplaceExponent(n.frac, e + BIAS))
  }

  method Mod(x: u64, y: u64) returns (r: u64)
    ensures IsZero(y) || IsInf(x) || IsNaN(x) || IsNaN(y) ==> r == NANBITS
    ensures IsFinite(x) && IsFinite(y) && !IsZero(y) ==>
              && IsFinite(r) && Sign(r) == Sign(x)
              && Mag(AbsBits(y)) > 0 && Mag(AbsBits(r)) == Mag(AbsBits(x)) % Mag(AbsBits(y))
    ensures IsFinite(x) && IsInf(y) ==> r == x
  {
    if IsZero(y) || IsInf(x) || IsNaN(x) || IsNaN(y) {
      return NANBITS;
    }
    r := Remainder(x, y);
  }

  /** The general case of Mod: finite x, and y neither zero nor NaN. */
  method Remainder(x: u64, y: u64) returns (r: u64)
    requires IsFinite(x) && 0 < AbsBits(y) <= INF
    ensures IsFinite(r) && Sign(r) == Sign(x)
    ensures Mag(AbsBits(y)) > 0 && Mag(AbsBits(r)) == Mag(AbsBits(x)) % Mag(AbsBits(y))
    ensures IsInf(y) ==> r == x
  {
    hide Mag, Frexp, Ldexp, SubF, RoundMag, Val, NegF, LessF, Sign;
    var d := AbsBits(y);
    var yfr := Frexp(d);
    r := if LessF(x, 0) then NegF(x) else x;
    StartValues(x, d);
    while !LessF(r, d)
      invariant IsFinite(r) && Sign(r) == (if LessF(x, 0) then 0 else Sign(x))
      invariant Mag(d) > 0 && Val(r) == Mag(AbsBits(r)) && Mag(AbsBits(r)) % Mag(d) == Mag(AbsBits(x)) % Mag(d)
      invariant IsInf(y) ==> r == if LessF(x, 0) then NegF(x) else x
      decreases Mag(AbsBits(r))
    {
      NotBelow(r, d);
      var rfr := Frexp(r);
      var rexp := rfr.exp;
      if LessF(rfr.frac, yfr.frac) {
        rexp := rexp - 1;
      }
      ModStep(r, d);
      r := SubF(r, Ldexp(d, rexp - yfr.exp));
    }
    EndValues(r, d);
    if LessF(x, 0) {
      NegParts(r);
      r := NegF(r);
    }
  }

  // ----- Mod: the ends of the loop -----

  lemma NegParts(x: u64)
    ensures AbsBits(NegF(x)) == AbsBits(x) && Sign(NegF(x)) == 1 - Sign(x) && NegF(NegF(x)) == x
    ensures Sign(x) <= 1
  {
  }

  lemma StartValues(x: u64, d: u64)
    requires IsFinite(x) && 0 < d <= INF
    ensures Mag(d) > 0 && Val(d) == Mag(d) && Val(0) == 0
    ensures var r := if LessF(x, 0) then NegF(x) else x;
            && IsFinite(r) && AbsBits(r) == AbsBits(x) && Val(r) == Mag(AbsBits(r))
            && Sign(r) == (if LessF(x, 0) then 0 else Sign(x))
    ensures LessF(x, 0) ==> Sign(x) == 1
  {
    hide Mag;
    MagPositive(d);
    MagPositive(AbsBits(x));
    MagZero();
    NegParts(x);
    SignParts(x);
    assert AbsBits(d) == d && Sign(d) == 0;
  }

  lemma NotBelow(r: u64, d: u64)
    requires IsFinite(r) && Val(r) == Mag(AbsBits(r)) && 0 < d <= INF && Val(d) == Mag(d) && !LessF(r, d)
    ensures d < INF && r == AbsBits(r) && 0 < r && Sign(r) == 0 && Val(d) <= Val(r)
  {
    hide Mag;
    SignParts(r);
    MagPositive(d);
    MagPositive(AbsBits(r));
    MagMono(AbsBits(r), INF);
  }

  lemma EndValues(r: u64, d: u64)
    requires IsFinite(r) && Val(r) == Mag(AbsBits(r)) && 0 < d <= INF && Val(d) == Mag(d) && LessF(r, d) && Mag(d) > 0
    ensures Mag(AbsBits(r)) % Mag(d) == Mag(AbsBits(r))
  {
    hide Mag;
    SmallMod(Mag(AbsBits(r)), Mag(d));
  }

  // ----- normal form: significand m, exponent e, value m * 2^(e-52) -----

  ghost predicate Decomposed(a: nat, m: nat, e: int) {
    && HIDDEN <= m < 2 * HIDDEN && -1074 <= e <= 1023
    && Mag(a) * Pow2(60) == m * Pow2(e + 1082)
  }

  lemma ConstantValues()
    ensures Val(ONE) == HIDDEN * Pow2(1022) && Val(TWO52) == HIDDEN * Pow2(1074) && Val(TWOM53) == HIDDEN * Pow2(969)
    ensures Sign(ONE) == 0 && Sign(TWO52) == 0 && Sign(TWOM53) == 0
  {
    hide Mag, Pow2;
    MagAt(1022, HIDDEN);
    MagAt(1074, HIDDEN);
    MagAt(969, HIDDEN);
  }

  lemma SignOfMul(x: u64, y: u64)
    ensures Sign(MulF(x, y)) == if Sign(x) == Sign(y) then 0 else 1
  {
    hide RoundMag, Val;
    WithSignParts(Sign(x) != Sign(y), RoundMag(Abs(Val(x) * Val(y)), 1074));
    SignParts(x);
    SignParts(y);
  }

  lemma NormalDecomposed(x: u64)
    requires IsFinite(x) && Exponent(x) >= 1
    ensures Decomposed(AbsBits(x), HIDDEN + Fraction(x), Exponent(x) - BIAS)
  {
    var e, m := Exponent(x), HIDDEN + Fraction(x);
    AbsParts(x);
    assert e <= 2046;
    assert Mag(AbsBits(x)) == m * Pow2(e - 1);
    hide Mag, Pow2;
    Pow2Add(e - 1, 60);
    Regroup(m, Pow2(e - 1), Pow2(60));
  }

  /** Multiplying a subnormal by 2^52 is exact and makes it normal. */
  lemma SubnormalUp(x: u64)
    requires 0 < AbsBits(x) < HIDDEN
    ensures var y := MulF(x, TWO52);
            && IsFinite(y) && Sign(y) == Sign(x) && Exponent(y) >= 1
            && Mag(AbsBits(y)) == Mag(AbsBits(x)) * Pow2(52)
  {
    hide Mag, Pow2, RoundsTo, MulF, IsFinite;
    var y := MulF(x, TWO52);
    var f := AbsBits(x);
    MagSubnormal(f);
    Pow2Table();
    MagTop();
    TopAbove(f);
    var a := Representable(f, 52);
    var b := WithSign(Sign(x) == 1, a);
    WithSignParts(Sign(x) == 1, a);
    SignParts(x);
    FiniteSign(Sign(x) == 1, a);
    ConstantValues();
    assert IsZero(TWO52) == false;
    MulRounds(x, TWO52);
    TimesConstant(f, HIDDEN, Pow2(1074), Sign(x) == 1);
    ExactRounds(Val(x) * Val(TWO52), 1074, b, y);
    SignOfMul(x, TWO52);
    SignParts(y);
    SameMag(y, b);
    NormalRange(y, f);
  }

  lemma FiniteSign(neg: bool, a: u64)
    requires a < INF
    ensures IsFinite(WithSign(neg, a))
  {
    WithSignParts(neg, a);
  }


  lemma MagSubnormal(f: nat)
    requires f < HIDDEN
    ensures Mag(f) == f
  {
  }

  lemma MagTop()
    ensures Mag(INF) == HIDDEN * Pow2(2046)
  {
    hide Mag, Pow2;
    MagAt(2046, HIDDEN);
  }

  lemma TopAbove(f: nat)
    requires f < HIDDEN && Mag(INF) == HIDDEN * Pow2(2046)
    ensures f * Pow2(52) < Mag(INF)
  {
    hide Mag, Pow2;
    Pow2Mono(52, 2046);
    StrictScale(f, HIDDEN, Pow2(52));
    MulMono(HIDDEN, Pow2(52), Pow2(2046));
  }

  lemma TimesConstant(f: nat, h: nat, p: nat, neg: bool)
    requires Pow2(52) == h
    ensures (if neg then 0 - f else f) * (h * p) == (if neg then 0 - f * Pow2(52) else f * Pow2(52)) * p
  {
    hide Pow2;
    assert f * (h * p) == (f * h) * p;
  }

  lemma SameMag(y: u64, b: u64)
    requires Val(y) == Val(b)
    ensures AbsBits(y) == AbsBits(b)
  {
    hide Mag;
    SignParts(y);
    SignParts(b);
    MagInjective(AbsBits(y), AbsBits(b));
  }

  lemma MagInjective(a: nat, b: nat)
    requires Mag(a) == Mag(b)
    ensures a == b
  {
    if a < b { MagMono(a, b); } else if b < a { MagMono(b, a); }
  }

  lemma NormalRange(y: u64, f: nat)
    requires f > 0 && Mag(AbsBits(y)) == f * Pow2(52)
    ensures Exponent(y) >= 1
  {
    Pow2Table();
    if AbsBits(y) < HIDDEN { MagSubnormal(AbsBits(y)); }
    hide Mag, Pow2;
    assert f * HIDDEN >= HIDDEN;
  }

  /** Products of powers of two add their exponents. */
  lemma ScalePow(m: int, i: nat, j: nat)
    ensures (m * Pow2(i)) * Pow2(j) == m * Pow2(i + j)
  {
    hide Pow2;
    Pow2Add(i, j);
    assert (m * Pow2(i)) * Pow2(j) == m * (Pow2(i) * Pow2(j));
  }

  lemma NormalizeCorrect(x: u64)
    requires IsFinite(x) && !IsZero(x)
    ensures var n := Normalize(x);
            && IsFinite(n.frac) && Sign(n.frac) == Sign(x) && Exponent(n.frac) >= 1
            && Decomposed(AbsBits(x), HIDDEN + Fraction(n.frac), n.exp + Exponent(n.frac) - BIAS)
  {
    hide Mag, Pow2, MulF;
    BelowNormal(x);
    if AbsBits(x) < HIDDEN {
      SubnormalUp(x);
      var y := MulF(x, TWO52);
      NormalDecomposed(y);
      var m, e := HIDDEN + Fraction(y), Exponent(y) - BIAS;
      ScalePow(Mag(AbsBits(x)), 52, 60);
      ScalePow(Mag(AbsBits(x)), 60, 52);
      ScalePow(m, e + 1030, 52);
      SameProduct(Mag(AbsBits(x)) * Pow2(60), m * Pow2(e + 1030), Pow2(52));
    } else {
      ExponentPositive(x);
      NormalDecomposed(x);
    }
  }

  lemma ExponentPositive(x: u64)
    requires AbsBits(x) >= HIDDEN
    ensures Exponent(x) >= 1
  {
  }

  lemma BelowNormal(x: u64)
    ensures LessF(AbsBits(x), HIDDEN) <==> AbsBits(x) < HIDDEN
  {
    hide Mag;
    var a := AbsBits(x);
    assert Val(a) == Mag(a) && Val(HIDDEN) == Mag(HIDDEN);
    if a < HIDDEN { MagMono(a, HIDDEN); } else { MagMono(HIDDEN, a); }
  }

  lemma ReplaceFields(x: u64, e: u64)
    requires 1 <= e < 0x800
    ensures var b := ReplaceExponent(x, e);
            && Sign(b) == Sign(x) <= 1 && Exponent(b) == e && Fraction(b) == Fraction(x)
            && AbsBits(b) == e * HIDDEN + Fraction(x)
            && Mag(AbsBits(b)) == (HIDDEN + Fraction(x)) * Pow2(e - 1)
  {
    hide AndNot64, Or64, Shl64, Mag, Pow2;
    SignParts(x);
    ClearExponent(x);
    SetExponent(Sign(x), e, Fraction(x));
    FieldsOf(Sign(x), e, Fraction(x));
    MagAt(e - 1, HIDDEN + Fraction(x));
  }

  lemma ExponentBitsAre(x: u64)
    ensures ExponentBits(x) == Exponent(x)
  {
    hide BitAnd, Shr64;
    ExponentField(x);
  }

  // ----- Frexp -----

  /** a == b * 2^e as real numbers. */
  ghost predicate IsScaled(a: int, b: int, e: int) {
    if e >= 0 then a == b * Pow2(e) else a * Pow2(-e) == b
  }

  /** Frexp splits a finite non-zero f exactly: f == frac * 2^exp and 1/2 <= |frac| < 1. */
  lemma FrexpExact(f: u64)
    requires IsFinite(f) && !IsZero(f)
    ensures var r := Frexp(f);
            && IsFinite(r.frac) && Sign(r.frac) == Sign(f)
            && Pow2(1073) <= Mag(AbsBits(r.frac)) < Pow2(1074)
            && IsScaled(Val(f), Val(r.frac), r.exp)
  {
    hide Mag, Pow2, Normalize, ReplaceExponent;
    var m, e := FrexpParts(f);
    var r := Frexp(f);
    SignParts(f);
    SignParts(r.frac);
    Pow2Add(52, 1021);
    Pow2Add(53, 1021);
    Pow2Table();
    Scaled(HIDDEN, m, Pow2(1021));
    StrictScale(m, 2 * HIDDEN, Pow2(1021));
    FrexpScale(AbsBits(f), AbsBits(r.frac), m, e);
    if r.exp < 0 { NegScale(Mag(AbsBits(f)), Pow2(-r.exp)); } else { NegScale(Mag(AbsBits(r.frac)), Pow2(r.exp)); }
  }

  lemma FrexpParts(f: u64) returns (m: nat, e: int)
    requires IsFinite(f) && !IsZero(f)
    ensures Decomposed(AbsBits(f), m, e)
    ensures var r := Frexp(f);
            && r.exp == e + 1 && IsFinite(r.frac) && Sign(r.frac) == Sign(f)
            && AbsBits(r.frac) == 1022 * HIDDEN + (m - HIDDEN)
            && Mag(AbsBits(r.frac)) == m * Pow2(1021)
  {
    hide Mag, Pow2, Normalize, ReplaceExponent, Decomposed, ExponentBits;
    NormalizeCorrect(f);
    var n := Normalize(f);
    ExponentBitsAre(n.frac);
    ReplaceFields(n.frac, 1022);
    m, e := HIDDEN + Fraction(n.frac), n.exp + Exponent(n.frac) - BIAS;
  }

  lemma FrexpScale(a: nat, b: nat, m: nat, e: int)
    requires Decomposed(a, m, e) && Mag(b) == m * Pow2(1021)
    ensures IsScaled(Mag(a), Mag(b), e + 1)
  {
    hide Mag, Pow2;
    var c := Pow2(60);
    if e + 1 >= 0 {
      ScalePow(m, 1021, e + 1);
      ScalePow(m, e + 1022, 60);
      SameProduct(Mag(a), Mag(b) * Pow2(e + 1), c);
    } else {
      var k := -(e + 1);
      ScalePow(m, e + 1082, k);
      ScalePow(m, 1021, 60);
      ScalePow(Mag(a), 60, k);
      ScalePow(Mag(a), k, 60);
      SameProduct(Mag(a) * Pow2(k), Mag(b), c);
    }
  }

  // ----- Ldexp -----

  /** r is frac * 2^exp rounded to nearest, ties to even. */
  ghost predicate ScaledRounds(frac: u64, exp: int, r: u64) {
    if exp >= 0 then RoundsTo(Val(frac) * Pow2(exp), 0, r) else RoundsTo(Val(frac), -exp, r)
  }

  /** Ldexp is correctly rounded for every finite fraction and every exponent,
      including gradual underflow and overflow. */
  lemma LdexpCorrect(frac: u64, exp: int)
    requires IsFinite(frac)
    ensures ScaledRounds(frac, exp, Ldexp(frac, exp))
    ensures Sign(Ldexp(frac, exp)) == Sign(frac)
  {
    if IsZero(frac) {
      LdexpZero(frac, exp);
    } else {
      LdexpNonzero(frac, exp);
    }
  }

  lemma LdexpZero(frac: u64, exp: int)
    requires IsZero(frac)
    ensures ScaledRounds(frac, exp, frac)
  {
    MagZero();
    assert Val(frac) == 0;
    hide Pow2, RoundsTo, Mag;
    if exp >= 0 { assert 0 * Pow2(exp) == 0; ZeroRounds(0, frac); } else { ZeroRounds(-exp, frac); }
  }

  lemma LdexpNonzero(frac: u64, exp: int)
    requires IsFinite(frac) && !IsZero(frac)
    ensures ScaledRounds(frac, exp, Ldexp(frac, exp))
    ensures Sign(Ldexp(frac, exp)) == Sign(frac)
  {
    hide Mag, Pow2, Normalize, ReplaceExponent, Decomposed, ExponentBits, ScaledRounds, MulF, WithSign;
    NormalizeCorrect(frac);
    var n := Normalize(frac);
    ExponentBitsAre(n.frac);
    var m, e := HIDDEN + Fraction(n.frac), n.exp + Exponent(n.frac) - BIAS;
    var t := e + exp;
    SignTest(frac);
    WithSignParts(Sign(frac) == 1, 0);
    WithSignParts(Sign(frac) == 1, INF);
    if t < -1075 {
      LdexpTiny(frac, exp, m, e);
    } else if t > 1023 {
      LdexpHuge(frac, exp, m, e);
    } else if t < -1022 {
      ReplaceFields(n.frac, t + 53 + BIAS);
      LdexpSubnormal(frac, exp, m, e, ReplaceExponent(n.frac, t + 53 + BIAS));
    } else {
      ReplaceFields(n.frac, t + BIAS);
      LdexpNormal(frac, exp, m, e, ReplaceExponent(n.frac, t + BIAS));
    }
  }

  lemma SignTest(frac: u64)
    requires !IsZero(frac)
    ensures LessF(frac, 0) <==> Sign(frac) == 1
    ensures Val(frac) < 0 <==> Sign(frac) == 1
    ensures Sign(frac) <= 1
  {
    hide Mag;
    MagPositive(AbsBits(frac));
    MagZero();
    SignParts(frac);
  }

  lemma LdexpTiny(frac: u64, exp: int, m: nat, e: int)
    requires IsFinite(frac) && !IsZero(frac) && Decomposed(AbsBits(frac), m, e) && e + exp < -1075
    ensures ScaledRounds(frac, exp, WithSign(Sign(frac) == 1, 0))
  {
    hide Mag, Pow2, RoundsTo, WithSign;
    var a, s := Mag(AbsBits(frac)), -exp;
    SignTest(frac);
    // 2 * a * 2^60 < 2^54 * 2^(e+1082) <= 2^(s+60)
    Pow2Table();
    StrictScale(m, 2 * HIDDEN, Pow2(e + 1082));
    Pow2Add(54, e + 1082);
    Pow2Mono(e + 1136, s + 60);
    Pow2Add(s, 60);
    HalfDouble(a, Pow2(60));
    HalfDouble(2 * HIDDEN, Pow2(e + 1082));
    CancelScale(Pow2(s), 2 * a, Pow2(60));
    TinyRounds(Val(frac), s);
  }

  lemma TinyRounds(v: int, s: nat)
    requires 2 * Abs(v) < Pow2(s)
    ensures RoundsTo(v, s, WithSign(v < 0, 0))
  {
    MagZero();
    MagStep(0);
    PickAt(Abs(v), s, 0, 0, 0, Pow2(s), false);
    PickedRounds(v, s, 0, 0);
  }

  lemma LdexpHuge(frac: u64, exp: int, m: nat, e: int)
    requires IsFinite(frac) && !IsZero(frac) && Decomposed(AbsBits(frac), m, e) && e + exp > 1023
    ensures ScaledRounds(frac, exp, WithSign(Sign(frac) == 1, INF))
  {
    hide Mag, Pow2, WithSign;
    var a, v := Mag(AbsBits(frac)), Val(frac) * Pow2(exp);
    SignTest(frac);
    if v < 0 { } else { }
    ScaleSign(Val(frac), Pow2(exp));
    AbsScales(Val(frac), Pow2(exp));
    SignParts(frac);
    ScalePow(a, 60, exp);
    ScalePow(a, exp, 60);
    ScalePow(m, e + 1082, exp);
    ScalePow(HIDDEN, 2046, 60);
    Pow2Mono(2106, e + 1082 + exp);
    MulMono(HIDDEN, Pow2(2106), Pow2(e + 1082 + exp));
    Scaled(HIDDEN, m, Pow2(e + 1082 + exp));
    MagTop();
    CancelScale(Mag(INF), Abs(v), Pow2(60));
    MagMono(INF - 1, INF);
    assert Pow2(0) == 1 by { Pow2Table(); }
    assert Overflows(v, 0);
  }

  lemma ScaleSign(x: int, p: nat)
    requires p >= 1
    ensures x * p < 0 <==> x < 0
  {
    if x < 0 { NegScale(-x, p); StrictScale(0, -x, p); } else { ScaleNat(x, p); }
  }

  lemma LdexpNormal(frac: u64, exp: int, m: nat, e: int, b: u64)
    requires IsFinite(frac) && !IsZero(frac) && Decomposed(AbsBits(frac), m, e) && -1022 <= e + exp <= 1023
    requires Sign(b) == Sign(frac) && Exponent(b) == e + exp + BIAS && Mag(AbsBits(b)) == m * Pow2(e + exp + 1022)
    ensures ScaledRounds(frac, exp, MulF(ONE, b)) && Sign(MulF(ONE, b)) == Sign(frac)
  {
    hide Mag, Pow2, RoundsTo, Decomposed, MulF, Val;
    ExponentFinite(b);
    TimesOne(b);
    ScaleValue(frac, exp, m, e, b, e + exp + 1022, 0);
    var r := MulF(ONE, b);
    assert Pow2(0) == 1 by { Pow2Table(); }
    if exp >= 0 {
      ExactIsRounded(Val(frac) * Pow2(exp), 0, r);
    } else {
      ExactIsRounded(Val(frac), -exp, r);
    }
  }

  lemma ExponentFinite(b: u64)
    requires 1 <= Exponent(b) <= 2046
    ensures IsFinite(b) && !IsZero(b)
  {
  }

  lemma TimesOne(b: u64)
    requires IsFinite(b) && !IsZero(b)
    ensures var r := MulF(ONE, b); IsFinite(r) && Val(r) == Val(b) && Sign(r) == Sign(b)
  {
    hide Mag, Pow2, RoundsTo, MulF, Val;
    ConstantValues();
    Pow2Add(52, 1022);
    Pow2Table();
    assert IsZero(ONE) == false;
    MulRounds(ONE, b);
    Commute(Val(ONE), Val(b));
    ExactRounds(Val(ONE) * Val(b), 1074, b, MulF(ONE, b));
    SignOfMul(ONE, b);
    SignParts(b);
  }

  lemma Commute(x: int, y: int)
    ensures x * y == y * x
  {
  }

  /** Val(b) * 2^(c + max(-exp,0)) == Val(frac) * 2^(max(exp,0)), when b has exponent i
      and c = e + exp + 1022 - i. */
  lemma ScaleValue(frac: u64, exp: int, m: nat, e: int, b: u64, i: nat, c: int)
    requires Decomposed(AbsBits(frac), m, e) && Sign(b) == Sign(frac) && Mag(AbsBits(b)) == m * Pow2(i)
    requires c == e + exp + 1022 - i && -60 <= c <= 0
    ensures exp >= 0 ==> Val(b) == (Val(frac) * Pow2(exp)) * Pow2(-c)
    ensures exp < 0 ==> Val(b) * Pow2(-exp) == Val(frac) * Pow2(-c)
  {
    hide Mag, Pow2;
    var a, bb, p := Mag(AbsBits(frac)), Mag(AbsBits(b)), Pow2(60);
    var k := -c;
    SignedScale(a, Pow2(k), Sign(frac) == 1);
    if exp >= 0 {
      ScalePow(a, exp, k);
      ScalePow(a, exp + k, 60);
      ScalePow(a, 60, exp + k);
      ScalePow(m, e + 1082, exp + k);
      ScalePow(m, i, 60);
      SameProduct(bb, (a * Pow2(exp)) * Pow2(k), p);
      SignedScale(a, Pow2(exp), Sign(frac) == 1);
      SignedScale(a * Pow2(exp), Pow2(k), Sign(frac) == 1);
    } else {
      ScalePow(a, k, 60);
      ScalePow(a, 60, k);
      ScalePow(m, e + 1082, k);
      ScalePow(m, i, -exp);
      ScalePow(m, i - exp, 60);
      SameProduct(bb * Pow2(-exp), a * Pow2(k), p);
      SignedScale(bb, Pow2(-exp), Sign(b) == 1);
    }
  }

  lemma SignedScale(a: int, p: nat, neg: bool)
    ensures (if neg then 0 - a else a) * p == if neg then 0 - a * p else a * p
  {
  }

  /** Results below 2^-1022 are formed 53 binary orders higher and scaled down by one
      rounding multiplication. */
  lemma LdexpSubnormal(frac: u64, exp: int, m: nat, e: int, b: u64)
    requires IsFinite(frac) && !IsZero(frac) && Decomposed(AbsBits(frac), m, e) && -1075 <= e + exp < -1022
    requires Sign(b) == Sign(frac) && Exponent(b) == e + exp + 53 + BIAS && Mag(AbsBits(b)) == m * Pow2(e + exp + 1075)
    ensures ScaledRounds(frac, exp, MulF(TWOM53, b)) && Sign(MulF(TWOM53, b)) == Sign(frac)
  {
    hide Mag, Pow2, RoundsTo, Decomposed, MulF, Val;
    ExponentFinite(b);
    var r := MulF(TWOM53, b);
    assert IsZero(TWOM53) == false;
    MulRounds(TWOM53, b);
    SignOfMul(TWOM53, b);
    ConstantValues();
    SignParts(b);
    Pow2Table();
    Pow2Add(52, 969);
    ScaleDown(frac, exp, m, e, b);
    if exp >= 0 {
      SameReal(Val(TWOM53) * Val(b), 1074, Val(frac) * Pow2(exp), 0, r);
    } else {
      SameReal(Val(TWOM53) * Val(b), 1074, Val(frac), -exp, r);
    }
  }

  lemma ScaleDown(frac: u64, exp: int, m: nat, e: int, b: u64)
    requires Decomposed(AbsBits(frac), m, e) && -1075 <= e + exp < -1022 && Sign(b) == Sign(frac)
    requires Mag(AbsBits(b)) == m * Pow2(e + exp + 1075) && Val(TWOM53) == Pow2(1021)
    ensures exp >= 0 ==> (Val(TWOM53) * Val(b)) * Pow2(0) == (Val(frac) * Pow2(exp)) * Pow2(1074)
    ensures exp < 0 ==> (Val(TWOM53) * Val(b)) * Pow2(-exp) == Val(frac) * Pow2(1074)
  {
    hide Mag, Pow2, Val;
    ScaleValue(frac, exp, m, e, b, e + exp + 1075, -53);
    Pow2Table();
    if exp >= 0 {
      ScalePow(Val(frac) * Pow2(exp), 53, 1021);
      Commute(Val(TWOM53), Val(b));
    } else {
      ScalePow(Val(frac), 53, 1021);
      Rotate(Pow2(1021), Val(b), Pow2(-exp));
    }
  }

  lemma Rotate(p: int, x: int, q: int)
    ensures (p * x) * q == (x * q) * p
  {
  }

  /** Ldexp undoes Frexp. */
  lemma LdexpInvertsFrexp(f: u64)
    requires IsFinite(f)
    ensures var r := Frexp(f); Val(Ldexp(r.frac, r.exp)) == Val(f) && Sign(Ldexp(r.frac, r.exp)) == Sign(f)
  {
    hide Mag, Pow2, RoundsTo, Ldexp;
    if IsZero(f) {
      LdexpCorrect(f, 0);
      LdexpOfZero(f);
    } else {
      hide Frexp, Val;
      FrexpExact(f);
      var r := Frexp(f);
      LdexpCorrect(r.frac, r.exp);
      var b := Ldexp(r.frac, r.exp);
      assert Pow2(0) == 1 by { Pow2Table(); }
      if r.exp >= 0 {
        ExactRounds(Val(r.frac) * Pow2(r.exp), 0, f, b);
      } else {
        ExactRounds(Val(r.frac), -r.exp, f, b);
      }
    }
  }

  lemma LdexpOfZero(f: u64)
    requires IsZero(f)
    ensures Frexp(f) == FracExp(f, 0) && Ldexp(f, 0) == f
  {
  }

  // ----- Mod: one subtraction -----

  /** The shift chosen by Mod brings d to the last binary order not above r. */
  lemma ModShift(r: nat, d: nat, mr: nat, er: int, md: nat, ed: int) returns (k: nat)
    requires Decomposed(r, mr, er) && Decomposed(d, md, ed) && Mag(d) <= Mag(r)
    ensures k == er - ed - (if mr < md then 1 else 0)
    ensures Mag(d) * Pow2(k) <= Mag(r) < 2 * (Mag(d) * Pow2(k))
  {
    hide Mag, Pow2;
    var c := Pow2(60);
    var lower := if mr < md then 1 else 0;
    if er - ed - lower < 0 {
      SmallerOrder(r, d, mr, er, md, ed);
    }
    k := er - ed - lower;
    var t := Mag(d) * Pow2(k);
    ScalePow(Mag(d), k, 60);
    ScalePow(Mag(d), 60, k);
    ScalePow(md, ed + 1082, k);
    var p := Pow2(ed + 1082 + k);
    assert t * c == md * p;
    if mr < md {
      DoubleProduct(mr, er + 1082);
      Pow2Double(er + 1081);
      assert er + 1082 == (ed + 1082 + k) + 1;
      assert Mag(r) * c == mr * (2 * p);
      HalfDouble(mr, p);
      Scaled(md, 2 * mr, p);
      StrictScale(2 * mr, 2 * md, p);
    } else {
      assert Mag(r) * c == mr * p;
      Scaled(md, mr, p);
      StrictScale(mr, 2 * md, p);
    }
    HalfDouble(md, p);
    HalfDouble(t, c);
    CancelScale(t, Mag(r), c);
    CancelScale(2 * t, Mag(r), c);
  }

  lemma Pow2Double(n: nat)
    ensures Pow2(n + 1) == 2 * Pow2(n)
  {
  }

  lemma SmallerOrder(r: nat, d: nat, mr: nat, er: int, md: nat, ed: int)
    requires Decomposed(r, mr, er) && Decomposed(d, md, ed)
    requires er < ed || (er == ed && mr < md)
    ensures Mag(r) < Mag(d)
  {
    hide Mag, Pow2;
    if er < ed {
      Pow2Mono(er + 1083, ed + 1082);
      Pow2Double(er + 1082);
      StrictScale(mr, 2 * HIDDEN, Pow2(er + 1082));
      HalfDouble(HIDDEN, Pow2(er + 1082));
      MulMono(HIDDEN, 2 * Pow2(er + 1082), Pow2(ed + 1082));
      Scaled(HIDDEN, md, Pow2(ed + 1082));
    } else {
      StrictScale(mr, md, Pow2(er + 1082));
    }
    CancelScale(Mag(d), Mag(r), Pow2(60));
  }

  /** Within a factor of two below r, subtraction is exact. */
  lemma ExactDifference(r: nat, t: nat) returns (a: nat)
    requires t <= r < INF && Mag(r) < 2 * Mag(t)
    ensures a < INF && Mag(a) == Mag(r) - Mag(t)
  {
    hide Mag, Pow2;
    var q, e := MagParts(t);
    var qr, er := MagParts(r);
    OrderOfParts(t, q, e, r, qr, er);
    Pow2Add(e, er - e);
    var w := qr * Pow2(er - e);
    assert Mag(r) == w * Pow2(e) by { Commute(Pow2(e), Pow2(er - e)); Regroup(qr, Pow2(er - e), Pow2(e)); }
    ScaleNat(qr, Pow2(er - e));
    MagMono(t, r);
    CancelScale(q, w, Pow2(e));
    var z := w - q;
    assert z * Pow2(e) == w * Pow2(e) - q * Pow2(e);
    CancelScale(q, z, Pow2(e));
    MagMono(t, INF);
    a := Representable(z, e);
  }

  lemma OrderOfParts(t: nat, q: nat, e: nat, r: nat, qr: nat, er: nat)
    requires t <= r && t == e * HIDDEN + q && q < 2 * HIDDEN && (e == 0 || q >= HIDDEN)
    requires r == er * HIDDEN + qr && qr < 2 * HIDDEN && (er == 0 || qr >= HIDDEN)
    ensures e <= er
  {
  }

  lemma ModStep(r: u64, d: u64)
    requires 0 < r < INF && 0 < d < INF && Val(r) == Mag(r) && Val(d) == Mag(d) && Val(d) <= Val(r) && Mag(d) > 0
    ensures var rf, df := Frexp(r), Frexp(d);
            var r' := SubF(r, Ldexp(d, rf.exp - (if LessF(rf.frac, df.frac) then 1 else 0) - df.exp));
            && IsFinite(r') && Sign(r') == 0 && Val(r') == Mag(AbsBits(r'))
            && Mag(AbsBits(r')) < Mag(r)
            && Mag(AbsBits(r')) % Mag(d) == Mag(r) % Mag(d)
  {
    hide Mag, Pow2, Frexp, Ldexp, SubF, Val, LessF;
    var k := ModExponent(r, d);
    var t := ExactLdexp(d, k, r);
    MagOrder(t, r);
    var a := ExactDifference(r, t);
    ExactSub(r, Ldexp(d, k), a);
    DifferenceMod(Mag(r), Mag(d), Pow2(k));
  }

  /** The exponent passed to Ldexp in one step of Mod. */
  lemma ModExponent(r: u64, d: u64) returns (k: nat)
    requires 0 < r < INF && 0 < d < INF && Val(r) == Mag(r) && Val(d) == Mag(d) && Val(d) <= Val(r)
    ensures var rf, df := Frexp(r), Frexp(d);
            k == rf.exp - (if LessF(rf.frac, df.frac) then 1 else 0) - df.exp
    ensures Mag(d) * Pow2(k) <= Mag(r) < 2 * (Mag(d) * Pow2(k)) && Mag(d) > 0
  {
    hide Mag, Pow2, Frexp, Val, LessF, Decomposed;
    PlainBits(r);
    PlainBits(d);
    MagPositive(d);
    var mr, er := FrexpParts(r);
    var md, ed := FrexpParts(d);
    FracOrder(Frexp(r).frac, Frexp(d).frac, mr, md);
    k := ModShift(r, d, mr, er, md, ed);
  }

  lemma DifferenceMod(r: nat, d: nat, p: nat)
    requires d >= 1 && p >= 1 && d * p <= r
    ensures (r - d * p) % d == r % d && r - d * p < r
  {
    SubMultiple(r, d, p);
    MulMono(d, 1, p);
  }

  lemma PlainBits(r: u64)
    requires 0 < r < INF
    ensures AbsBits(r) == r && Sign(r) == 0 && IsFinite(r) && !IsZero(r) && !IsInf(r) && !IsNaN(r)
  {
  }

  lemma FracOrder(rf: u64, df: u64, mr: nat, md: nat)
    requires Sign(rf) == 0 && Sign(df) == 0
    requires AbsBits(rf) == 1022 * HIDDEN + (mr - HIDDEN) && AbsBits(df) == 1022 * HIDDEN + (md - HIDDEN)
    ensures LessF(rf, df) <==> mr < md
  {
    hide Mag;
    if mr < md { MagMono(AbsBits(rf), AbsBits(df)); } else { MagMono(AbsBits(df), AbsBits(rf)); }
  }

  lemma MagOrder(t: nat, r: nat)
    requires Mag(t) <= Mag(r)
    ensures t <= r
  {
    if r < t { MagMono(r, t); }
  }

  /** d * 2^k is computed exactly when it does not exceed the finite r. */
  lemma ExactLdexp(d: u64, k: nat, r: u64) returns (t: nat)
    requires 0 < d < INF && 0 < r < INF && Mag(d) * Pow2(k) <= Mag(r)
    ensures t < INF && Mag(t) == Mag(d) * Pow2(k) && Val(Ldexp(d, k)) == Mag(t) && IsFinite(Ldexp(d, k))
  {
    hide Mag, Pow2, Ldexp, RoundsTo;
    PlainBits(d);
    var q, e := MagParts(d);
    ScalePow(q, e, k);
    MagMono(r, INF);
    t := Representable(q, e + k);
    LdexpCorrect(d, k);
    PlainValue(t);
    PlainValue(d);
    assert Pow2(0) == 1 by { Pow2Table(); }
    ExactRounds(Val(d) * Pow2(k), 0, t, Ldexp(d, k));
  }

  lemma PlainValue(t: u64)
    requires t < INF
    ensures Val(t) == Mag(t) && IsFinite(t) && AbsBits(t) == t
  {
  }

  lemma ExactSub(r: u64, l: u64, a: nat)
    requires a < INF && Val(r) - Val(l) == Mag(a)
    ensures var s := SubF(r, l);
            IsFinite(s) && Sign(s) == 0 && Val(s) == Mag(AbsBits(s)) && Mag(AbsBits(s)) == Mag(a)
  {
    hide Mag, RoundsTo, RoundMag;
    var v := Val(r) - Val(l);
    RoundIsNearest(v, 0);
    PlainValue(a);
    assert v * Pow2(0) == v by { Pow2Table(); }
    ExactRounds(v, 0, a, SubF(r, l));
    WithSignParts(false, RoundMag(Abs(v), 0));
  }

  lemma SubMultiple(r: nat, d: nat, p: nat)
    requires d >= 1 && d * p <= r
    ensures (r - d * p) % d == r % d
  {
    DivModParts(r, d);
    var q, rem := r / d, r % d;
    assert (q - p) * d == q * d - d * p;
    DivModUnique(r - d * p, d, q - p, rem);
  }
}
