/** bytes.LastIndex: Rabin-Karp search from the end, with a 32-bit rolling hash. */
module LastIndex {

  import opened Basics

  const M: nat := 0x1_0000_0000
  const PRIMERK: u32 := 16777619

  // ----- specification -----

  predicate MatchAt(s: seq<Byte>, sep: seq<Byte>, i: int) {
    0 <= i <= |s| - |sep| && s[i..i + |sep|] == sep
  }

  /** r is the greatest match position, or -1 when there is none. */
  ghost predicate IsLastMatch(s: seq<Byte>, sep: seq<Byte>, r: int) {
    && (r == -1 || MatchAt(s, sep, r))
    && (forall i :: MatchAt(s, sep, i) ==> i <= r)
  }

  /** The hash of s reversed, as an unbounded polynomial in PRIMERK. */
  function Poly(s: seq<Byte>): nat {
    if |s| == 0 then 0 else Poly(s[1..]) * PRIMERK + s[0]
  }

  function Power(b: nat, n: nat): nat { if n == 0 then 1 else b * Power(b, n - 1) }

  // ----- arithmetic modulo 2^32 -----

  lemma ModEq(a: int, b: int, k: int)
    requires a == b + k * M
    ensures a % M == b % M
  {
  }

  /** h*P + c in 32 bits, when h stands for x. */
  lemma PushHash(x: nat, h: u32, c: Byte)
    requires h == x % M
    ensures (h * PRIMERK % M + c) % M == (x * PRIMERK + c) % M
  {
    var k := x / M;
    var t := h * PRIMERK;
    assert x * PRIMERK + c == t % M + c + (k * PRIMERK + t / M) * M;
    ModEq(x * PRIMERK + c, t % M + c, k * PRIMERK + t / M);
  }

  /** Dropping the byte d, scaled by the power p that pow stands for. */
  lemma DropHash(x: int, y: u32, p: nat, pow: u32, d: Byte)
    requires y == x % M && pow == p % M
    ensures (y - pow * d % M) % M == (x - p * d) % M
  {
    var kx, kp, t := x / M, p / M, pow * d;
    assert p * d == t + (kp * d) * M by { assert p == pow + kp * M; }
    assert x == y + kx * M;
    assert t == t % M + (t / M) * M;
    ModEq(x - p * d, y - t % M, kx - kp * d - t / M);
  }

  lemma MulMod(a: nat, b: nat, x: u32, y: u32)
    requires x == a % M && y == b % M
    ensures x * y % M == a * b % M
  {
    var ka, kb := a / M, b / M;
    assert a == x + ka * M && b == y + kb * M;
    assert a * b == x * y + (ka * y + x * kb + ka * kb * M) * M;
    ModEq(a * b, x * y, ka * y + x * kb + ka * kb * M);
  }

  lemma {:induction false} PowerSquare(b: nat, n: nat)
    ensures Power(b * b, n) == Power(b, 2 * n)
  {
    if n > 0 {
      PowerSquare(b, n - 1);
      assert Power(b, 2 * n) == b * (b * Power(b, 2 * (n - 1)));
      assert (b * b) * Power(b, 2 * (n - 1)) == b * (b * Power(b, 2 * (n - 1)));
    }
  }

  // ----- the rolling step -----

  /** The last byte of the window carries the highest power. */
  lemma {:induction false} PolyLast(s: seq<Byte>, c: Byte)
    ensures Poly(s + [c]) == Poly(s) + c * Power(PRIMERK, |s|)
  {
    if |s| == 0 {
      assert s + [c] == [c];
      assert Poly([c]) == Poly([]) * PRIMERK + c;
    } else {
      PolyLast(s[1..], c);
      assert (s + [c])[1..] == s[1..] + [c];
      var q := Power(PRIMERK, |s| - 1);
      assert c * (PRIMERK * q) == (c * q) * PRIMERK;
    }
  }

  /** Sliding the window one byte to the left. */
  lemma RollPoly(s: seq<Byte>, i: nat, n: nat)
    requires n >= 1 && i + n < |s|
    ensures Poly(s[i..i + n]) == Poly(s[i + 1..i + 1 + n]) * PRIMERK + s[i] - Power(PRIMERK, n) * s[i + n]
  {
    var mid := s[i + 1..i + n];
    assert s[i + 1..i + 1 + n] == mid + [s[i + n]];
    assert s[i..i + n][1..] == mid;
    assert Poly(s[i..i + n]) == Poly(mid) * PRIMERK + s[i];
    assert Power(PRIMERK, n) == PRIMERK * Power(PRIMERK, n - 1);
    PolyLast(mid, s[i + n]);
    hide Poly, Power;
    RollSum(Poly(mid), s[i], s[i + n], Power(PRIMERK, n - 1));
  }

  lemma RollSum(m: nat, c: Byte, d: Byte, q: nat)
    ensures m * PRIMERK + c == (m + d * q) * PRIMERK + c - (PRIMERK * q) * d
  {
    assert (d * q) * PRIMERK == (PRIMERK * q) * d;
  }

  // ----- the methods -----

  method HashStrRevBytes(sep: seq<Byte>) returns (hash: u32, pow: u32)
    ensures hash == Poly(sep) % M && pow == Power(PRIMERK, |sep|) % M
  {
    hash := 0;
    var i := |sep|;
    assert sep[|sep|..] == [];
    while i > 0
      invariant 0 <= i <= |sep| && hash == Poly(sep[i..]) % M
    {
      i := i - 1;
      assert sep[i..][1..] == sep[i + 1..];
      PushHash(Poly(sep[i + 1..]), hash, sep[i]);
      hash := (hash * PRIMERK % M + sep[i]) % M;
    }
    assert sep[0..] == sep;
    pow := RepeatedSquaring(|sep|);
  }

  /** The square-and-multiply loop at the end of HashStrRevBytes. */
  method RepeatedSquaring(n: nat) returns (pow: u32)
    ensures pow == Power(PRIMERK, n) % M
  {
    PowerEnds(PRIMERK, n);
    hide Power;
    pow := 1;
    var sq: u32 := PRIMERK;
    var i := n;
    ghost var p: nat := 1; // the numbers pow and sq stand for
    ghost var q: nat := PRIMERK;
    while i > 0
      invariant pow == p % M && sq == q % M && p * Power(q, i) == Power(PRIMERK, n)
    {
      SquareStep(p, q, i);
      if i % 2 != 0 {
        MulMod(p, q, pow, sq);
        pow := pow * sq % M;
        p := p * q;
      }
      MulMod(q, q, sq, sq);
      sq := sq * sq % M;
      q := q * q;
      i := i / 2;
    }
    PowerEnds(q, 0);
  }

  lemma PowerEnds(b: nat, n: nat)
    ensures Power(b, 0) == 1 && 1 * Power(b, n) == Power(b, n)
  {
  }

  lemma SquareStep(p: nat, q: nat, i: nat)
    requires i > 0
    ensures i % 2 != 0 ==> (p * q) * Power(q * q, i / 2) == p * Power(q, i)
    ensures i % 2 == 0 ==> p * Power(q * q, i / 2) == p * Power(q, i)
  {
    PowerSquare(q, i / 2);
    if i % 2 != 0 {
      assert i == 2 * (i / 2) + 1;
      var r := Power(q, 2 * (i / 2));
      assert Power(q, i) == q * r;
      assert (p * q) * r == p * (q * r);
    } else {
      assert i == 2 * (i / 2);
    }
  }

  method LastIndexByte(s: seq<Byte>, c: Byte) returns (r: int)
    ensures IsLastMatch(s, [c], r)
  {
    var i := |s| - 1;
    while i >= 0
      invariant -1 <= i < |s|
      invariant forall j :: i < j < |s| ==> s[j] != c
    {
      if s[i] == c {
        ByteMatches(s, c);
        return i;
      }
      i := i - 1;
    }
    ByteMatches(s, c);
    r := -1;
  }

  lemma ByteMatches(s: seq<Byte>, c: Byte)
    ensures forall i :: MatchAt(s, [c], i) <==> 0 <= i < |s| && s[i] == c
  {
    forall i | 0 <= i < |s|
      ensures s[i..i + 1] == [s[i]]
    {
    }
    forall i | MatchAt(s, [c], i)
      ensures s[i] == c
    {
      assert s[i..i + 1][0] == s[i];
    }
  }

  /** The hash of the last window. */
  method HashTail(s: seq<Byte>, last: nat) returns (h: u32)
    requires last <= |s|
    ensures h == Poly(s[last..]) % M
  {
    h := 0;
    var i := |s| - 1;
    assert s[|s|..] == [];
    while i >= last
      invariant last - 1 <= i < |s| && h == Poly(s[i + 1..]) % M
    {
      assert s[i..][1..] == s[i + 1..];
      PushHash(Poly(s[i + 1..]), h, s[i]);
      h := (h * PRIMERK % M + s[i]) % M;
      i := i - 1;
    }
  }

  /** LastIndex: four short cases, then the search with the rolled hash. */
  method Search(s: seq<Byte>, sep: seq<Byte>) returns (r: int)
    ensures IsLastMatch(s, sep, r)
  {
    var n := |sep|;
    if n == 0 {
      return |s|;
    }
    if n == 1 {
      r := LastIndexByte(s, sep[0]);
      assert sep == [sep[0]];
      return;
    }
    if n == |s| {
      assert s[0..0 + n] == s;
      return if s == sep then 0 else -1;
    }
    if n > |s| {
      return -1;
    }
    r := SearchRolling(s, sep);
  }

  /** Rabin-Karp search from the end of the string. */
  method SearchRolling(s: seq<Byte>, sep: seq<Byte>) returns (r: int)
    requires 1 < |sep| < |s|
    ensures IsLastMatch(s, sep, r)
  {
    hide Poly, Power, MatchAt;
    var n := |sep|;
    var hashss, pow := HashStrRevBytes(sep);
    var last := |s| - n;
    var h := HashTail(s, last);
    MatchesEndBefore(s, sep);
    assert s[last..] == s[last..last + n];
    if h == hashss && s[last..] == sep {
      Found(s, sep, last);
      return last;
    }
    NoMatch(s, sep, last, h, hashss);
    var i := last - 1;
    while i >= 0
      invariant -1 <= i < last
      invariant h == Poly(s[i + 1..i + 1 + n]) % M
      invariant forall j :: MatchAt(s, sep, j) ==> j <= i
    {
      ghost var h0 := h;
      h := h * PRIMERK % M;
      h := (h + s[i]) % M;
      h := (h - pow * s[i + n] % M) % M;
      RollHash(s, i, n, h0, pow);
      if h == hashss && s[i..i + n] == sep {
        Found(s, sep, i);
        return i;
      }
      NoMatch(s, sep, i, h, hashss);
      i := i - 1;
    }
    forall j | MatchAt(s, sep, j)
      ensures false
    {
      MatchNonNegative(s, sep, j);
    }
    r := -1;
  }

  /** The 32-bit update turns the hash of one window into the hash of the next. */
  lemma RollHash(s: seq<Byte>, i: nat, n: nat, h: u32, pow: u32)
    requires n >= 1 && i + n < |s|
    requires h == Poly(s[i + 1..i + 1 + n]) % M && pow == Power(PRIMERK, n) % M
    ensures ((h * PRIMERK % M + s[i]) % M - pow * s[i + n] % M) % M == Poly(s[i..i + n]) % M
  {
    RollPoly(s, i, n);
    hide Poly, Power;
    var x: nat := Poly(s[i + 1..i + 1 + n]);
    PushHash(x, h, s[i]);
    DropHash(x * PRIMERK + s[i], (h * PRIMERK % M + s[i]) % M, Power(PRIMERK, n), pow, s[i + n]);
  }

  lemma MatchesEndBefore(s: seq<Byte>, sep: seq<Byte>)
    ensures forall j :: MatchAt(s, sep, j) ==> j <= |s| - |sep|
  {
  }

  lemma MatchNonNegative(s: seq<Byte>, sep: seq<Byte>, j: int)
    requires MatchAt(s, sep, j)
    ensures j >= 0
  {
  }

  lemma Found(s: seq<Byte>, sep: seq<Byte>, i: nat)
    requires i + |sep| <= |s| && s[i..i + |sep|] == sep
    ensures MatchAt(s, sep, i)
  {
  }

  /** Unequal hashes rule a match out, and equal hashes are checked byte by byte. */
  lemma NoMatch(s: seq<Byte>, sep: seq<Byte>, i: nat, h: u32, hashss: u32)
    requires i + |sep| <= |s| && h == Poly(s[i..i + |sep|]) % M && hashss == Poly(sep) % M
    requires !(h == hashss && s[i..i + |sep|] == sep)
    ensures !MatchAt(s, sep, i)
  {
  }

  /** The specification has exactly one answer. */
  lemma LastMatchUnique(s: seq<Byte>, sep: seq<Byte>, a: int, b: int)
    requires IsLastMatch(s, sep, a) && IsLastMatch(s, sep, b)
    ensures a == b
  {
    if a != -1 { assert MatchAt(s, sep, a); }
    if b != -1 { assert MatchAt(s, sep, b); }
  }
}
