/** UTF-8 as RFC 3629 section 3 defines it, with the error conventions of unicode/utf8. */
module Utf8 {
  import opened Basics
  import Words

  type Rune = x: int | -0x8000_0000 <= x < 0x8000_0000

  const RUNE_ERROR: Rune := 0xFFFD
  const MAX_RUNE: Rune := 0x10FFFF

  /** Unicode scalar values: surrogates are not characters. */
  predicate ValidRune(r: int) {
    0 <= r < 0xD800 || 0xDFFF < r <= MAX_RUNE
  }

  /** The 1 to 4 octets of a character; anything else is encoded as U+FFFD. */
  function EncodeRune(r: int): (e: Bytes)
    ensures 1 <= |e| <= 4 && (|e| == 1 <==> 0 <= r < 0x80)
  {
    if !ValidRune(r) then [0xEF, 0xBF, 0xBD]
    else if r < 0x80 then [r]
    else if r < 0x800 then [0xC0 + r / 64, 0x80 + r % 64]
    else if r < 0x10000 then [0xE0 + r / 4096, 0x80 + r / 64 % 64, 0x80 + r % 64]
    else [0xF0 + r / 262144, 0x80 + r / 4096 % 64, 0x80 + r / 64 % 64, 0x80 + r % 64]
  }

  predicate Tail(b: Byte) { 0x80 <= b < 0xC0 }

  /** utf8.DecodeRune: the character at the front and its width, or U+FFFD and width 1. */
  function DecodeRune(s: Bytes): (r: (Rune, nat))
    ensures r.1 <= 4 && r.1 <= |s| && (s != [] ==> r.1 >= 1)
  {
    if |s| == 0 then (RUNE_ERROR, 0)
    else if s[0] < 0x80 then (s[0], 1)
    else if 0xC2 <= s[0] < 0xE0 && |s| >= 2 && Tail(s[1]) then
      (Sextets(0, 0, s[0] - 0xC0, s[1] - 0x80), 2)
    else if 0xE0 <= s[0] < 0xF0 && |s| >= 3 && Second(s[0], s[1]) && Tail(s[2]) then
      (Sextets(0, s[0] - 0xE0, s[1] - 0x80, s[2] - 0x80), 3)
    else if 0xF0 <= s[0] < 0xF5 && |s| >= 4 && Second(s[0], s[1]) && Tail(s[2]) && Tail(s[3]) then
      (Sextets(s[0] - 0xF0, s[1] - 0x80, s[2] - 0x80, s[3] - 0x80), 4)
    else (RUNE_ERROR, 1)
  }

  /** Four base-64 digits. */
  function Sextets(a: int, b: int, c: int, d: int): int {
    a * 262144 + b * 4096 + c * 64 + d
  }

  /** The second octet is narrower after E0, ED, F0 and F4: no overlong forms, no surrogates,
      nothing above U+10FFFF. */
  predicate Second(a: Byte, b: Byte) {
    if a == 0xE0 then 0xA0 <= b < 0xC0
    else if a == 0xED then 0x80 <= b < 0xA0
    else if a == 0xF0 then 0x90 <= b < 0xC0
    else if a == 0xF4 then 0x80 <= b < 0x90
    else Tail(b)
  }

  lemma SextetsOf(r: nat)
    ensures r == Sextets(r / 262144, r / 4096 % 64, r / 64 % 64, r % 64)
    ensures r < 262144 ==> r / 262144 == 0 && r / 4096 % 64 == r / 4096
    ensures r < 4096 ==> r / 4096 == 0 && r / 64 % 64 == r / 64
  {
    var q, p, o := r / 64, r / 4096, r / 262144;
    assert q == p * 64 + q % 64;
    assert p == o * 64 + p % 64;
  }

  lemma OfSextets(a: nat, b: nat, c: nat, d: nat)
    requires b < 64 && c < 64 && d < 64
    ensures
      var r := Sextets(a, b, c, d);
      r / 262144 == a && r / 4096 == a * 64 + b && r / 4096 % 64 == b && r / 64 % 64 == c && r % 64 == d
  {
    var r := Sextets(a, b, c, d);
    Words.DivModUnique(r, 64, a * 4096 + b * 64 + c, d);
    Words.DivModUnique(r, 4096, a * 64 + b, c * 64 + d);
    Words.DivModUnique(r, 262144, a, b * 4096 + c * 64 + d);
    Words.DivModUnique(a * 4096 + b * 64 + c, 64, a * 64 + b, c);
    Words.DivModUnique(a * 64 + b, 64, a, b);
  }

  /** Decoding undoes encoding, whatever follows. */
  lemma DecodeEncoded(r: int, rest: Bytes)
    requires ValidRune(r)
    ensures DecodeRune(EncodeRune(r) + rest) == (r, |EncodeRune(r)|)
  {
    var e := EncodeRune(r);
    SextetsOf(r);
    FirstBytes(e, rest);
    hide Sextets;
  }

  lemma FirstBytes(e: Bytes, rest: Bytes)
    ensures forall k :: 0 <= k < |e| ==> (e + rest)[k] == e[k]
  {
  }

  /** A decoded character of more than one octet, or an ASCII one, was encoded there. */
  lemma EncodeDecoded(s: Bytes)
    requires s != []
    ensures
      var (r, n) := DecodeRune(s);
      n > 1 || s[0] < 0x80 ==> ValidRune(r) && s[..n] == EncodeRune(r)
    ensures
      var (r, n) := DecodeRune(s);
      n == 1 && s[0] >= 0x80 ==> r == RUNE_ERROR
  {
    var (r, n) := DecodeRune(s);
    if n == 2 {
      EncodeTwo(s[0] - 0xC0, s[1] - 0x80);
      assert s[..2] == [s[0], s[1]];
    } else if n == 3 {
      EncodeThree(s[0], s[1], s[2] - 0x80);
      assert s[..3] == [s[0], s[1], s[2]];
    } else if n == 4 {
      EncodeFour(s[0], s[1], s[2] - 0x80, s[3] - 0x80);
      assert s[..4] == [s[0], s[1], s[2], s[3]];
    }
  }

  lemma EncodeTwo(c: nat, d: nat)
    requires 2 <= c < 32 && d < 64
    ensures EncodeRune(Sextets(0, 0, c, d)) == [0xC0 + c, 0x80 + d] && ValidRune(Sextets(0, 0, c, d))
  {
    OfSextets(0, 0, c, d);
  }

  lemma EncodeThree(s0: Byte, s1: Byte, d: nat)
    requires 0xE0 <= s0 < 0xF0 && Second(s0, s1) && d < 64
    ensures
      var r := Sextets(0, s0 - 0xE0, s1 - 0x80, d);
      EncodeRune(r) == [s0, s1, 0x80 + d] && ValidRune(r)
  {
    OfSextets(0, s0 - 0xE0, s1 - 0x80, d);
  }

  lemma EncodeFour(s0: Byte, s1: Byte, c: nat, d: nat)
    requires 0xF0 <= s0 < 0xF5 && Second(s0, s1) && c < 64 && d < 64
    ensures
      var r := Sextets(s0 - 0xF0, s1 - 0x80, c, d);
      EncodeRune(r) == [s0, s1, 0x80 + c, 0x80 + d] && ValidRune(r)
  {
    OfSextets(s0 - 0xF0, s1 - 0x80, c, d);
  }

  /** A character encoded at the front is the one that is decoded, so U+FFFD of width 1 means
      that there is none. */
  lemma RuneAtFront(s: Bytes, r: int)
    requires ValidRune(r) && EncodeRune(r) <= s
    ensures DecodeRune(s) == (r, |EncodeRune(r)|)
  {
    hide Sextets, Second;
    var e := EncodeRune(r);
    DecodeEncoded(r, s[|e|..]);
    assert s == e + s[|e|..];
  }
}
