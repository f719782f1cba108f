/** Tokens of RFC 2045 section 5.1 and the white space of unicode.IsSpace. */
module Grammar {
  import opened Basics
  import opened Utf8

  /** "tspecials": ( ) < > @ , ; : \ " / [ ] ? = */
  predicate IsTSpecial(b: Byte) {
    b in {40, 41, 60, 62, 64, 44, 59, 58, 92, 34, 47, 91, 93, 63, 61}
  }

  predicate IsTokenChar(b: Byte) {
    0x20 < b < 0x7F && !IsTSpecial(b)
  }

  predicate IsToken(s: Bytes) {
    s != [] && forall k :: 0 <= k < |s| ==> IsTokenChar(s[k])
  }

  /** The length of the run of token characters at the front. */
  function TokenEnd(v: Bytes): (n: nat)
    ensures n <= |v| && (n < |v| ==> !IsTokenChar(v[n]))
    ensures forall k :: 0 <= k < n ==> IsTokenChar(v[k])
  {
    if v != [] && IsTokenChar(v[0]) then
      assert forall k :: 1 <= k < |v| ==> v[k] == v[1..][k - 1];
      1 + TokenEnd(v[1..])
    else 0
  }

  lemma TokenEndIs(v: Bytes, n: nat)
    requires n <= |v| && (n < |v| ==> !IsTokenChar(v[n]))
    requires forall k :: 0 <= k < n ==> IsTokenChar(v[k])
    ensures TokenEnd(v) == n
  {
    hide TokenEnd, IsTokenChar;
  }

  /** consumeToken: the token at the front and the rest. */
  function ConsumeToken(v: Bytes): (r: (Bytes, Bytes))
    ensures r.0 + r.1 == v
  {
    (v[..TokenEnd(v)], v[TokenEnd(v)..])
  }

  /** A token ends where something else begins. */
  lemma ConsumeOne(token: Bytes, rest: Bytes)
    requires IsToken(token) && (rest != [] ==> !IsTokenChar(rest[0]))
    ensures ConsumeToken(token + rest) == (token, rest)
  {
    hide IsTokenChar;
    assert forall k :: 0 <= k < |token| ==> (token + rest)[k] == token[k];
    TokenEndIs(token + rest, |token|);
  }

  predicate IsSpace(r: Rune) {
    9 <= r <= 13 || r == 32 || r == 0x85 || r == 0xA0 || r == 0x1680 || 0x2000 <= r <= 0x200A
    || r == 0x2028 || r == 0x2029 || r == 0x202F || r == 0x205F || r == 0x3000
  }

  /** strings.TrimLeftFunc(v, unicode.IsSpace) */
  function TrimLeft(v: Bytes): (t: Bytes)
    ensures |t| <= |v|
    ensures t != [] ==> !IsSpace(DecodeRune(t).0)
  {
    if v != [] && IsSpace(DecodeRune(v).0) then TrimLeft(v[DecodeRune(v).1..]) else v
  }

  /** The width of the white space character at the end, or 0. */
  function LastSpace(v: Bytes): (k: nat)
    ensures k <= |v| && k <= 3
  {
    if |v| >= 1 && DecodeRune(v[|v| - 1..]).1 == 1 && IsSpace(DecodeRune(v[|v| - 1..]).0) then 1
    else if |v| >= 2 && DecodeRune(v[|v| - 2..]).1 == 2 && IsSpace(DecodeRune(v[|v| - 2..]).0) then 2
    else if |v| >= 3 && DecodeRune(v[|v| - 3..]).1 == 3 && IsSpace(DecodeRune(v[|v| - 3..]).0) then 3
    else 0
  }

  function TrimRight(v: Bytes): Bytes {
    if LastSpace(v) == 0 then v else TrimRight(v[..|v| - LastSpace(v)])
  }

  /** strings.TrimSpace */
  function TrimSpace(v: Bytes): Bytes { TrimRight(TrimLeft(v)) }

  predicate Graphic(b: Byte) { 0x20 < b < 0x7F }

  /** Nothing to trim in front of or behind a visible ASCII character. */
  lemma NoTrimLeft(v: Bytes)
    requires v == [] || Graphic(v[0])
    ensures TrimLeft(v) == v
  {
  }

  lemma TrimOne(v: Bytes)
    requires v != [] && v[0] == 32 && (|v| == 1 || Graphic(v[1]))
    ensures TrimLeft(v) == v[1..]
  {
    NoTrimLeft(v[1..]);
  }

  lemma NoTrim(v: Bytes)
    requires v != [] && Graphic(v[0]) && Graphic(v[|v| - 1])
    ensures TrimSpace(v) == v
  {
    NoTrimLeft(v);
    NoLastSpace(v);
    hide LastSpace, TrimLeft;
  }

  /** A character of several bytes does not end in an ASCII byte. */
  lemma WideEnd(t: Bytes)
    requires |t| > 1 && DecodeRune(t).1 == |t|
    ensures t[|t| - 1] >= 0x80
  {
    hide Sextets;
  }

  lemma NoLastSpace(v: Bytes)
    requires v != [] && Graphic(v[|v| - 1])
    ensures LastSpace(v) == 0
  {
    LastOne(v);
    hide DecodeRune;
    if |v| >= 2 && DecodeRune(v[|v| - 2..]).1 == 2 { WideEnd(v[|v| - 2..]); }
    if |v| >= 3 && DecodeRune(v[|v| - 3..]).1 == 3 { WideEnd(v[|v| - 3..]); }
  }

  lemma LastOne(v: Bytes)
    requires v != [] && Graphic(v[|v| - 1])
    ensures DecodeRune(v[|v| - 1..]) == (v[|v| - 1], 1)
  {
    hide Sextets;
  }

  function ToLower(c: Byte): Byte { if 65 <= c <= 90 then c + 32 else c }

  /** strings.ToLower on ASCII letters. */
  function Lower(s: Bytes): (t: Bytes)
    ensures |t| == |s|
  {
    if s == [] then [] else [ToLower(s[0])] + Lower(s[1..])
  }

  lemma {:induction false} LowerAt(s: Bytes, k: nat)
    requires k < |s|
    ensures Lower(s)[k] == ToLower(s[k])
  {
    if k > 0 { LowerAt(s[1..], k - 1); }
  }

  lemma {:induction false} LowerTwice(s: Bytes)
    ensures Lower(Lower(s)) == Lower(s)
  {
    if s != [] { LowerTwice(s[1..]); }
  }

  lemma LowerToken(s: Bytes)
    requires IsToken(s)
    ensures IsToken(Lower(s))
  {
    hide Lower;
    forall k | 0 <= k < |s|
      ensures IsTokenChar(Lower(s)[k])
    {
      LowerAt(s, k);
      assert IsTokenChar(s[k]);
    }
  }

  lemma {:induction false} LowerAppend(a: Bytes, b: Bytes)
    ensures Lower(a + b) == Lower(a) + Lower(b)
  {
    if a == [] {
      assert a + b == b;
    } else {
      LowerAppend(a[1..], b);
      assert (a + b)[1..] == a[1..] + b;
    }
  }
}
