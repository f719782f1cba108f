/** html.EscapeString and html.UnescapeString: an in-place decoder with two cursors. */
module Html {
  import opened Basics
  import opened Io
  import opened Utf8
  import opened Lines

  const AMP: Byte := 38        // &
  const HASH: Byte := 35       // #
  const SEMICOLON: Byte := 59  // ;

  const LONGEST_ENTITY_WITHOUT_SEMICOLON: nat := 6

  /** The named references of entity.go, without their 2231 entries. */
  datatype Tables = Tables(entity: map<Bytes, Rune>, entity2: map<Bytes, (Rune, Rune)>)

  function Entity(t: Tables, name: Bytes): Rune {
    if name in t.entity then t.entity[name] else 0
  }

  function Entity2(t: Tables, name: Bytes): (Rune, Rune) {
    if name in t.entity2 then t.entity2[name] else (0, 0)
  }

  /** entity.go keeps no replacement that is wider than its reference. */
  ghost predicate Narrow(t: Tables) {
    && (forall name <- t.entity.Keys :: |EncodeRune(Entity(t, name))| <= |name| + 1)
    && (forall name <- t.entity2.Keys ::
          |EncodeRune(Entity2(t, name).0)| + |EncodeRune(Entity2(t, name).1)| <= |name| + 1)
  }

  // ----- the replacement of one reference -----

  /** Windows-1252 for 0x80 to 0x9F. */
  const REPLACEMENTS: seq<Rune> := [
    0x20AC, 0x0081, 0x201A, 0x0192, 0x201E, 0x2026, 0x2020, 0x2021,
    0x02C6, 0x2030, 0x0160, 0x2039, 0x0152, 0x008D, 0x017D, 0x008F,
    0x0090, 0x2018, 0x2019, 0x201C, 0x201D, 0x2022, 0x2013, 0x2014,
    0x02DC, 0x2122, 0x0161, 0x203A, 0x0153, 0x009D, 0x017E, 0x0178]

  function Replaced(x: Rune): Rune {
    if 0x80 <= x <= 0x9F then REPLACEMENTS[x - 0x80]
    else if x == 0 || 0xD800 <= x <= 0xDFFF || x > 0x10FFFF then RUNE_ERROR
    else x
  }

  predicate IsDigit(c: Byte, hex: bool) {
    48 <= c <= 57 || (hex && (97 <= c <= 102 || 65 <= c <= 70))
  }

  function DigitValue(c: Byte): int {
    if 97 <= c <= 102 then c - 97 + 10 else if 65 <= c <= 70 then c - 65 + 10 else c - 48
  }

  predicate IsAlnum(c: Byte) {
    97 <= c <= 122 || 65 <= c <= 90 || 48 <= c <= 57
  }

  function Base(hex: bool): nat { if hex then 16 else 10 }

  /** The number the digits denote. */
  function Number(ds: Bytes, hex: bool): int {
    if |ds| == 0 then 0 else Base(hex) * Number(ds[..|ds| - 1], hex) + DigitValue(ds[|ds| - 1])
  }

  /** Arithmetic on runes wraps like that on every int32. */
  function Wrap32(n: int): Rune {
    (n + 0x8000_0000) % 0x1_0000_0000 - 0x8000_0000
  }

  lemma WrapAgain(n: int, m: nat, c: int)
    ensures Wrap32(m * Wrap32(n) + c) == Wrap32(m * n + c)
  {
    var k := (n + 0x8000_0000) / 0x1_0000_0000;
    assert Wrap32(n) == n - k * 0x1_0000_0000;
    assert m * Wrap32(n) == m * n - (m * k) * 0x1_0000_0000;
    var a, w := m * n + c + 0x8000_0000, m * k;
    assert (a - w * 0x1_0000_0000) % 0x1_0000_0000 == a % 0x1_0000_0000;
  }

  /** The end of the run of digits that starts at i. */
  function DigitsEnd(s: Bytes, i: nat, hex: bool): (e: nat)
    requires i <= |s|
    ensures i <= e <= |s|
    ensures forall k :: i <= k < e ==> IsDigit(s[k], hex)
    ensures e < |s| ==> !IsDigit(s[e], hex)
    decreases |s| - i
  {
    if i < |s| && IsDigit(s[i], hex) then DigitsEnd(s, i + 1, hex) else i
  }

  function AlnumEnd(s: Bytes, i: nat): (e: nat)
    requires i <= |s|
    ensures i <= e <= |s|
    ensures forall k :: i <= k < e ==> IsAlnum(s[k])
    ensures e < |s| ==> !IsAlnum(s[e])
    decreases |s| - i
  {
    if i < |s| && IsAlnum(s[i]) then AlnumEnd(s, i + 1) else i
  }

  /** A semicolon belongs to the reference. */
  function AfterSemicolon(s: Bytes, e: nat): nat {
    if e < |s| && s[e] == SEMICOLON then e + 1 else e
  }

  /** The longest proper prefix of at most j characters, and more than one, that names an entity. */
  function LongestPrefix(t: Tables, name: Bytes, j: int): (r: nat)
    requires j <= |name|
    ensures r == 0 || (1 < r <= j && Entity(t, name[..r]) != 0)
    ensures forall k :: r < k <= j && k > 1 ==> Entity(t, name[..k]) == 0
    decreases j
  {
    if j <= 1 then 0
    else if Entity(t, name[..j]) != 0 then j
    else LongestPrefix(t, name, j - 1)
  }

  function Min(a: int, b: int): int { if a <= b then a else b }

  /** What stands for the reference at the front of s, and how many bytes of s it replaces. */
  datatype Step = Step(out: Bytes, taken: nat)

  function Literal(s: Bytes, n: nat): Step
    requires n <= |s|
  {
    Step(s[..n], n)
  }

  function Numeric(s: Bytes): Step
    requires |s| > 1 && s[0] == AMP && s[1] == HASH
  {
    if |s| <= 3 then Literal(s, 1)
    else
      var hex := s[2] == 120 || s[2] == 88;
      var from: nat := if hex then 3 else 2;
      var to := DigitsEnd(s, from, hex);
      var end := AfterSemicolon(s, to);
      if end <= 3 then Literal(s, 1)
      else Step(EncodeRune(Replaced(Wrap32(Number(s[from..to], hex)))), end)
  }

  function Named(t: Tables, s: Bytes): Step
    requires |s| > 1 && s[0] == AMP
  {
    var end := AfterSemicolon(s, AlnumEnd(s, 1));
    var name := s[1..end];
    if name == [] then Literal(s, end)
    else if Entity(t, name) != 0 then Step(EncodeRune(Entity(t, name)), end)
    else if Entity2(t, name).0 != 0 then
      Step(EncodeRune(Entity2(t, name).0) + EncodeRune(Entity2(t, name).1), end)
    else
      var j := LongestPrefix(t, name, Min(|name| - 1, LONGEST_ENTITY_WITHOUT_SEMICOLON));
      if j > 0 then Step(EncodeRune(Entity(t, name[..j])), j + 1) else Literal(s, end)
  }

  function Reference(t: Tables, s: Bytes): Step
    requires s != [] && s[0] == AMP
  {
    if |s| <= 1 then Literal(s, 1)
    else if s[1] == HASH then Numeric(s)
    else Named(t, s)
  }

  /** A replacement is never wider than what it replaces: this keeps dst <= src. */
  lemma NeverWider(t: Tables, s: Bytes)
    requires Narrow(t) && s != [] && s[0] == AMP
    ensures |Reference(t, s).out| <= Reference(t, s).taken && 0 < Reference(t, s).taken <= |s|
  {
    hide Replaced, Wrap32, Number, DigitsEnd, AlnumEnd, LongestPrefix, EncodeRune;
  }

  /** The decoder, out of place. */
  function Unescape(t: Tables, s: Bytes): Bytes
    requires Narrow(t)
    decreases |s|
  {
    if s == [] then []
    else if s[0] == AMP then
      NeverWider(t, s);
      Reference(t, s).out + Unescape(t, s[Reference(t, s).taken..])
    else [s[0]] + Unescape(t, s[1..])
  }

  // ----- in place -----

  lemma DigitsEndIs(s: Bytes, i: nat, hex: bool, e: nat)
    requires i <= e <= |s| && (e < |s| ==> !IsDigit(s[e], hex))
    requires forall k :: i <= k < e ==> IsDigit(s[k], hex)
    ensures DigitsEnd(s, i, hex) == e
  {
    hide DigitsEnd, IsDigit;
  }

  lemma AlnumEndIs(s: Bytes, i: nat, e: nat)
    requires i <= e <= |s| && (e < |s| ==> !IsAlnum(s[e]))
    requires forall k :: i <= k < e ==> IsAlnum(s[k])
    ensures AlnumEnd(s, i) == e
  {
    hide AlnumEnd, IsAlnum;
  }

  /** One more digit, as the loop adds it on an int32. */
  lemma NextDigit(s: Bytes, from: nat, i: nat, hex: bool, x: Rune)
    requires from <= i < |s| && x == Wrap32(Number(s[from..i], hex))
    ensures Wrap32(Base(hex) * x + DigitValue(s[i])) == Wrap32(Number(s[from..i + 1], hex))
  {
    hide Wrap32, DigitValue;
    assert s[from..i + 1][..i - from] == s[from..i] && s[from..i + 1][i - from] == s[i];
    WrapAgain(Number(s[from..i], hex), Base(hex), DigitValue(s[i]));
  }

  /** The digit loop of unescapeEntity. */
  method ScanNumber(s: Bytes, from: nat, hex: bool) returns (x: Rune, i: nat)
    requires from <= |s|
    ensures i == AfterSemicolon(s, DigitsEnd(s, from, hex))
    ensures x == Wrap32(Number(s[from..DigitsEnd(s, from, hex)], hex))
  {
    hide DigitsEnd, Number, Wrap32;
    x, i := 0, from;
    NoDigits(s, from, hex);
    while i < |s|
      invariant from <= i <= |s| && x == Wrap32(Number(s[from..i], hex))
      invariant forall k :: from <= k < i ==> IsDigit(s[k], hex)
    {
      var c := s[i];
      i := i + 1;
      NextDigit(s, from, i - 1, hex, x);
      if hex {
        if 48 <= c <= 57 {
          x := Wrap32(16 * x + (c - 48));
          continue;
        } else if 97 <= c <= 102 {
          x := Wrap32(16 * x + (c - 97 + 10));
          continue;
        } else if 65 <= c <= 70 {
          x := Wrap32(16 * x + (c - 65 + 10));
          continue;
        }
      } else if 48 <= c <= 57 {
        x := Wrap32(10 * x + (c - 48));
        continue;
      }
      DigitsEndIs(s, from, hex, i - 1);
      if c != SEMICOLON {
        i := i - 1;
      }
      return;
    }
    DigitsEndIs(s, from, hex, i);
  }

  lemma NoDigits(s: Bytes, from: nat, hex: bool)
    requires from <= |s|
    ensures Wrap32(Number(s[from..from], hex)) == 0
  {
  }

  /** The name loop of unescapeEntity. */
  method ScanName(s: Bytes) returns (i: nat)
    requires |s| >= 1
    ensures i == AfterSemicolon(s, AlnumEnd(s, 1))
  {
    hide AlnumEnd;
    i := 1;
    while i < |s|
      invariant 1 <= i <= |s|
      invariant forall k :: 1 <= k < i ==> IsAlnum(s[k])
    {
      var c := s[i];
      i := i + 1;
      if 97 <= c <= 122 || 65 <= c <= 90 || 48 <= c <= 57 {
        continue;
      }
      AlnumEndIs(s, 1, i - 1);
      if c != SEMICOLON {
        i := i - 1;
      }
      return;
    }
    AlnumEndIs(s, 1, i);
  }

  /** The prefix loop of unescapeEntity. */
  method ScanPrefixes(t: Tables, name: Bytes) returns (j: nat)
    requires name != []
    ensures j == LongestPrefix(t, name, Min(|name| - 1, LONGEST_ENTITY_WITHOUT_SEMICOLON))
  {
    var maxLen := |name| - 1;
    if maxLen > LONGEST_ENTITY_WITHOUT_SEMICOLON {
      maxLen := LONGEST_ENTITY_WITHOUT_SEMICOLON;
    }
    j := maxLen;
    while j > 1
      invariant j <= maxLen && LongestPrefix(t, name, j) == LongestPrefix(t, name, maxLen)
    {
      var x := Entity(t, name[..j]);
      if x != 0 {
        return;
      }
      j := j - 1;
    }
    j := 0;
  }

  /** What unescapeEntity leaves in the buffer: the replacement behind what was written
      before, and the unread bytes untouched. */
  twostate predicate Replaces(b: array<Byte>, dst: nat, src: nat, x: Step, dst1: nat, src1: nat)
    reads b
  {
    && dst <= src <= b.Length && src1 == src + x.taken <= b.Length
    && dst1 == dst + |x.out| <= src1
    && b[..dst1] == old(b[..dst]) + x.out && b[src1..] == old(b[src1..])
  }

  /** utf8.EncodeRune(b[dst:], r), where the replacement ends before the unread bytes. */
  method PutRune(b: array<Byte>, dst: nat, r: Rune, src1: nat) returns (dst1: nat)
    requires dst + |EncodeRune(r)| <= src1 <= b.Length
    modifies b
    ensures dst1 == dst + |EncodeRune(r)| && b[..dst1] == old(b[..dst]) + EncodeRune(r)
    ensures b[src1..] == old(b[src1..])
  {
    CopyInto(b, dst, EncodeRune(r));
    dst1 := dst + |EncodeRune(r)|;
  }

  method PutLiteral(b: array<Byte>, dst: nat, src: nat, n: nat) returns (dst1: nat, src1: nat)
    requires dst <= src && src + n <= b.Length
    modifies b
    ensures Replaces(b, dst, src, Literal(old(b[src..]), n), dst1, src1)
  {
    MoveDown(b, dst, src, n);
    assert old(b[src..src + n]) == old(b[src..])[..n];
    dst1, src1 := dst + n, src + n;
  }

  method UnescapeNumeric(b: array<Byte>, dst: nat, src: nat) returns (dst1: nat, src1: nat)
    requires dst <= src && src + 1 < b.Length && b[src] == AMP && b[src + 1] == HASH
    modifies b
    ensures Replaces(b, dst, src, Numeric(old(b[src..])), dst1, src1)
  {
    hide DigitsEnd, Number, Wrap32, Replaced, EncodeRune, AfterSemicolon;
    var i, s := 1, b[src..];
    if |s| <= 3 {
      dst1, src1 := PutLiteral(b, dst, src, 1);
      return;
    }
    i := i + 1;
    var c := s[i];
    var hex := false;
    if c == 120 || c == 88 {
      hex := true;
      i := i + 1;
    }
    var x;
    x, i := ScanNumber(s, i, hex);
    if i <= 3 {
      dst1, src1 := PutLiteral(b, dst, src, 1);
      return;
    }
    AfterAtMost(s, DigitsEnd(s, if hex then 3 else 2, hex));
    x := Replaced(x);
    src1 := src + i;
    dst1 := PutRune(b, dst, x, src1);
  }

  lemma AfterAtMost(s: Bytes, e: nat)
    requires e <= |s|
    ensures e <= AfterSemicolon(s, e) <= |s|
  {
  }

  method UnescapeNamed(t: Tables, b: array<Byte>, dst: nat, src: nat) returns (dst1: nat, src1: nat)
    requires Narrow(t) && dst <= src && src + 1 < b.Length && b[src] == AMP
    modifies b
    ensures Replaces(b, dst, src, Named(t, old(b[src..])), dst1, src1)
  {
    hide AlnumEnd, LongestPrefix, EncodeRune, AfterSemicolon;
    var s := b[src..];
    var i := ScanName(s);
    AfterAtMost(s, AlnumEnd(s, 1));
    var name := s[1..i];
    if name == [] {
      // No-op.
    } else {
      var x := Entity(t, name);
      if x != 0 {
        src1 := src + i;
        dst1 := PutRune(b, dst, x, src1);
        return;
      }
      var y := Entity2(t, name);
      if y.0 != 0 {
        src1 := src + i;
        dst1 := PutRune(b, dst, y.0, src1);
        dst1 := PutRune(b, dst1, y.1, src1);
        assert (old(b[..dst]) + EncodeRune(y.0)) + EncodeRune(y.1)
            == old(b[..dst]) + (EncodeRune(y.0) + EncodeRune(y.1));
        return;
      }
      var j := ScanPrefixes(t, name);
      if j > 0 {
        src1 := src + j + 1;
        dst1 := PutRune(b, dst, Entity(t, name[..j]), src1);
        return;
      }
    }
    dst1, src1 := PutLiteral(b, dst, src, i);
  }

  method UnescapeEntity(t: Tables, b: array<Byte>, dst: nat, src: nat) returns (dst1: nat, src1: nat)
    requires Narrow(t) && dst <= src < b.Length && b[src] == AMP
    modifies b
    ensures Replaces(b, dst, src, Reference(t, old(b[src..])), dst1, src1)
  {
    hide Numeric, Named;
    if b.Length - src <= 1 {
      dst1, src1 := PutLiteral(b, dst, src, 1);
    } else if b[src + 1] == HASH {
      dst1, src1 := UnescapeNumeric(b, dst, src);
    } else {
      dst1, src1 := UnescapeNamed(t, b, dst, src);
    }
  }

  /** UnescapeString decodes inside one buffer, with what is already written in front of what
      is still to be read, and gives exactly what the out-of-place decoder gives. */
  method UnescapeString(t: Tables, s: Bytes) returns (r: Bytes)
    requires Narrow(t)
    ensures r == Unescape(t, s)
  {
    hide Reference, Unescape, IndexByte;
    var i: int := IndexByte(s, AMP);
    if i < 0 {
      PlainTail(t, [], s, 0);
      return s;
    }
    var b := new Byte[|s|](k requires 0 <= k < |s| => s[k]);
    assert b[..] == s;
    PlainHead(t, s, i);
    var dst: nat, src: nat := UnescapeAt(t, b, s, i, i);
    while |s[src..]| > 0
      invariant dst <= src <= b.Length == |s|
      invariant b[src..] == s[src..]
      invariant b[..dst] + Unescape(t, s[src..]) == Unescape(t, s)
    {
      dst, src := UnescapeNext(t, b, s, dst, src);
    }
    PlainTail(t, b[..dst], s, src);
    r := b[..dst];
  }

  /** copy(b[dst:], s[src:src+i]) leaves alone what is still to be read. */
  method CopyPlain(b: array<Byte>, s: Bytes, dst: nat, src: nat, i: nat)
    requires dst <= src && src + i <= |s| == b.Length && b[src..] == s[src..]
    modifies b
    ensures b[..dst + i] == old(b[..dst]) + s[src..src + i] && b[src + i..] == s[src + i..]
  {
    assert b[src + i..] == b[src..][i..] && s[src + i..] == s[src..][i..];
    if i > 0 {
      CopyInto(b, dst, s[src..src + i]);
    }
  }

  /** unescapeEntity on a buffer that still holds the rest of s. */
  method UnescapeAt(t: Tables, b: array<Byte>, s: Bytes, dst: nat, src: nat) returns (dst1: nat, src1: nat)
    requires Narrow(t) && dst <= src < |s| == b.Length && b[src..] == s[src..] && s[src] == AMP
    modifies b
    ensures src < src1 <= |s| && dst1 <= src1 && b[src1..] == s[src1..]
    ensures b[..dst1] + Unescape(t, s[src1..]) == old(b[..dst]) + Unescape(t, s[src..])
  {
    hide Reference, Unescape;
    assert b[src] == b[src..][0];
    ReferenceStep(t, b[..dst], s, src);
    dst1, src1 := UnescapeEntity(t, b, dst, src);
  }

  /** One turn of the loop: copy up to the next '&' and decode what is there; without one,
      copy the rest. */
  method UnescapeNext(t: Tables, b: array<Byte>, s: Bytes, dst: nat, src: nat) returns (dst1: nat, src1: nat)
    requires Narrow(t) && dst <= src < |s| == b.Length && b[src..] == s[src..]
    modifies b
    ensures src < src1 <= |s| && dst1 <= src1 && b[src1..] == s[src1..]
    ensures b[..dst1] + Unescape(t, s[src1..]) == old(b[..dst]) + Unescape(t, s[src..])
  {
    hide Reference, Unescape, IndexByte;
    var i: int;
    if s[src] == AMP {
      i := 0;
    } else {
      i := IndexByte(s[src..], AMP);
    }
    ghost var done, stop := b[..dst], if i < 0 then |s| else src + i;
    assert forall k :: src <= k < stop ==> s[k] == s[src..][k - src];
    if i < 0 {
      PlainTail(t, done, s, src);
      CopyInto(b, dst, s[src..]);
      return dst + |s[src..]|, |s|;
    }
    PlainStep(t, done, s, src, stop);
    CopyPlain(b, s, dst, src, i);
    assert s[src + i] == s[src..][i];
    dst1, src1 := UnescapeAt(t, b, s, dst + i, src + i);
  }

  /** Bytes that start no reference are copied. */
  lemma PlainStep(t: Tables, done: Bytes, s: Bytes, i: nat, j: nat)
    requires Narrow(t) && i <= j <= |s| && (forall k :: i <= k < j ==> s[k] != AMP)
    ensures done + Unescape(t, s[i..]) == (done + s[i..j]) + Unescape(t, s[j..])
  {
    hide Reference, Unescape;
    assert s[i..][..j - i] == s[i..j] && s[i..][j - i..] == s[j..];
    SkipPlain(t, s[i..], j - i);
  }

  /** A tail without references is copied whole. */
  lemma PlainTail(t: Tables, done: Bytes, s: Bytes, i: nat)
    requires Narrow(t) && i <= |s| && (forall k :: i <= k < |s| ==> s[k] != AMP)
    ensures done + Unescape(t, s[i..]) == done + s[i..] && (i == 0 ==> Unescape(t, s) == s)
    ensures Unescape(t, s[|s|..]) == []
  {
    assert i == 0 ==> s[i..] == s;
    hide Reference, Unescape;
    SkipPlain(t, s[i..], |s| - i);
    assert s[i..][..|s| - i] == s[i..] && s[i..][|s| - i..] == [];
    NothingLeft(t);
  }

  lemma NothingLeft(t: Tables)
    requires Narrow(t)
    ensures Unescape(t, []) == []
  {
  }

  /** A head without references is copied. */
  lemma PlainHead(t: Tables, s: Bytes, j: nat)
    requires Narrow(t) && j <= |s| && (forall k :: 0 <= k < j ==> s[k] != AMP)
    ensures Unescape(t, s) == s[..j] + Unescape(t, s[j..])
  {
    hide Reference, Unescape;
    SkipPlain(t, s, j);
  }

  lemma ReferenceStep(t: Tables, done: Bytes, s: Bytes, i: nat)
    requires Narrow(t) && i < |s| && s[i] == AMP
    ensures 0 < Reference(t, s[i..]).taken <= |s| - i
    ensures
      var x := Reference(t, s[i..]);
      s[i..][x.taken..] == s[i + x.taken..] &&
      done + Unescape(t, s[i..]) == (done + x.out) + Unescape(t, s[i + x.taken..])
  {
    hide Reference;
    NeverWider(t, s[i..]);
    var x := Reference(t, s[i..]);
    assert s[i..][x.taken..] == s[i + x.taken..];
  }

  /** Bytes that start no reference stand for themselves. */
  lemma {:induction false} SkipPlain(t: Tables, s: Bytes, n: nat)
    requires Narrow(t) && n <= |s| && AMP !in s[..n]
    ensures Unescape(t, s) == s[..n] + Unescape(t, s[n..])
    decreases n
  {
    hide Unescape;
    if n > 0 {
      assert s[0] == s[..n][0];
      assert s[1..][..n - 1] == s[..n][1..] && s[1..][n - 1..] == s[n..];
      OnePlain(t, s);
      SkipPlain(t, s[1..], n - 1);
      assert s[..n] == [s[0]] + s[1..][..n - 1];
    } else {
      assert s[0..] == s;
    }
  }

  lemma OnePlain(t: Tables, s: Bytes)
    requires Narrow(t) && s != [] && s[0] != AMP
    ensures Unescape(t, s) == [s[0]] + Unescape(t, s[1..])
  {
    hide Reference;
  }

  /** When a numeric reference is left alone. The test i <= 3 also leaves a single decimal digit
      without a semicolon, as in "&#1a", and takes "&#x;" without any digit. */
  lemma NumericLeftAlone(s: Bytes)
    requires |s| > 1 && s[0] == AMP && s[1] == HASH
    ensures Numeric(s).taken == 1 <==>
      || |s| <= 3
      || (s[2] != 120 && s[2] != 88 && !IsDigit(s[2], false))
      || (s[2] != 120 && s[2] != 88 && !IsDigit(s[3], false) && s[3] != SEMICOLON)
      || ((s[2] == 120 || s[2] == 88) && !IsDigit(s[3], true) && s[3] != SEMICOLON)
  {
    hide EncodeRune, Replaced, Wrap32, Number;
    if |s| > 3 {
      var hex := s[2] == 120 || s[2] == 88;
      var from: nat := if hex then 3 else 2;
      var to := DigitsEnd(s, from, hex);
      assert to == 2 || IsDigit(s[from], hex) || to == 3;
    }
  }

  /** A digit follows "&#", "&#x" or "&#X". */
  predicate DigitFollows(s: Bytes) {
    |s| > 2 && if s[2] == 120 || s[2] == 88 then |s| > 3 && IsDigit(s[3], true) else IsDigit(s[2], false)
  }

  /** "&#" and one decimal digit, with no further digit and no semicolon. */
  predicate OneDecimalDigit(s: Bytes) {
    |s| > 2 && IsDigit(s[2], false) && (|s| > 3 ==> !IsDigit(s[3], false) && s[3] != SEMICOLON)
  }

  /** "&#x;" or "&#X;" */
  predicate EmptyHex(s: Bytes) {
    |s| > 3 && (s[2] == 120 || s[2] == 88) && s[3] == SEMICOLON
  }

  /** A reference is meant to be left alone exactly when no digit was read. It is, unless it has
      one of two shapes. */
  lemma LeftWithoutDigits(s: Bytes)
    requires |s| > 1 && s[0] == AMP && s[1] == HASH
    ensures (Numeric(s).taken == 1 <==> !DigitFollows(s)) <==> !OneDecimalDigit(s) && !EmptyHex(s)
    ensures OneDecimalDigit(s) ==> Numeric(s).taken == 1
    ensures EmptyHex(s) ==> Numeric(s) == Step(EncodeRune(RUNE_ERROR), 4)
  {
    hide EncodeRune, Number;
    if |s| > 3 {
      var hex := s[2] == 120 || s[2] == 88;
      var from: nat := if hex then 3 else 2;
      var to := DigitsEnd(s, from, hex);
      if !IsDigit(s[from], hex) {
        DigitsEndIs(s, from, hex, from);
        NoDigits(s, from, hex);
      } else {
        assert to > from;
      }
    }
  }

  /** "&#1a" has a digit and is left as it is. */
  lemma OneDigitLost()
    ensures DigitFollows([AMP, HASH, 49, 97]) && Numeric([AMP, HASH, 49, 97]) == Step([AMP], 1)
  {
    LeftWithoutDigits([AMP, HASH, 49, 97]);
    hide EncodeRune, Number, Wrap32, Replaced, DigitsEnd;
  }

  /** "&#x;" has none and is decoded. */
  lemma NoDigitDecoded()
    ensures !DigitFollows([AMP, HASH, 120, SEMICOLON])
    ensures Numeric([AMP, HASH, 120, SEMICOLON]) == Step(EncodeRune(RUNE_ERROR), 4)
  {
    LeftWithoutDigits([AMP, HASH, 120, SEMICOLON]);
  }

  // ----- numbers above 32 bits -----

  /** The character that a number stands for. */
  function Denoted(n: nat): Rune {
    if n > MAX_RUNE then RUNE_ERROR else Replaced(n)
  }

  /** The accumulator wraps: a number above U+10FFFF stands for U+FFFD, but is decoded to
      another character exactly when what is left of it in 32 bits is one. */
  lemma DecodedIsDenoted(s: Bytes)
    requires |s| > 1 && s[0] == AMP && s[1] == HASH && Numeric(s).taken > 1
    ensures
      var hex := s[2] == 120 || s[2] == 88;
      var from: nat := if hex then 3 else 2;
      var n := Number(s[from..DigitsEnd(s, from, hex)], hex);
      && n >= 0
      && (Numeric(s).out == EncodeRune(Denoted(n)) <==> n <= MAX_RUNE || !OtherRune(Wrap32(n)))
  {
    var hex := s[2] == 120 || s[2] == 88;
    var from: nat := if hex then 3 else 2;
    var ds := s[from..DigitsEnd(s, from, hex)];
    assert forall k :: 0 <= k < |ds| ==> IsDigit(ds[k], hex);
    NumberNat(ds, hex);
    WrappedIsDenoted(Number(ds, hex));
    hide Replaced, Wrap32, EncodeRune, Number, Denoted, OtherRune, DigitsEnd;
  }

  /** A character other than U+0000 and U+FFFD. */
  predicate OtherRune(w: Rune) {
    w > 0 && ValidRune(w) && w != RUNE_ERROR
  }

  lemma {:induction false} NumberNat(ds: Bytes, hex: bool)
    requires forall k :: 0 <= k < |ds| ==> IsDigit(ds[k], hex)
    ensures Number(ds, hex) >= 0
  {
    if ds != [] {
      NumberNat(ds[..|ds| - 1], hex);
      assert IsDigit(ds[|ds| - 1], hex);
    }
  }

  lemma WrappedIsDenoted(n: nat)
    ensures EncodeRune(Replaced(Wrap32(n))) == EncodeRune(Denoted(n)) <==>
      n <= MAX_RUNE || !OtherRune(Wrap32(n))
  {
    var w := Wrap32(n);
    WrapSmall(n);
    hide EncodeRune, DecodeRune, Replaced, Wrap32, OtherRune;
    if n > MAX_RUNE {
      if OtherRune(w) {
        ReplacedOther(w);
        DecodeEncoded(Replaced(w), []);
        DecodeEncoded(RUNE_ERROR, []);
      } else {
        ReplacedError(w);
      }
    }
  }

  lemma WrapSmall(n: nat)
    ensures n <= MAX_RUNE ==> Wrap32(n) == n
  {
  }

  lemma ReplacedOther(w: Rune)
    requires OtherRune(w)
    ensures ValidRune(Replaced(w)) && Replaced(w) != RUNE_ERROR
  {
  }

  lemma ReplacedError(w: Rune)
    requires !OtherRune(w)
    ensures EncodeRune(Replaced(w)) == EncodeRune(RUNE_ERROR)
  {
  }

  lemma NumberSnoc(ds: Bytes, d: Byte)
    ensures Number(ds + [d], false) == 10 * Number(ds, false) + DigitValue(d)
  {
    assert (ds + [d])[..|ds|] == ds;
  }

  /** "&#4294967361;", far above U+10FFFF, is decoded to "A". */
  lemma WrappedToA()
    ensures Numeric([AMP, HASH, 52, 50, 57, 52, 57, 54, 55, 51, 54, 49, SEMICOLON]) == Step([65], 13)
  {
    var s: Bytes := [AMP, HASH, 52, 50, 57, 52, 57, 54, 55, 51, 54, 49, SEMICOLON];
    var ds: Bytes := [52, 50, 57, 52, 57, 54, 55, 51, 54, 49];
    assert s[2..12] == ds;
    DigitsEndIs(s, 2, false, 12);
    TenDigits();
    hide DigitsEnd, Number;
    assert Number(ds, false) == 0x1_0000_0041 && Wrap32(0x1_0000_0041) == 65;
  }

  lemma TenDigits()
    ensures Number([52, 50, 57, 52, 57, 54, 55, 51, 54, 49], false) == 0x1_0000_0041
  {
    NumberSnoc([], 52);
    NumberSnoc([52], 50);
    NumberSnoc([52, 50], 57);
    NumberSnoc([52, 50, 57], 52);
    NumberSnoc([52, 50, 57, 52], 57);
    NumberSnoc([52, 50, 57, 52, 57], 54);
    NumberSnoc([52, 50, 57, 52, 57, 54], 55);
    NumberSnoc([52, 50, 57, 52, 57, 54, 55], 51);
    NumberSnoc([52, 50, 57, 52, 57, 54, 55, 51], 54);
    NumberSnoc([52, 50, 57, 52, 57, 54, 55, 51, 54], 49);
    assert Number([], false) == 0;
    hide Number;
    assert [] + [52] == [52] && [52] + [50] == [52, 50] && [52, 50] + [57] == [52, 50, 57];
    assert [52, 50, 57] + [52] == [52, 50, 57, 52] && [52, 50, 57, 52] + [57] == [52, 50, 57, 52, 57];
    assert [52, 50, 57, 52, 57] + [54] == [52, 50, 57, 52, 57, 54];
    assert [52, 50, 57, 52, 57, 54] + [55] == [52, 50, 57, 52, 57, 54, 55];
    assert [52, 50, 57, 52, 57, 54, 55] + [51] == [52, 50, 57, 52, 57, 54, 55, 51];
    assert [52, 50, 57, 52, 57, 54, 55, 51] + [54] == [52, 50, 57, 52, 57, 54, 55, 51, 54];
    assert [52, 50, 57, 52, 57, 54, 55, 51, 54] + [49] == [52, 50, 57, 52, 57, 54, 55, 51, 54, 49];
  }

  // ----- escaping -----

  /** strings.NewReplacer on single bytes: a map from bytes to strings. */
  function EscapeByte(c: Byte): Bytes {
    if c == AMP then [38, 97, 109, 112, 59]       // &amp;
    else if c == 39 then [38, 35, 51, 57, 59]     // &#39;
    else if c == 60 then [38, 108, 116, 59]       // &lt;
    else if c == 62 then [38, 103, 116, 59]       // &gt;
    else if c == 34 then [38, 35, 51, 52, 59]     // &#34;
    else [c]
  }

  function EscapeString(s: Bytes): Bytes {
    if s == [] then [] else EscapeByte(s[0]) + EscapeString(s[1..])
  }

  /** The three entries of entity.go that escaping relies on. */
  predicate HasEscapes(t: Tables) {
    && Entity(t, [97, 109, 112, 59]) == 38
    && Entity(t, [108, 116, 59]) == 60
    && Entity(t, [103, 116, 59]) == 62
  }

  /** A named escape is read back whatever follows it. */
  lemma NamedEscape(t: Tables, name: Bytes, rest: Bytes, c: Byte)
    requires |name| >= 2 && name[|name| - 1] == SEMICOLON && Entity(t, name) == c && 0 < c < 0x80
    requires forall k :: 0 <= k < |name| - 1 ==> IsAlnum(name[k])
    ensures Reference(t, [AMP] + name + rest) == Step([c], |name| + 1)
  {
    var s := [AMP] + name + rest;
    assert forall k :: 1 <= k < |name| + 1 ==> s[k] == name[k - 1];
    AlnumEndIs(s, 1, |name|);
    assert s[1..|name| + 1] == name;
  }

  /** A two-digit decimal escape is read back whatever follows it. */
  lemma DecimalEscape(t: Tables, d1: Byte, d0: Byte, rest: Bytes)
    requires 48 < d1 <= 57 && 48 <= d0 <= 57
    ensures Reference(t, [AMP, HASH, d1, d0, SEMICOLON] + rest) == Step([(d1 - 48) * 10 + (d0 - 48)], 5)
  {
    var s := [AMP, HASH, d1, d0, SEMICOLON] + rest;
    FiveBytes(d1, d0, rest);
    DigitsEndIs(s, 2, false, 4);
    TwoDigits(d1, d0);
    PlainCode((d1 - 48) * 10 + (d0 - 48));
    hide IsDigit, DigitsEnd, Named, Number, Replaced, Wrap32, EncodeRune;
  }

  lemma FiveBytes(d1: Byte, d0: Byte, rest: Bytes)
    requires 48 < d1 <= 57 && 48 <= d0 <= 57
    ensures
      var s := [AMP, HASH, d1, d0, SEMICOLON] + rest;
      && |s| >= 5 && s[0] == AMP && s[1] == HASH && s[2] == d1 && s[4] == SEMICOLON && s[2..4] == [d1, d0]
      && IsDigit(s[2], false) && IsDigit(s[3], false) && !IsDigit(s[4], false)
  {
    var s := [AMP, HASH, d1, d0, SEMICOLON] + rest;
    assert s[2..4] == [d1, d0];
  }

  lemma PlainCode(n: nat)
    requires 0 < n < 0x80
    ensures EncodeRune(Replaced(Wrap32(n))) == [n]
  {
    hide REPLACEMENTS;
  }

  lemma TwoDigits(d1: Byte, d0: Byte)
    requires 48 < d1 <= 57 && 48 <= d0 <= 57
    ensures Number([d1, d0], false) == (d1 - 48) * 10 + (d0 - 48)
  {
    assert [d1, d0][..1] == [d1] && [d1][..0] == [];
    assert Number([d1], false) == 10 * Number([], false) + (d1 - 48);
  }

  /** UnescapeString(EscapeString(s)) == s always holds. */
  lemma {:induction false} UnescapeUndoesEscape(t: Tables, s: Bytes)
    requires Narrow(t) && HasEscapes(t)
    ensures Unescape(t, EscapeString(s)) == s
  {
    hide Unescape, EscapeByte;
    NothingLeft(t);
    if s != [] {
      UnescapeUndoesEscape(t, s[1..]);
      var rest := EscapeString(s[1..]);
      EscapeRead(t, s[0], rest);
      assert s == [s[0]] + s[1..];
    }
  }

  lemma EscapeRead(t: Tables, c: Byte, rest: Bytes)
    requires Narrow(t) && HasEscapes(t)
    ensures Unescape(t, EscapeByte(c) + rest) == [c] + Unescape(t, rest)
  {
    hide Reference, Unescape;
    var s := EscapeByte(c) + rest;
    if c == AMP {
      NamedEscape(t, [97, 109, 112, 59], rest, c);
      assert s == [AMP] + [97, 109, 112, 59] + rest;
      ReadOne(t, s, c, 5, rest);
    } else if c == 60 {
      NamedEscape(t, [108, 116, 59], rest, c);
      assert s == [AMP] + [108, 116, 59] + rest;
      ReadOne(t, s, c, 4, rest);
    } else if c == 62 {
      NamedEscape(t, [103, 116, 59], rest, c);
      assert s == [AMP] + [103, 116, 59] + rest;
      ReadOne(t, s, c, 4, rest);
    } else if c == 39 {
      DecimalEscape(t, 51, 57, rest);
      ReadOne(t, s, c, 5, rest);
    } else if c == 34 {
      DecimalEscape(t, 51, 52, rest);
      ReadOne(t, s, c, 5, rest);
    } else {
      SkipPlain(t, s, 1);
      assert s[..1] == [c] && s[1..] == rest;
    }
  }

  lemma ReadOne(t: Tables, s: Bytes, c: Byte, n: nat, rest: Bytes)
    requires Narrow(t) && s != [] && s[0] == AMP && Reference(t, s) == Step([c], n)
    requires 0 < n <= |s| && s[n..] == rest
    ensures Unescape(t, s) == [c] + Unescape(t, rest)
  {
    hide Reference;
  }
}
