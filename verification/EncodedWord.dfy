/** mime.WordEncoder and WordDecoder: RFC 2047 encoded-words with the Q encoding. */
module EncodedWord {
  import opened Basics
  import opened Grammar
  import opened Lines
  import opened Utf8

  const SPACE: Byte := 32
  const QMARK: Byte := 63       // ?
  const EQUALS: Byte := 61      // =
  const UNDERSCORE: Byte := 95  // _

  /** RFC 2047 section 2: an encoded-word has at most 75 characters. */
  const MAX_ENCODED_WORD_LEN: nat := 75
  const MAX_CONTENT_LEN: nat := 63  // without "=?UTF-8?q?" and "?="

  /** strings.EqualFold for ASCII letters. */
  predicate EqualFold(a: Bytes, b: Bytes) {
    |a| == |b| && forall k :: 0 <= k < |a| ==> ToLower(a[k]) == ToLower(b[k])
  }

  const UTF_8: Bytes := [85, 84, 70, 45, 56]
  const ISO_8859_1: Bytes := [105, 115, 111, 45, 56, 56, 53, 57, 45, 49]
  const US_ASCII: Bytes := [117, 115, 45, 97, 115, 99, 105, 105]

  // ----- the Q encoding -----

  function UpperHex(n: nat): Byte
    requires n < 16
  {
    if n < 10 then 48 + n else 55 + n
  }

  predicate Plain(b: Byte) {
    33 <= b <= 126 && b != EQUALS && b != QMARK && b != UNDERSCORE
  }

  function QByte(b: Byte): Bytes {
    if b == SPACE then [UNDERSCORE]
    else if Plain(b) then [b]
    else [EQUALS, UpperHex(b / 16), UpperHex(b % 16)]
  }

  /** The encoded text of RFC 2047 section 4.2. */
  function QText(s: Bytes): Bytes {
    if s == [] then [] else QByte(s[0]) + QText(s[1..])
  }

  lemma {:induction false} QTextAppend(a: Bytes, b: Bytes)
    ensures QText(a + b) == QText(a) + QText(b)
  {
    if a == [] {
      assert a + b == b;
    } else {
      assert (a + b)[1..] == a[1..] + b;
      QTextAppend(a[1..], b);
    }
  }

  lemma {:induction false} QTextHasNoQMark(s: Bytes)
    ensures QMARK !in QText(s)
  {
    if s != [] { QTextHasNoQMark(s[1..]); }
  }

  function FromHex(b: Byte): (r: Option<nat>)
    ensures r.Some? ==> r.value < 16
  {
    if 48 <= b <= 57 then Some(b - 48)
    else if 65 <= b <= 70 then Some(b - 65 + 10)
    else if 97 <= b <= 102 then Some(b - 97 + 10)
    else None
  }

  function ReadHexByte(a: Byte, b: Byte): (r: Option<Byte>) {
    var hb, lb := FromHex(a), FromHex(b);
    if hb.None? || lb.None? then None else Some(hb.value * 16 + lb.value)
  }

  predicate Accepted(c: Byte) { 32 <= c <= 126 || c == 10 || c == 13 || c == 9 }

  /** One byte of the content and the number of characters that encode it. */
  function QFirst(s: Bytes): (r: Option<(Byte, nat)>)
    requires s != []
    ensures r.Some? ==> 0 < r.value.1 <= |s|
  {
    if s[0] == UNDERSCORE then Some((SPACE, 1))
    else if s[0] == EQUALS then
      if |s| < 3 then None
      else
        var h := ReadHexByte(s[1], s[2]);
        if h.None? then None else Some((h.value, 3))
    else if Accepted(s[0]) then Some((s[0], 1))
    else None
  }

  /** The content that encoded text stands for. */
  function QDecoded(s: Bytes): Option<Bytes> {
    if s == [] then Some([])
    else
      var f := QFirst(s);
      if f.None? then None
      else
        var rest := QDecoded(s[f.value.1..]);
        if rest.None? then None else Some([f.value.0] + rest.value)
  }

  lemma QFirstOfByte(b: Byte, rest: Bytes)
    ensures QFirst(QByte(b) + rest) == Some((b, |QByte(b)|))
  {
    var s := QByte(b) + rest;
    if b != SPACE && !Plain(b) {
      assert s[1] == UpperHex(b / 16) && s[2] == UpperHex(b % 16);
    }
  }

  /** Decoding undoes encoding, for every byte string. */
  lemma {:induction false} QRoundTrip(s: Bytes)
    ensures QDecoded(QText(s)) == Some(s)
  {
    if s != [] {
      QRoundTrip(s[1..]);
      QFirstOfByte(s[0], QText(s[1..]));
      hide QFirst, QByte;
      assert QText(s)[|QByte(s[0])|..] == QText(s[1..]);
      assert s == [s[0]] + s[1..];
    }
  }

  function Prepend(a: Bytes, r: Option<Bytes>): Option<Bytes> {
    if r.None? then None else Some(a + r.value)
  }

  lemma PrependStep(a: Bytes, s: Bytes, i: nat)
    requires i < |s|
    ensures QFirst(s[i..]).None? ==> Prepend(a, QDecoded(s[i..])) == None
    ensures QFirst(s[i..]).Some? ==>
      var f := QFirst(s[i..]).value;
      Prepend(a, QDecoded(s[i..])) == Prepend(a + [f.0], QDecoded(s[i + f.1..]))
  {
    hide QFirst;
    if QFirst(s[i..]).Some? {
      var f := QFirst(s[i..]).value;
      assert s[i..][f.1..] == s[i + f.1..];
      var rest := QDecoded(s[i + f.1..]);
      if rest.Some? { assert a + ([f.0] + rest.value) == (a + [f.0]) + rest.value; }
    }
  }

  /** qDecode fills a buffer of the length of the text. */
  method QDecode(s: Bytes) returns (r: Option<Bytes>)
    ensures r == QDecoded(s)
  {
    hide QDecoded;
    var dec := new Byte[|s|](_ => 0);
    var n, i := 0, 0;
    QStart(s);
    while i < |s|
      invariant 0 <= n <= i <= |s|
      invariant QDecoded(s) == Prepend(dec[..n], QDecoded(s[i..]))
    {
      var c := s[i];
      PrependStep(dec[..n], s, i);
      ghost var before := dec[..n];
      if c == UNDERSCORE {
        dec[n] := SPACE;
      } else if c == EQUALS {
        if i + 2 >= |s| {
          return None;
        }
        var b := ReadHexByte(s[i + 1], s[i + 2]);
        if b.None? {
          return None;
        }
        dec[n] := b.value;
        i := i + 2;
      } else if (c <= 126 && c >= 32) || c == 10 || c == 13 || c == 9 {
        dec[n] := c;
      } else {
        return None;
      }
      n := n + 1;
      i := i + 1;
      assert dec[..n] == before + [dec[n - 1]];
    }
    QEnd(s, dec[..n]);
    r := Some(dec[..n]);
  }

  lemma QStart(s: Bytes)
    ensures QDecoded(s) == Prepend([], QDecoded(s[0..]))
  {
    assert s[0..] == s;
    if QDecoded(s).Some? { assert [] + QDecoded(s).value == QDecoded(s).value; }
  }

  lemma QEnd(s: Bytes, a: Bytes)
    ensures Prepend(a, QDecoded(s[|s|..])) == Some(a)
  {
    assert a + [] == a;
  }

  // ----- words -----

  /** "=?charset?q?" */
  function OpenWord(charset: Bytes): Bytes {
    [EQUALS, QMARK] + charset + [QMARK, 113, QMARK]
  }

  const CLOSE_WORD: Bytes := [QMARK, EQUALS]

  function Word(charset: Bytes, content: Bytes): Bytes {
    OpenWord(charset) + QText(content) + CLOSE_WORD
  }

  /** Words, each with a space after it. */
  function Spaced(charset: Bytes, chunks: seq<Bytes>): Bytes {
    if |chunks| == 0 then [] else Word(charset, chunks[0]) + [SPACE] + Spaced(charset, chunks[1..])
  }

  /** Words with a space between any two of them. */
  function JoinWords(charset: Bytes, chunks: seq<Bytes>): Bytes
    requires |chunks| > 0
  {
    Spaced(charset, chunks[..|chunks| - 1]) + Word(charset, chunks[|chunks| - 1])
  }

  lemma {:induction false} SpacedSnoc(charset: Bytes, chunks: seq<Bytes>, c: Bytes)
    ensures Spaced(charset, chunks + [c]) == Spaced(charset, chunks) + Word(charset, c) + [SPACE]
  {
    hide Word;
    if |chunks| == 0 {
      assert chunks + [c] == [c];
      assert [c][1..] == [];
    } else {
      SpacedSnoc(charset, chunks[1..], c);
      assert (chunks + [c])[1..] == chunks[1..] + [c];
    }
  }

  /** i lies between two characters of s, not inside one. */
  ghost predicate Boundary(s: Bytes, i: nat)
    decreases i
  {
    i == 0 || (s != [] && DecodeRune(s).1 <= i <= |s| && Boundary(s[DecodeRune(s).1..], i - DecodeRune(s).1))
  }

  lemma {:induction false} NextBoundary(s: Bytes, i: nat)
    requires i < |s| && Boundary(s, i)
    ensures i + DecodeRune(s[i..]).1 <= |s| && Boundary(s, i + DecodeRune(s[i..]).1)
    decreases i
  {
    hide DecodeRune;
    if i == 0 {
      assert s[0..] == s;
      assert Boundary(s[DecodeRune(s).1..], 0);
    } else {
      var w := DecodeRune(s).1;
      NextBoundary(s[w..], i - w);
      assert s[w..][i - w..] == s[i..];
    }
  }

  /** Increasing positions in s. */
  ghost predicate Rising(s: Bytes, cuts: seq<nat>) {
    && |cuts| > 0 && cuts[0] == 0
    && (forall k :: 0 <= k < |cuts| ==> cuts[k] <= |s|)
    && (forall j, k :: 0 <= j < k < |cuts| ==> cuts[j] < cuts[k])
  }

  function Last(cuts: seq<nat>): nat
    requires |cuts| > 0
  {
    cuts[|cuts| - 1]
  }

  /** The text of the k-th word. */
  ghost function Piece(s: Bytes, cuts: seq<nat>, k: nat): Bytes
    requires Rising(s, cuts) && k + 1 < |cuts|
  {
    s[cuts[k]..cuts[k + 1]]
  }

  ghost function Pieces(s: Bytes, cuts: seq<nat>): seq<Bytes>
    requires Rising(s, cuts)
  {
    seq(|cuts| - 1, k requires 0 <= k < |cuts| - 1 => Piece(s, cuts, k))
  }

  /** No cut goes through a character. */
  ghost predicate Whole(s: Bytes, cuts: seq<nat>) {
    forall k :: 0 <= k < |cuts| ==> Boundary(s, cuts[k])
  }

  /** The encoded length of the character at i. */
  function RuneLen(s: Bytes, i: nat): nat
    requires i < |s|
  {
    |QText(s[i..i + DecodeRune(s[i..]).1])|
  }

  /** No word is too long, and none could have taken in the first character of the next. */
  ghost predicate Filled(s: Bytes, cuts: seq<nat>)
    requires Rising(s, cuts)
  {
    && (forall k: nat :: k + 1 < |cuts| ==> |QText(Piece(s, cuts, k))| <= MAX_CONTENT_LEN)
    && (forall k: nat :: k + 1 < |cuts| && cuts[k + 1] < |s| ==>
          |QText(Piece(s, cuts, k))| + RuneLen(s, cuts[k + 1]) > MAX_CONTENT_LEN)
  }

  predicate IsUTF8(charset: Bytes) { EqualFold(charset, UTF_8) }

  /** writeQString: appended byte by byte. */
  method WriteQString(buf: Bytes, s: Bytes) returns (out: Bytes)
    ensures out == buf + QText(s)
  {
    hide QText;
    out := buf;
    QTextNone();
    for i := 0 to |s|
      invariant out == buf + QText(s[..i])
    {
      var b := s[i];
      QTextOne(s[..i], b);
      assert s[..i + 1] == s[..i] + [b];
      if b == SPACE {
        out := out + [UNDERSCORE];
      } else if b >= 33 && b <= 126 && b != EQUALS && b != QMARK && b != UNDERSCORE {
        out := out + [b];
      } else {
        out := out + [EQUALS];
        out := out + [UpperHex(b / 16)];
        out := out + [UpperHex(b % 16)];
      }
    }
    assert s[..|s|] == s;
  }

  lemma QTextNone()
    ensures forall s: Bytes :: |s| == 0 ==> QText(s) == []
  {
  }

  lemma QTextOne(a: Bytes, b: Byte)
    ensures QText(a + [b]) == QText(a) + QByte(b)
  {
    QTextAppend(a, [b]);
    assert [b][1..] == [];
    assert QByte(b) + [] == QByte(b);
  }

  /** The loop's own measure of a character is its encoded length. */
  lemma EncLen(s: Bytes, i: nat)
    requires i < |s|
    ensures
      var b, w := s[i], DecodeRune(s[i..]).1;
      if b >= 32 && b <= 126 && b != EQUALS && b != QMARK && b != UNDERSCORE then w == 1 && RuneLen(s, i) == 1
      else RuneLen(s, i) == 3 * w
    ensures RuneLen(s, i) <= 12
  {
    var t := s[i..];
    var w := DecodeRune(t).1;
    assert s[i..i + w] == t[..w];
    hide QText;
    if w == 1 {
      assert t[..1] == [] + [s[i]];
      QTextOne([], s[i]);
      QTextNone();
    } else {
      TripleLen(t[..w]);
    }
  }

  lemma {:induction false} TripleLen(s: Bytes)
    requires forall k :: 0 <= k < |s| ==> s[k] >= 0x80
    ensures |QText(s)| == 3 * |s|
  {
    if s != [] { TripleLen(s[1..]); }
  }

  // ----- the encoder -----

  /** The words up to the last cut are closed; the text from there to i is in the open word. */
  ghost predicate Partial(charset: Bytes, s: Bytes, cuts: seq<nat>, i: nat, out: Bytes) {
    && Rising(s, cuts) && Whole(s, cuts) && Filled(s, cuts)
    && Last(cuts) <= i <= |s| && Boundary(s, i)
    && |QText(s[Last(cuts)..i])| <= MAX_CONTENT_LEN
    && out == Spaced(charset, Pieces(s, cuts)) + OpenWord(charset) + QText(s[Last(cuts)..i])
  }

  lemma PartialStart(charset: Bytes, s: Bytes)
    ensures Partial(charset, s, [0], 0, OpenWord(charset)) && |QText(s[0..0])| == 0
  {
    assert Pieces(s, [0]) == [];
    assert [] + OpenWord(charset) + [] == OpenWord(charset);
  }

  /** A cut at i closes the word that holds the text up to there. */
  lemma AddCut(s: Bytes, cuts: seq<nat>, i: nat)
    requires Rising(s, cuts) && Whole(s, cuts) && Filled(s, cuts) && Last(cuts) < i <= |s| && Boundary(s, i)
    requires |QText(s[Last(cuts)..i])| <= MAX_CONTENT_LEN
    requires i < |s| ==> |QText(s[Last(cuts)..i])| + RuneLen(s, i) > MAX_CONTENT_LEN
    ensures Rising(s, cuts + [i]) && Whole(s, cuts + [i]) && Filled(s, cuts + [i])
    ensures Pieces(s, cuts + [i]) == Pieces(s, cuts) + [s[Last(cuts)..i]]
  {
    hide QText, Boundary, RuneLen;
    var all := cuts + [i];
    assert Rising(s, all);
    forall k: nat | k + 1 < |all|
      ensures Piece(s, all, k) == if k + 1 < |cuts| then Piece(s, cuts, k) else s[Last(cuts)..i]
    {
    }
  }

  /** splitWord at i. */
  lemma SplitHere(charset: Bytes, s: Bytes, cuts: seq<nat>, i: nat, out: Bytes)
    requires Partial(charset, s, cuts, i, out) && i < |s|
    requires |QText(s[Last(cuts)..i])| + RuneLen(s, i) > MAX_CONTENT_LEN
    ensures Partial(charset, s, cuts + [i], i, out + CLOSE_WORD + [SPACE] + OpenWord(charset))
    ensures |QText(s[i..i])| == 0
  {
    EncLen(s, i);
    QTextNone();
    hide QText, Boundary, DecodeRune, OpenWord, RuneLen, CLOSE_WORD, Rising, Whole, Filled, Spaced;
    assert |s[i..i]| == 0;
    assert Last(cuts) != i;
    AddCut(s, cuts, i);
    SpacedSnoc(charset, Pieces(s, cuts), s[Last(cuts)..i]);
    SplitText(Spaced(charset, Pieces(s, cuts)), OpenWord(charset), QText(s[Last(cuts)..i]));
  }

  lemma SplitText(done: Bytes, open: Bytes, q: Bytes)
    ensures (done + open + q) + CLOSE_WORD + [SPACE] + open == (done + (open + q + CLOSE_WORD) + [SPACE]) + open + []
  {
  }

  /** One more character in the open word. */
  lemma OneMoreRune(charset: Bytes, s: Bytes, cuts: seq<nat>, i: nat, out: Bytes)
    requires |cuts| > 0 && Partial(charset, s, cuts, i, out) && i < |s|
    requires |QText(s[Last(cuts)..i])| + RuneLen(s, i) <= MAX_CONTENT_LEN
    ensures
      var j := i + DecodeRune(s[i..]).1;
      && i < j <= |s| && |QText(s[Last(cuts)..j])| == |QText(s[Last(cuts)..i])| + RuneLen(s, i)
      && Partial(charset, s, cuts, j, out + QText(s[i..j]))
  {
    hide QText, Boundary, Spaced, OpenWord, DecodeRune, Rising, Whole, Filled;
    NextBoundary(s, i);
    var j := i + DecodeRune(s[i..]).1;
    assert s[Last(cuts)..j] == s[Last(cuts)..i] + s[i..j];
    QTextAppend(s[Last(cuts)..i], s[i..j]);
  }

  /** closeWord at the end. */
  lemma CloseHere(charset: Bytes, s: Bytes, cuts: seq<nat>, out: Bytes)
    requires s != [] && Partial(charset, s, cuts, |s|, out) && Last(cuts) < |s|
    ensures Rising(s, cuts + [|s|]) && Whole(s, cuts + [|s|]) && Filled(s, cuts + [|s|])
    ensures out + CLOSE_WORD == JoinWords(charset, Pieces(s, cuts + [|s|]))
  {
    hide QText, Boundary, Spaced, OpenWord, DecodeRune, RuneLen, Rising, Whole, Filled;
    AddCut(s, cuts, |s|);
    var pieces := Pieces(s, cuts);
    assert (pieces + [s[Last(cuts)..|s|]])[..|pieces|] == pieces;
  }

  /** qEncode between openWord and closeWord, for charset UTF-8: words of at most 75
      characters that never split a character of s. */
  method QEncodeUTF8(charset: Bytes, s: Bytes) returns (out: Bytes, ghost cuts: seq<nat>)
    requires s != []
    ensures Rising(s, cuts) && Last(cuts) == |s| && Whole(s, cuts) && Filled(s, cuts)
    ensures |cuts| > 1 && out == JoinWords(charset, Pieces(s, cuts))
  {
    hide QText, Boundary, DecodeRune, Spaced, Word, RuneLen, Partial, JoinWords, Filled, Whole, Rising;
    out := OpenWord(charset);
    var currentLen: nat, i: nat := 0, 0;
    cuts := [0];
    PartialStart(charset, s);
    while i < |s|
      invariant i <= |s| && |cuts| > 0 && Last(cuts) <= i && (i > 0 ==> Last(cuts) < i)
      invariant Partial(charset, s, cuts, i, out)
      invariant currentLen == |QText(s[Last(cuts)..i])| <= MAX_CONTENT_LEN
    {
      var b := s[i];
      var runeLen, encLen;
      EncLen(s, i);
      if b >= 32 && b <= 126 && b != EQUALS && b != QMARK && b != UNDERSCORE {
        runeLen, encLen := 1, 1;
      } else {
        runeLen := DecodeRune(s[i..]).1;
        encLen := 3 * runeLen;
      }
      if currentLen + encLen > MAX_CONTENT_LEN {
        SplitHere(charset, s, cuts, i, out);
        out := out + CLOSE_WORD + [SPACE] + OpenWord(charset);
        cuts := cuts + [i];
        currentLen := 0;
      }
      OneMoreRune(charset, s, cuts, i, out);
      out := WriteQString(out, s[i..i + runeLen]);
      currentLen := currentLen + encLen;
      i := i + runeLen;
    }
    CloseHere(charset, s, cuts, out);
    out := out + CLOSE_WORD;
    cuts := cuts + [|s|];
  }

  // ----- the decoder -----

  datatype Result = Ok(value: Bytes) | UnhandledCharset(charset: Bytes)

  /** The first position of the two bytes a, b, or -1. */
  function IndexPair(s: Bytes, a: Byte, b: Byte): (i: int)
    ensures -1 <= i && (i >= 0 ==> i + 1 < |s| && s[i] == a && s[i + 1] == b)
    ensures forall k :: 0 <= k < |s| - 1 && (i < 0 || k < i) ==> s[k] != a || s[k + 1] != b
  {
    if |s| < 2 then -1
    else if s[0] == a && s[1] == b then 0
    else
      var i := IndexPair(s[1..], a, b);
      assert forall k :: 1 <= k < |s| ==> s[k] == s[1..][k - 1];
      if i < 0 then -1 else i + 1
  }

  lemma IndexPairIs(s: Bytes, a: Byte, b: Byte, i: nat)
    requires i + 1 < |s| && s[i] == a && s[i + 1] == b
    requires forall k :: 0 <= k < i ==> s[k] != a || s[k + 1] != b
    ensures IndexPair(s, a, b) == i
  {
    hide IndexPair;
    var j := IndexPair(s, a, b);
    assert j < 0 || (s[j] == a && s[j + 1] == b);
  }

  /** The parts of "=?charset?encoding?text?=" at start in the header. */
  datatype Parts = Parts(start: nat, charset: Bytes, encoding: Byte, text: Bytes, end: nat)

  /** charset, encoding, text and length of "charset?encoding?text?=" at the front. */
  function FindFields(t: Bytes): (r: Option<(Bytes, Byte, Bytes, nat)>)
    ensures r.Some? ==> 4 < r.value.3 <= |t|
  {
    var i := IndexByte(t, QMARK);
    if i == -1 then None
    else
      var u := t[i + 1..];
      if |u| < 4 || u[1] != QMARK then None
      else
        var j := IndexPair(u[2..], QMARK, EQUALS);
        if j == -1 then None else Some((t[..i], u[0], u[2..][..j], i + j + 5))
  }

  /** What looks like the first encoded-word of the header. */
  function FindWord(header: Bytes): (r: Option<Parts>)
    ensures r.Some? ==> r.value.start + 6 < r.value.end <= |header|
  {
    var start := IndexPair(header, EQUALS, QMARK);
    if start == -1 then None
    else
      var f := FindFields(header[start + 2..]);
      if f.None? then None
      else Some(Parts(start, f.value.0, f.value.1, f.value.2, start + 2 + f.value.3))
  }

  /** decode: the B encoding is a parameter, its package is not part of this model. */
  function Decode(base64: Bytes -> Option<Bytes>, encoding: Byte, text: Bytes): Option<Bytes> {
    if encoding == 66 || encoding == 98 then base64(text)
    else if encoding == 81 || encoding == 113 then QDecoded(text)
    else None
  }

  function Latin1(s: Bytes): Bytes {
    if s == [] then [] else EncodeRune(s[0]) + Latin1(s[1..])
  }

  function Ascii(s: Bytes): Bytes {
    if s == [] then [] else (if s[0] >= 0x80 then EncodeRune(RUNE_ERROR) else [s[0]]) + Ascii(s[1..])
  }

  /** convert without a CharsetReader. */
  function Convert(charset: Bytes, content: Bytes): Result {
    if EqualFold(UTF_8, charset) then Ok(content)
    else if EqualFold(ISO_8859_1, charset) then Ok(Latin1(content))
    else if EqualFold(US_ASCII, charset) then Ok(Ascii(content))
    else UnhandledCharset(charset)
  }

  predicate HasNonWhitespace(s: Bytes) {
    exists k :: 0 <= k < |s| && s[k] != SPACE && s[k] != 9 && s[k] != 10 && s[k] != 13
  }

  function After(a: Bytes, r: Result): Result {
    match r
    case Ok(b) => Ok(a + b)
    case UnhandledCharset(_) => r
  }

  /** The text of a header from here on; white space between two encoded-words is no text. */
  function DecodedFrom(base64: Bytes -> Option<Bytes>, header: Bytes, betweenWords: bool): Result
    decreases |header|
  {
    var w := FindWord(header);
    if w.None? then Ok(header)
    else
      var p := w.value;
      var content := Decode(base64, p.encoding, p.text);
      if content.None? then
        After(header[..p.start + 2], DecodedFrom(base64, header[p.start + 2..], false))
      else
        var before :=
          if p.start > 0 && (!betweenWords || HasNonWhitespace(header[..p.start])) then header[..p.start] else [];
        var x := Convert(p.charset, content.value);
        match x
        case Ok(text) => After(before + text, DecodedFrom(base64, header[p.end..], true))
        case UnhandledCharset(_) => x
  }

  function DecodedHeader(base64: Bytes -> Option<Bytes>, header: Bytes): Result {
    var i := IndexPair(header, EQUALS, QMARK);
    if i == -1 then Ok(header) else After(header[..i], DecodedFrom(base64, header[i..], false))
  }

  // ----- round trip -----

  lemma PairAfter(lead: Bytes, a: Byte, b: Byte, tail: Bytes)
    requires a !in lead
    ensures IndexPair(lead + ([a, b] + tail), a, b) == |lead|
  {
    hide IndexPair;
    var s := lead + ([a, b] + tail);
    assert forall k :: 0 <= k < |lead| ==> s[k] == lead[k];
    IndexPairIs(s, a, b, |lead|);
  }

  lemma ByteAfter(lead: Bytes, c: Byte, tail: Bytes)
    requires c !in lead
    ensures IndexByte(lead + ([c] + tail), c) == |lead|
  {
    hide IndexByte;
    var s := lead + ([c] + tail);
    assert forall k :: 0 <= k < |lead| ==> s[k] == lead[k];
    IndexByteIs(s, c, |lead|);
  }

  lemma Apart(a: Bytes, b: Bytes)
    ensures (a + b)[..|a|] == a && (a + b)[|a|..] == b
  {
  }

  lemma FieldsOf(charset: Bytes, q: Bytes, rest: Bytes)
    requires QMARK !in charset && QMARK !in q
    ensures FindFields(charset + ([QMARK] + ([113, QMARK] + (q + ([QMARK, EQUALS] + rest)))))
      == Some((charset, 113, q, |charset| + |q| + 5))
  {
    hide IndexByte, IndexPair;
    var v := q + ([QMARK, EQUALS] + rest);
    var u := [113, QMARK] + v;
    ByteAfter(charset, QMARK, u);
    Apart(charset, [QMARK] + u);
    Apart(charset + [QMARK], u);
    assert charset + ([QMARK] + u) == (charset + [QMARK]) + u;
    Apart([113, QMARK], v);
    PairAfter(q, QMARK, EQUALS, rest);
    Apart(q, [QMARK, EQUALS] + rest);
  }

  lemma Assoc(a: Bytes, b: Bytes, c: Bytes)
    ensures (a + b) + c == a + (b + c)
  {
  }

  lemma Nested(charset: Bytes, q: Bytes, rest: Bytes)
    ensures OpenWord(charset) + q + CLOSE_WORD + rest
      == [EQUALS, QMARK] + (charset + ([QMARK] + ([113, QMARK] + (q + (CLOSE_WORD + rest)))))
  {
    hide CLOSE_WORD;
    var a, c, x := [EQUALS, QMARK], [QMARK, 113, QMARK], q + (CLOSE_WORD + rest);
    Assoc(OpenWord(charset) + q, CLOSE_WORD, rest);
    Assoc(OpenWord(charset), q, CLOSE_WORD + rest);
    Assoc(a + charset, c, x);
    Assoc(a, charset, c + x);
    assert c + x == [QMARK] + ([113, QMARK] + x);
  }

  lemma FindFrom(lead: Bytes, t: Bytes)
    requires EQUALS !in lead && FindFields(t).Some?
    ensures
      var f := FindFields(t).value;
      FindWord(lead + ([EQUALS, QMARK] + t)) == Some(Parts(|lead|, f.0, f.1, f.2, |lead| + 2 + f.3))
  {
    hide FindFields, IndexPair;
    PairAfter(lead, EQUALS, QMARK, t);
    Assoc(lead, [EQUALS, QMARK], t);
    Apart(lead + [EQUALS, QMARK], t);
  }

  lemma FindAt(lead: Bytes, charset: Bytes, q: Bytes, rest: Bytes)
    requires QMARK !in charset && QMARK !in q && EQUALS !in lead
    ensures FindWord(lead + (OpenWord(charset) + q + CLOSE_WORD) + rest)
      == Some(Parts(|lead|, charset, 113, q, |lead| + |charset| + |q| + 7))
  {
    hide FindFields, FindWord, OpenWord;
    Nested(charset, q, rest);
    Assoc(lead, OpenWord(charset) + q + CLOSE_WORD, rest);
    FieldsOf(charset, q, rest);
    FindFrom(lead, charset + ([QMARK] + ([113, QMARK] + (q + (CLOSE_WORD + rest)))));
  }

  /** A header that starts with an encoded-word made here, perhaps after a space. */
  lemma FindEncoded(lead: Bytes, charset: Bytes, content: Bytes, rest: Bytes)
    requires QMARK !in charset && EQUALS !in lead
    ensures FindWord(lead + Word(charset, content) + rest) ==
      Some(Parts(|lead|, charset, 113, QText(content), |lead| + |Word(charset, content)|))
  {
    QTextHasNoQMark(content);
    var q := QText(content);
    hide QText, FindWord;
    FindAt(lead, charset, q, rest);
  }

  lemma NoQMark(charset: Bytes)
    requires IsUTF8(charset)
    ensures QMARK !in charset && forall content :: Convert(charset, content) == Ok(content)
  {
    assert forall k :: 0 <= k < 5 ==> ToLower(charset[k]) == ToLower(UTF_8[k]);
  }

  /** A word that decodes, with nothing or only white space between words before it. */
  lemma DecodeStep(base64: Bytes -> Option<Bytes>, header: Bytes, between: bool, p: Parts, content: Bytes)
    requires FindWord(header) == Some(p) && p.end <= |header| && p.start <= p.end
    requires Decode(base64, p.encoding, p.text) == Some(content) && Convert(p.charset, content) == Ok(content)
    requires p.start == 0 || (between && !HasNonWhitespace(header[..p.start]))
    ensures DecodedFrom(base64, header, between) == After(content, DecodedFrom(base64, header[p.end..], true))
  {
    hide FindWord, Decode, Convert, HasNonWhitespace;
    assert [] + content == content;
  }

  /** One word is read back, and the space before it is dropped between two words. */
  lemma ReadWord(base64: Bytes -> Option<Bytes>, lead: Bytes, charset: Bytes, content: Bytes, rest: Bytes)
    requires IsUTF8(charset) && (lead == [] || lead == [SPACE])
    ensures DecodedFrom(base64, lead + Word(charset, content) + rest, lead != [])
      == After(content, DecodedFrom(base64, rest, true))
  {
    NoQMark(charset);
    FindEncoded(lead, charset, content, rest);
    QRoundTrip(content);
    var h, n := lead + Word(charset, content) + rest, |lead| + |Word(charset, content)|;
    hide FindWord, QText, Word, QDecoded, DecodedFrom, Convert, After;
    Apart(lead + Word(charset, content), rest);
    assert h[..|lead|] == lead;
    DecodeStep(base64, h, lead != [], Parts(|lead|, charset, 113, QText(content), n), content);
  }

  lemma JoinFront(charset: Bytes, chunks: seq<Bytes>)
    requires |chunks| > 0
    ensures JoinWords(charset, chunks) ==
      if |chunks| == 1 then Word(charset, chunks[0])
      else Word(charset, chunks[0]) + ([SPACE] + JoinWords(charset, chunks[1..]))
  {
    hide Word;
    if |chunks| > 1 {
      assert chunks[..|chunks| - 1][1..] == chunks[1..][..|chunks| - 2];
      var w, m, l :=
        Word(charset, chunks[0]), Spaced(charset, chunks[1..][..|chunks| - 2]), Word(charset, chunks[|chunks| - 1]);
      assert (w + [SPACE] + m) + l == w + ([SPACE] + (m + l));
    } else {
      assert chunks[..0] == [];
      assert [] + Word(charset, chunks[0]) == Word(charset, chunks[0]);
    }
  }

  function Concat(chunks: seq<Bytes>): Bytes {
    if |chunks| == 0 then [] else chunks[0] + Concat(chunks[1..])
  }

  lemma {:induction false} ConcatSnoc(chunks: seq<Bytes>, c: Bytes)
    ensures Concat(chunks + [c]) == Concat(chunks) + c
  {
    if |chunks| == 0 {
      assert (chunks + [c])[1..] == [];
    } else {
      ConcatSnoc(chunks[1..], c);
      assert (chunks + [c])[1..] == chunks[1..] + [c];
    }
  }

  /** The pieces make up the whole. */
  lemma {:induction false} ConcatPieces(s: Bytes, cuts: seq<nat>)
    requires Rising(s, cuts)
    ensures Concat(Pieces(s, cuts)) == s[..Last(cuts)]
    decreases |cuts|
  {
    if |cuts| > 1 {
      var init := cuts[..|cuts| - 1];
      ConcatPieces(s, init);
      assert Pieces(s, cuts) == Pieces(s, init) + [s[Last(init)..Last(cuts)]];
      ConcatSnoc(Pieces(s, init), s[Last(init)..Last(cuts)]);
      assert s[..Last(cuts)] == s[..Last(init)] + s[Last(init)..Last(cuts)];
    }
  }

  /** Words made here, separated by spaces, are read back without the spaces. */
  lemma {:induction false} ReadWords(base64: Bytes -> Option<Bytes>, lead: Bytes, charset: Bytes, chunks: seq<Bytes>)
    requires IsUTF8(charset) && |chunks| > 0 && (lead == [] || lead == [SPACE])
    ensures DecodedFrom(base64, lead + JoinWords(charset, chunks), lead != []) == Ok(Concat(chunks))
    decreases |chunks|
  {
    JoinFront(charset, chunks);
    if |chunks| == 1 {
      ReadLast(base64, lead, charset, chunks[0]);
      assert chunks[1..] == [] && chunks[0] + [] == chunks[0];
    } else {
      hide DecodedFrom, JoinWords, Word;
      var rest := [SPACE] + JoinWords(charset, chunks[1..]);
      ReadWords(base64, [SPACE], charset, chunks[1..]);
      ReadWord(base64, lead, charset, chunks[0], rest);
      Assoc(lead, Word(charset, chunks[0]), rest);
    }
  }

  lemma ReadLast(base64: Bytes -> Option<Bytes>, lead: Bytes, charset: Bytes, content: Bytes)
    requires IsUTF8(charset) && (lead == [] || lead == [SPACE])
    ensures DecodedFrom(base64, lead + Word(charset, content), lead != []) == Ok(content)
  {
    hide Word;
    ReadWord(base64, lead, charset, content, []);
    assert lead + Word(charset, content) + [] == lead + Word(charset, content);
    assert content + [] == content;
  }

  /** DecodeHeader gives back, byte for byte, the text of the words of any division of it. */
  lemma DecodeUndoesEncode(base64: Bytes -> Option<Bytes>, charset: Bytes, s: Bytes, cuts: seq<nat>)
    requires IsUTF8(charset) && Rising(s, cuts) && |cuts| > 1 && Last(cuts) == |s|
    ensures DecodedHeader(base64, JoinWords(charset, Pieces(s, cuts))) == Ok(s)
  {
    hide QText, Spaced, DecodedFrom;
    var h := JoinWords(charset, Pieces(s, cuts));
    ReadWords(base64, [], charset, Pieces(s, cuts));
    ConcatPieces(s, cuts);
    assert s[..|s|] == s;
    JoinFront(charset, Pieces(s, cuts));
    assert h[0] == EQUALS && h[1] == QMARK;
    IndexPairIs(h, EQUALS, QMARK, 0);
    assert h[0..] == [] + h && h[..0] == [] && [] + s == s;
  }

  // ----- the loop of DecodeHeader -----

  /** One turn of the loop: how it changes the written text, the header and the flag. */
  datatype Turn = Stop | Fail(charset: Bytes) | Go(written: Bytes, header: Bytes, betweenWords: bool)

  /** The cursor of the loop finds the fields in place. */
  method ScanFields(header: Bytes, start: nat) returns (f: Option<(Bytes, Byte, Bytes, nat)>)
    requires start <= |header|
    ensures f == FindFields(header[start..])
  {
    hide IndexByte, IndexPair;
    var i: int := IndexByte(header[start..], QMARK);
    if i == -1 {
      return None;
    }
    Cursor(header, start, i);
    var charset := header[start..start + i];
    var cur: nat := start + i + 1;
    if |header| < cur + 4 {
      return None;
    }
    var encoding := header[cur];
    cur := cur + 1;
    if header[cur] != QMARK {
      return None;
    }
    cur := cur + 1;
    var j: int := IndexPair(header[cur..], QMARK, EQUALS);
    if j == -1 {
      return None;
    }
    f := Some((charset, encoding, header[cur..][..j], cur + j + 2 - start));
  }

  method ScanWord(header: Bytes) returns (p: Option<Parts>)
    ensures p == FindWord(header)
  {
    hide IndexPair, FindFields;
    var start: int := IndexPair(header, EQUALS, QMARK);
    if start == -1 {
      return None;
    }
    var f := ScanFields(header, start + 2);
    if f.None? {
      return None;
    }
    p := Some(Parts(start, f.value.0, f.value.1, f.value.2, start + 2 + f.value.3));
  }

  /** Slicing with a cursor and slicing what is left are the same. */
  lemma Cursor(header: Bytes, start: nat, i: nat)
    requires start <= |header| && i < |header| - start
    ensures header[start..][..i] == header[start..start + i] && header[start..][i + 1..] == header[start + i + 1..]
    ensures |header| >= start + i + 3 ==>
      && header[start..][i + 1..][2..] == header[start + i + 3..]
      && header[start..][i + 1..][0] == header[start + i + 1] && header[start..][i + 1..][1] == header[start + i + 2]
  {
  }

  method DecodeTurn(base64: Bytes -> Option<Bytes>, header: Bytes, betweenWords: bool) returns (t: Turn)
    ensures t.Stop? ==> DecodedFrom(base64, header, betweenWords) == Ok(header)
    ensures t.Fail? ==> DecodedFrom(base64, header, betweenWords) == UnhandledCharset(t.charset)
    ensures t.Go? ==>
      && |t.header| < |header|
      && DecodedFrom(base64, header, betweenWords) == After(t.written, DecodedFrom(base64, t.header, t.betweenWords))
  {
    hide FindWord, Decode;
    var p := ScanWord(header);
    if p.None? {
      return Stop;
    }
    var w := p.value;
    var content := Decode(base64, w.encoding, w.text);
    if content.None? {
      return Go(header[..w.start + 2], header[w.start + 2..], false);
    }
    var before := [];
    if w.start > 0 && (!betweenWords || HasNonWhitespace(header[..w.start])) {
      before := header[..w.start];
    }
    var x := Convert(w.charset, content.value);
    match x
    case UnhandledCharset(c) => t := Fail(c);
    case Ok(text) => t := Go(before + text, header[w.end..], true);
  }

  method DecodeHeader(base64: Bytes -> Option<Bytes>, header: Bytes) returns (r: Result)
    ensures r == DecodedHeader(base64, header)
  {
    hide DecodedFrom;
    var i := IndexPair(header, EQUALS, QMARK);
    if i == -1 {
      return Ok(header);
    }
    var buf := header[..i];
    var rest := header[i..];
    var betweenWords := false;
    while true
      invariant DecodedHeader(base64, header) == After(buf, DecodedFrom(base64, rest, betweenWords))
      decreases |rest|
    {
      var t := DecodeTurn(base64, rest, betweenWords);
      match t
      case Stop =>
        return Ok(buf + rest);
      case Fail(charset) =>
        return UnhandledCharset(charset);
      case Go(written, next, between) =>
        AfterAfter(buf, written, DecodedFrom(base64, next, between));
        buf, rest, betweenWords := buf + written, next, between;
    }
  }

  lemma AfterAfter(a: Bytes, b: Bytes, r: Result)
    ensures After(a, After(b, r)) == After(a + b, r)
  {
    if r.Ok? { assert a + (b + r.value) == (a + b) + r.value; }
  }

  // ----- the entry points -----

  predicate Printable(b: Byte) { 32 <= b <= 126 || b == 9 }

  /** needsEncoding looks at characters; a character above '~' starts with a byte above '~'. */
  method NeedsEncoding(s: Bytes) returns (needs: bool)
    ensures needs <==> exists k :: 0 <= k < |s| && !Printable(s[k])
  {
    var i := 0;
    while i < |s|
      invariant 0 <= i <= |s| && forall k :: 0 <= k < i ==> Printable(s[k])
    {
      var (b, w) := DecodeRune(s[i..]);
      EncodeDecoded(s[i..]);
      assert s[i..][0] == s[i];
      if (b < 32 || b > 126) && b != 9 {
        assert !Printable(s[i]);
        return true;
      }
      i := i + w;
    }
    needs := false;
  }

  /** WordEncoder.Encode with the Q encoding. What needs encoding becomes words of at most 75
      characters, cut between characters of s, that DecodeHeader turns back into s. */
  method Encode(charset: Bytes, s: Bytes) returns (out: Bytes, ghost cuts: seq<nat>)
    ensures (forall k :: 0 <= k < |s| ==> Printable(s[k])) ==> out == s
    ensures (exists k :: 0 <= k < |s| && !Printable(s[k])) && !IsUTF8(charset) ==> out == Word(charset, s)
    ensures (exists k :: 0 <= k < |s| && !Printable(s[k])) && IsUTF8(charset) ==>
      && Rising(s, cuts) && |cuts| > 1 && Last(cuts) == |s| && Whole(s, cuts) && Filled(s, cuts)
      && out == JoinWords(charset, Pieces(s, cuts))
      && (forall k: nat :: k + 1 < |cuts| ==> |Word(charset, Piece(s, cuts, k))| <= MAX_ENCODED_WORD_LEN)
      && (forall base64: Bytes -> Option<Bytes> :: DecodedHeader(base64, out) == Ok(s))
  {
    hide JoinWords, Whole, Filled, DecodedHeader;
    cuts := [];
    var needs := NeedsEncoding(s);
    if !needs {
      return s, [];
    }
    if IsUTF8(charset) {
      out, cuts := QEncodeUTF8(charset, s);
      WordLengths(charset, s, cuts);
      forall base64: Bytes -> Option<Bytes>
        ensures DecodedHeader(base64, out) == Ok(s)
      {
        DecodeUndoesEncode(base64, charset, s, cuts);
      }
    } else {
      out := WriteQString(OpenWord(charset), s);
      out := out + CLOSE_WORD;
    }
  }

  lemma WordLengths(charset: Bytes, s: Bytes, cuts: seq<nat>)
    requires IsUTF8(charset) && Rising(s, cuts) && Filled(s, cuts)
    ensures forall k: nat :: k + 1 < |cuts| ==> |Word(charset, Piece(s, cuts, k))| <= MAX_ENCODED_WORD_LEN
  {
    hide QText;
  }
}
