/** mime.FormatMediaType: media types and parameters per RFC 2045 and RFC 2231. */
module MediaFormat {
  import opened Basics
  import opened Lines
  import opened Grammar
  import opened KeyOrder
  import E = EncodedWord

  type Params = map<Bytes, Bytes>

  const SLASH: Byte := 47
  const SEMICOLON: Byte := 59
  const SPACE: Byte := 32
  const EQUALS: Byte := 61
  const STAR: Byte := 42
  const QUOTE: Byte := 34      // "
  const BACKSLASH: Byte := 92
  const APOSTROPHE: Byte := 39
  const PERCENT: Byte := 37
  const UTF8_PREFIX: Bytes := [117, 116, 102, 45, 56, 39, 39]  // utf-8''

  // ----- what is written -----

  /** needsEncoding of encodedword.go. */
  predicate NeedsEncoding(s: Bytes) {
    exists k :: 0 <= k < |s| && !E.Printable(s[k])
  }

  /** RFC 2231 section 7: what an extended value cannot hold as itself. */
  predicate Escaped(ch: Byte) {
    ch <= 32 || ch >= 0x7F || ch == STAR || ch == APOSTROPHE || ch == PERCENT || IsTSpecial(ch)
  }

  function PercentByte(ch: Byte): Bytes {
    if Escaped(ch) then [PERCENT, E.UpperHex(ch / 16), E.UpperHex(ch % 16)] else [ch]
  }

  function Percent(s: Bytes): Bytes {
    if s == [] then [] else Percent(s[..|s| - 1]) + PercentByte(s[|s| - 1])
  }

  function QuoteByte(ch: Byte): Bytes {
    if ch == QUOTE || ch == BACKSLASH then [BACKSLASH, ch] else [ch]
  }

  function Quoted(s: Bytes): Bytes {
    if s == [] then [] else Quoted(s[..|s| - 1]) + QuoteByte(s[|s| - 1])
  }

  /** What follows the attribute: an extended value, a token or a quoted string. */
  function ValueText(value: Bytes): Bytes {
    if NeedsEncoding(value) then [STAR, EQUALS] + UTF8_PREFIX + Percent(value)
    else if IsToken(value) then [EQUALS] + value
    else [EQUALS, QUOTE] + Quoted(value) + [QUOTE]
  }

  function ParamText(attr: Bytes, value: Bytes): Bytes {
    [SEMICOLON, SPACE] + Lower(attr) + ValueText(value)
  }

  /** The parameters in the order of the list. */
  function ParamsText(attrs: seq<Bytes>, params: Params): Bytes
    requires forall a <- attrs :: a in params
  {
    if attrs == [] then []
    else ParamsText(attrs[..|attrs| - 1], params) + ParamText(attrs[|attrs| - 1], params[attrs[|attrs| - 1]])
  }

  /** A type is a token, or two tokens around a slash. */
  predicate ValidType(t: Bytes) {
    var slash := IndexByte(t, SLASH);
    if slash == -1 then IsToken(t) else IsToken(t[..slash]) && IsToken(t[slash + 1..])
  }

  ghost predicate Lists(attrs: seq<Bytes>, params: Params) {
    Sorted(attrs) && KeySet(attrs) == params.Keys
  }

  // ----- the printer -----

  /** sort.Strings over the keys of a map. */
  method SortedKeys(params: Params) returns (attrs: seq<Bytes>)
    ensures Lists(attrs, params)
  {
    hide Less, Insert;
    attrs := [];
    var left := params.Keys;
    while left != {}
      invariant Sorted(attrs) && KeySet(attrs) + left == params.Keys
      decreases |left|
    {
      var a :| a in left;
      InsertKeeps(attrs, a);
      attrs := Insert(attrs, a);
      left := left - {a};
    }
  }

  lemma PercentSnoc(value: Bytes, i: nat)
    requires i < |value|
    ensures Percent(value[..i + 1]) == Percent(value[..i]) + PercentByte(value[i])
  {
    assert value[..i + 1][..i] == value[..i];
  }

  lemma QuotedSnoc(value: Bytes, i: nat)
    requires i < |value|
    ensures Quoted(value[..i + 1]) == Quoted(value[..i]) + QuoteByte(value[i])
  {
    assert value[..i + 1][..i] == value[..i];
  }

  /** The percent loop: runs of plain bytes are written at once. */
  method WritePercent(b: Bytes, value: Bytes) returns (out: Bytes)
    ensures out == b + Percent(value)
  {
    hide Percent, Escaped;
    out := b;
    var offset := 0;
    NoText();
    for index := 0 to |value|
      invariant 0 <= offset <= index
      invariant out + value[offset..index] == b + Percent(value[..index])
    {
      var ch := value[index];
      PercentSnoc(value, index);
      ghost var done := b + Percent(value[..index]);
      assert out + value[offset..index + 1] == done + [ch] by {
        assert value[offset..index + 1] == value[offset..index] + [ch];
      }
      if Escaped(ch) {
        out := out + value[offset..index];
        offset := index + 1;
        out := out + [PERCENT];
        out := out + [E.UpperHex(ch / 16)];
        out := out + [E.UpperHex(ch % 16)];
        assert out + value[offset..index + 1] == done + [PERCENT, E.UpperHex(ch / 16), E.UpperHex(ch % 16)];
      }
      assert done + PercentByte(ch) == b + (Percent(value[..index]) + PercentByte(ch));
    }
    assert value[..|value|] == value;
    out := out + value[offset..];
  }

  lemma NoText()
    ensures forall s: Bytes :: |s| == 0 ==> Percent(s) == [] && Quoted(s) == []
  {
  }

  /** The quoting loop: a run ends before the byte that gets a backslash. */
  method WriteQuoted(b: Bytes, value: Bytes) returns (out: Bytes)
    ensures out == b + Quoted(value)
  {
    hide Quoted;
    out := b;
    var offset := 0;
    NoText();
    for index := 0 to |value|
      invariant 0 <= offset <= index
      invariant out + value[offset..index] == b + Quoted(value[..index])
    {
      var character := value[index];
      QuotedSnoc(value, index);
      ghost var done := b + Quoted(value[..index]);
      assert out + value[offset..index + 1] == done + [character] by {
        assert value[offset..index + 1] == value[offset..index] + [character];
      }
      if character == QUOTE || character == BACKSLASH {
        out := out + value[offset..index];
        offset := index;
        out := out + [BACKSLASH];
        assert out + value[offset..index + 1] == done + [BACKSLASH, character];
      }
      assert done + QuoteByte(character) == b + (Quoted(value[..index]) + QuoteByte(character));
    }
    assert value[..|value|] == value;
    out := out + value[offset..];
  }

  method WriteValue(b: Bytes, value: Bytes) returns (out: Bytes)
    ensures out == b + ValueText(value)
  {
    hide Percent, Quoted, IsToken;
    ExtendedForm(b, Percent(value));
    OtherForms(b, value, Quoted(value));
    hide UTF8_PREFIX;
    var needEnc := E.NeedsEncoding(value);
    out := b;
    if needEnc {
      out := out + [STAR];
    }
    out := out + [EQUALS];
    if needEnc {
      out := out + UTF8_PREFIX;
      out := WritePercent(out, value);
      return;
    }
    if IsToken(value) {
      out := out + value;
      return;
    }
    out := out + [QUOTE];
    out := WriteQuoted(out, value);
    out := out + [QUOTE];
  }

  lemma ExtendedForm(b: Bytes, x: Bytes)
    ensures b + [STAR] + [EQUALS] + UTF8_PREFIX + x == b + ([STAR, EQUALS] + UTF8_PREFIX + x)
  {
    hide UTF8_PREFIX;
  }

  lemma OtherForms(b: Bytes, v: Bytes, x: Bytes)
    ensures b + [EQUALS] + v == b + ([EQUALS] + v)
    ensures b + [EQUALS] + [QUOTE] + x + [QUOTE] == b + ([EQUALS, QUOTE] + x + [QUOTE])
  {
  }

  /** FormatMediaType: the empty string when the type or a name is no token; otherwise the
      type and, in order of the names, the parameters. */
  method FormatMediaType(t: Bytes, params: Params) returns (out: Bytes, ghost attrs: seq<Bytes>)
    ensures Lists(attrs, params)
    ensures (!ValidType(t) || exists a <- params.Keys :: !IsToken(a)) ==> out == []
    ensures ValidType(t) && (forall a <- params.Keys :: IsToken(a)) ==>
      (forall a <- attrs :: a in params) && out == Lower(t) + ParamsText(attrs, params)
  {
    hide IsToken, Lower, ParamText, Sorted, Less;
    var keys := SortedKeys(params);
    attrs := keys;
    assert forall a <- attrs :: a in params.Keys by {
      forall a <- attrs ensures a in params.Keys { assert a in KeySet(attrs); }
    }
    var slash := IndexByte(t, SLASH);
    if slash == -1 {
      if !IsToken(t) {
        return [], keys;
      }
      out := Lower(t);
    } else {
      var major, sub := t[..slash], t[slash + 1..];
      if !IsToken(major) || !IsToken(sub) {
        return [], keys;
      }
      out := Lower(major) + [SLASH] + Lower(sub);
      LowerParts(t, slash);
    }
    for i := 0 to |keys|
      invariant forall a <- keys[..i] :: IsToken(a)
      invariant forall a <- keys[..i] :: a in params
      invariant out == Lower(t) + ParamsText(keys[..i], params)
    {
      var attribute := keys[i];
      assert attribute in keys;
      var value := params[attribute];
      out := out + [SEMICOLON] + [SPACE];
      if !IsToken(attribute) {
        return [], keys;
      }
      out := out + Lower(attribute);
      out := WriteValue(out, value);
      NextParam(keys, i, params, Lower(t));
    }
    assert keys[..|keys|] == keys;
    assert forall a <- params.Keys :: IsToken(a) by {
      forall a <- params.Keys ensures IsToken(a) { assert a in KeySet(keys); }
    }
  }

  lemma LowerParts(t: Bytes, i: nat)
    requires i < |t| && t[i] == SLASH
    ensures Lower(t) == Lower(t[..i]) + [SLASH] + Lower(t[i + 1..])
  {
    assert Lower([SLASH]) == [SLASH];
    hide Lower;
    assert t == t[..i] + [SLASH] + t[i + 1..];
    LowerAppend(t[..i] + [SLASH], t[i + 1..]);
    LowerAppend(t[..i], [SLASH]);
  }

  lemma NextParam(keys: seq<Bytes>, i: nat, params: Params, head: Bytes)
    requires i < |keys| && (forall a <- keys :: a in params)
    ensures forall a <- keys[..i + 1] :: a in keys[..i] || a == keys[i]
    ensures
      var a := keys[i];
      head + ParamsText(keys[..i], params) + [SEMICOLON] + [SPACE] + Lower(a) + ValueText(params[a])
        == head + ParamsText(keys[..i + 1], params)
  {
    hide Lower, ValueText;
    assert keys[..i + 1] == keys[..i] + [keys[i]];
    assert keys[..i + 1][..i] == keys[..i];
    var x, l, v := ParamsText(keys[..i], params), Lower(keys[i]), ValueText(params[keys[i]]);
    assert head + x + [SEMICOLON] + [SPACE] + l + v == head + (x + ([SEMICOLON, SPACE] + l + v));
  }
}
