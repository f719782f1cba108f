/** ParseMediaType undoes FormatMediaType, for arbitrary byte strings as values. */
module MediaRoundTrip {
  import opened Basics
  import opened Lines
  import opened Grammar
  import opened KeyOrder
  import opened MediaFormat
  import opened MediaParse
  import opened MediaType
  import E = EncodedWord

  // ----- extended values -----

  lemma {:induction false} PercentFront(s: Bytes)
    requires s != []
    ensures Percent(s) == PercentByte(s[0]) + Percent(s[1..])
  {
    hide PercentByte;
    if |s| == 1 {
      assert s[..0] == [] && s[1..] == [];
    } else {
      var m := s[1..][..|s| - 2];
      PercentFront(s[..|s| - 1]);
      assert s[..|s| - 1][1..] == m;
      E.Assoc(PercentByte(s[0]), Percent(m), PercentByte(s[|s| - 1]));
    }
  }

  lemma UnhexOfByte(ch: Byte, rest: Bytes)
    ensures UnhexFirst(PercentByte(ch) + rest) == Some((ch, |PercentByte(ch)|))
  {
    var s := PercentByte(ch) + rest;
    hide IsTSpecial;
    if Escaped(ch) {
      assert s[1] == E.UpperHex(ch / 16) && s[2] == E.UpperHex(ch % 16);
    }
  }

  /** Percent-decoding undoes percent-encoding. */
  lemma {:induction false} UnhexPercent(s: Bytes)
    ensures Unhexed(Percent(s)) == Some(s)
  {
    if s != [] {
      UnhexPercent(s[1..]);
      PercentFront(s);
      UnhexOfByte(s[0], Percent(s[1..]));
      hide UnhexFirst, PercentByte, Percent;
      assert (PercentByte(s[0]) + Percent(s[1..]))[|PercentByte(s[0])|..] == Percent(s[1..]);
      assert s == [s[0]] + s[1..];
    }
  }

  ghost predicate AttributeChars(s: Bytes) {
    forall k :: 0 <= k < |s| ==> IsTokenChar(s[k]) && s[k] != APOSTROPHE
  }

  lemma {:induction false} PercentChars(s: Bytes)
    ensures AttributeChars(Percent(s))
  {
    if s != [] {
      PercentChars(s[..|s| - 1]);
      ByteChars(s[|s| - 1]);
      hide IsTokenChar, PercentByte;
    }
  }

  lemma ByteChars(ch: Byte)
    ensures AttributeChars(PercentByte(ch))
  {
  }

  function Extended(value: Bytes): Bytes { UTF8_PREFIX + Percent(value) }

  /** An extended value is a token that decodes to the value. */
  lemma ExtendedValue(value: Bytes)
    ensures IsToken(Extended(value)) && Decode2231(Extended(value)) == Some(value)
  {
    PercentChars(value);
    UnhexPercent(value);
    PrefixChars();
    hide Percent, Unhexed, IndexByte, IsTokenChar;
    var e, p := Extended(value), Percent(value);
    assert forall k :: 0 <= k < 7 ==> e[k] == UTF8_PREFIX[k];
    assert forall k :: 7 <= k < |e| ==> e[k] == p[k - 7];
    IndexByteIs(e, APOSTROPHE, 5);
    var rest := e[6..];
    assert rest == [APOSTROPHE] + p;
    IndexByteIs(rest, APOSTROPHE, 0);
    assert rest[1..] == p;
    assert e[..5] == UTF_8;
    LowerUTF8();
  }

  lemma PrefixChars()
    ensures forall k :: 0 <= k < 7 ==> IsTokenChar(UTF8_PREFIX[k])
  {
  }

  lemma LowerUTF8()
    ensures Lower(UTF_8) == UTF_8
  {
    assert UTF_8 == [117] + ([116] + ([102] + ([45] + ([56] + []))));
    assert Lower([56]) == [56];
    assert [45, 56][1..] == [56] && Lower([45, 56]) == [45, 56];
    assert [102, 45, 56][1..] == [45, 56] && Lower([102, 45, 56]) == [102, 45, 56];
    assert [116, 102, 45, 56][1..] == [102, 45, 56] && Lower([116, 102, 45, 56]) == [116, 102, 45, 56];
    assert UTF_8[1..] == [116, 102, 45, 56];
  }

  // ----- quoted strings -----

  lemma {:induction false} QuotedFront(s: Bytes)
    requires s != []
    ensures Quoted(s) == QuoteByte(s[0]) + Quoted(s[1..])
  {
    hide QuoteByte;
    if |s| == 1 {
      assert s[..0] == [] && s[1..] == [];
    } else {
      var m := s[1..][..|s| - 2];
      QuotedFront(s[..|s| - 1]);
      assert s[..|s| - 1][1..] == m;
      E.Assoc(QuoteByte(s[0]), Quoted(m), QuoteByte(s[|s| - 1]));
    }
  }

  /** A quoted string is read back, whatever follows it. */
  lemma {:induction false} QuotedRead(s: Bytes, rest: Bytes)
    requires forall k :: 0 <= k < |s| ==> E.Printable(s[k])
    ensures Unquoted(Quoted(s) + ([QUOTE] + rest)) == Some((s, rest))
  {
    if s == [] {
      assert Quoted(s) + ([QUOTE] + rest) == [QUOTE] + rest;
    } else {
      assert E.Printable(s[0]);
      QuotedRead(s[1..], rest);
      QuotedFront(s);
      var tail := Quoted(s[1..]) + ([QUOTE] + rest);
      assert Quoted(s) + ([QUOTE] + rest) == QuoteByte(s[0]) + tail;
      QuoteByteRead(s[0], tail);
      assert s == [s[0]] + s[1..];
    }
  }

  lemma QuoteByteRead(ch: Byte, tail: Bytes)
    requires E.Printable(ch) && tail != []
    ensures Unquoted(QuoteByte(ch) + tail) == Cons(ch, Unquoted(tail))
  {
    var v := QuoteByte(ch) + tail;
    if ch == QUOTE || ch == BACKSLASH {
      assert v[0] == BACKSLASH && v[1] == ch && v[2..] == tail;
    } else {
      assert v[0] == ch && v[1..] == tail;
    }
  }

  // ----- one parameter -----

  predicate Starts(rest: Bytes) { rest == [] || rest[0] == SEMICOLON }

  /** "; key=text" is read back when its value is. */
  lemma ReadKeyValue(key: Bytes, text: Bytes, rest: Bytes, value: Bytes)
    requires IsToken(key) && Lower(key) == key && text != [] && Graphic(text[0])
    requires ConsumeValue(text + rest) == (value, rest)
    ensures ConsumeMediaParam([SEMICOLON, SPACE] + key + [EQUALS] + text + rest) == Some((key, value, rest))
  {
    hide ConsumeValue, Lower, TrimLeft, ConsumeToken, IsTSpecial;
    var r3 := text + rest;
    var r1 := [EQUALS] + r3;
    var v := [SEMICOLON, SPACE] + key + [EQUALS] + text + rest;
    assert v == [SEMICOLON] + ([SPACE] + (key + r1));
    NoTrimLeft(v);
    assert v[1..] == [SPACE] + (key + r1);
    assert IsTokenChar(key[0]);
    TrimOne(v[1..]);
    assert v[1..][1..] == key + r1;
    EqualsEnds(r1);
    ConsumeOne(key, r1);
    NoTrimLeft(r1);
    assert r1[1..] == r3;
    NoTrimLeft(r3);
    assert |rest| < |r3|;
  }

  lemma EqualsEnds(r1: Bytes)
    requires r1 != [] && r1[0] == EQUALS
    ensures !IsTokenChar(r1[0])
  {
  }

  function KeyOf(a: Bytes, value: Bytes): Bytes {
    if NeedsEncoding(value) then a + [STAR] else a
  }

  function Carried(value: Bytes): Bytes {
    if NeedsEncoding(value) then Extended(value) else value
  }

  lemma ReadExtended(value: Bytes, rest: Bytes)
    requires Starts(rest)
    ensures ConsumeValue(Extended(value) + rest) == (Extended(value), rest)
    ensures Extended(value) != [] && Graphic(Extended(value)[0])
  {
    SemicolonEnds(rest);
    ExtendedValue(value);
    hide Percent, ConsumeToken, IsToken, IsTokenChar;
    ConsumeOne(Extended(value), rest);
    assert (Extended(value) + rest)[0] == UTF8_PREFIX[0];
  }

  lemma ReadToken(value: Bytes, rest: Bytes)
    requires Starts(rest) && IsToken(value)
    ensures ConsumeValue(value + rest) == (value, rest) && Graphic(value[0])
  {
    SemicolonEnds(rest);
    assert IsTokenChar(value[0]) && (value + rest)[0] == value[0];
    TokenNotQuote(value[0]);
    hide ConsumeToken, IsTokenChar;
    ConsumeOne(value, rest);
  }

  lemma ReadQuoted(value: Bytes, rest: Bytes)
    requires !NeedsEncoding(value)
    ensures ConsumeValue([QUOTE] + Quoted(value) + [QUOTE] + rest) == (value, rest)
  {
    QuotedRead(value, rest);
    hide Quoted, Unquoted;
    var v := [QUOTE] + Quoted(value) + [QUOTE] + rest;
    assert v[1..] == Quoted(value) + ([QUOTE] + rest) && v[0] == QUOTE;
  }

  function StarOf(value: Bytes): Bytes {
    if NeedsEncoding(value) then [STAR] else []
  }

  function TextOf(value: Bytes): Bytes {
    if NeedsEncoding(value) then Extended(value)
    else if IsToken(value) then value
    else [QUOTE] + Quoted(value) + [QUOTE]
  }

  /** Each of the three forms of a value is read back. */
  lemma ReadValue(value: Bytes, rest: Bytes)
    requires Starts(rest)
    ensures TextOf(value) != [] && Graphic(TextOf(value)[0])
    ensures ConsumeValue(TextOf(value) + rest) == (Carried(value), rest)
  {
    hide ConsumeValue, Starts;
    if NeedsEncoding(value) {
      ReadExtended(value, rest);
    } else if IsToken(value) {
      ReadToken(value, rest);
    } else {
      ReadQuoted(value, rest);
    }
  }

  lemma ValueParts(value: Bytes)
    ensures ValueText(value) == StarOf(value) + [EQUALS] + TextOf(value)
  {
    hide NeedsEncoding, IsToken, Percent, Quoted;
    var x, y := Percent(value), Quoted(value);
    assert [STAR, EQUALS] + UTF8_PREFIX + x == [STAR] + [EQUALS] + (UTF8_PREFIX + x);
    assert [EQUALS] + value == [] + [EQUALS] + value;
    assert [EQUALS, QUOTE] + y + [QUOTE] == [] + [EQUALS] + ([QUOTE] + y + [QUOTE]);
  }

  lemma SemicolonEnds(rest: Bytes)
    requires Starts(rest)
    ensures rest != [] ==> !IsTokenChar(rest[0])
  {
  }

  lemma TokenNotQuote(b: Byte)
    requires IsTokenChar(b)
    ensures b != QUOTE && Graphic(b)
  {
  }

  lemma ReadParam(a: Bytes, value: Bytes, rest: Bytes)
    requires IsToken(a) && Lower(a) == a && Starts(rest)
    ensures ConsumeMediaParam(ParamText(a, value) + rest) == Some((KeyOf(a, value), Carried(value), rest))
  {
    ReadValue(value, rest);
    ValueParts(value);
    GoodKey(a, value);
    Regroup(a, StarOf(value), TextOf(value), rest);
    hide NeedsEncoding, ConsumeMediaParam, ValueText, Lower, IsToken, Carried, TextOf;
    ReadKeyValue(KeyOf(a, value), TextOf(value), rest, Carried(value));
  }

  lemma GoodKey(a: Bytes, value: Bytes)
    requires IsToken(a) && Lower(a) == a
    ensures KeyOf(a, value) == a + StarOf(value)
    ensures IsToken(KeyOf(a, value)) && Lower(KeyOf(a, value)) == KeyOf(a, value)
  {
    LowerAppend(a, [STAR]);
    assert Lower([STAR]) == [STAR];
    StarKey(a);
    hide NeedsEncoding, Lower, IsToken;
    assert a + [] == a;
  }

  lemma Regroup(a: Bytes, star: Bytes, text: Bytes, rest: Bytes)
    ensures [SEMICOLON, SPACE] + a + (star + [EQUALS] + text) + rest
      == [SEMICOLON, SPACE] + (a + star) + [EQUALS] + text + rest
  {
    var h := [SEMICOLON, SPACE] + a;
    E.Assoc(h, star + [EQUALS], text);
    E.Assoc(h, star, [EQUALS]);
    E.Assoc([SEMICOLON, SPACE], a, star);
  }

  lemma StarKey(a: Bytes)
    requires IsToken(a)
    ensures IsToken(a + [STAR])
  {
  }

  // ----- all parameters -----

  /** The parameters that travel as tokens or quoted strings. */
  ghost function Plain(attrs: seq<Bytes>, params: Params): Params
    requires forall a <- attrs :: a in params
  {
    map a | a in attrs && !NeedsEncoding(params[a]) :: params[a]
  }

  /** The parameters that travel as extended values. */
  ghost function Starred(attrs: seq<Bytes>, params: Params): Continuation
    requires forall a <- attrs :: a in params
  {
    map a | a in attrs && NeedsEncoding(params[a]) :: map[a + [STAR] := Extended(params[a])]
  }

  /** Names that FormatMediaType leaves as they are and ParseMediaType does not take apart. */
  predicate GoodName(a: Bytes) {
    IsToken(a) && Lower(a) == a && STAR !in a
  }

  ghost predicate Distinct(attrs: seq<Bytes>) {
    forall i, j :: 0 <= i < j < |attrs| ==> attrs[i] != attrs[j]
  }

  lemma {:induction false} ParamsFront(attrs: seq<Bytes>, params: Params)
    requires attrs != [] && forall a <- attrs :: a in params
    ensures ParamsText(attrs, params) == ParamText(attrs[0], params[attrs[0]]) + ParamsText(attrs[1..], params)
  {
    hide ParamText;
    if |attrs| == 1 {
      assert attrs[..0] == [] && attrs[1..] == [];
    } else {
      ParamsFront(attrs[..|attrs| - 1], params);
      assert attrs[..|attrs| - 1][1..] == attrs[1..][..|attrs| - 2];
      var x, y := ParamText(attrs[0], params[attrs[0]]), ParamsText(attrs[1..][..|attrs| - 2], params);
      var z := ParamText(attrs[|attrs| - 1], params[attrs[|attrs| - 1]]);
      assert (x + y) + z == x + (y + z);
    }
  }

  lemma ParamsStart(attrs: seq<Bytes>, params: Params)
    requires forall a <- attrs :: a in params
    ensures Starts(ParamsText(attrs, params))
  {
    if attrs != [] { ParamsFront(attrs, params); }
  }

  /** One turn of the parser's loop on what the printer wrote. */
  lemma ReadNext(attrs: seq<Bytes>, params: Params, i: nat, tail: Bytes)
    requires (forall a <- attrs :: a in params && GoodName(a)) && Distinct(attrs) && i < |attrs| && Starts(tail)
    ensures
      ParamsFrom(ParamsText(attrs[i..], params) + tail, Plain(attrs[..i], params), Starred(attrs[..i], params))
      == ParamsFrom(ParamsText(attrs[i + 1..], params) + tail,
                    Plain(attrs[..i + 1], params), Starred(attrs[..i + 1], params))
  {
    var a, value := attrs[i], params[attrs[i]];
    hide ParamText, NeedsEncoding, GoodName, ParamsFrom, Plain, Starred, ParamsText, Extended;
    FrontOf(attrs, params, i);
    ParamsStart(attrs[i + 1..], params);
    OneMore(attrs[..i], params, a);
    var rest := ParamsText(attrs[i + 1..], params);
    StartsBoth(rest, tail);
    E.Assoc(ParamText(a, value), rest, tail);
    TurnOn(a, value, rest + tail, Plain(attrs[..i], params), Starred(attrs[..i], params));
  }

  lemma FrontOf(attrs: seq<Bytes>, params: Params, i: nat)
    requires (forall a <- attrs :: a in params) && Distinct(attrs) && i < |attrs|
    ensures ParamsText(attrs[i..], params) == ParamText(attrs[i], params[attrs[i]]) + ParamsText(attrs[i + 1..], params)
    ensures attrs[i] !in attrs[..i] && attrs[..i + 1] == attrs[..i] + [attrs[i]]
  {
    hide ParamText, ParamsText;
    assert attrs[i..][1..] == attrs[i + 1..] && attrs[i..][0] == attrs[i];
    ParamsFront(attrs[i..], params);
  }

  lemma StartsBoth(rest: Bytes, tail: Bytes)
    requires Starts(rest) && Starts(tail)
    ensures Starts(rest + tail)
  {
  }

  /** One parameter and its effect on the two maps. */
  lemma TurnOn(a: Bytes, value: Bytes, rest: Bytes, plain: Params, starred: Continuation)
    requires GoodName(a) && Starts(rest) && a !in plain && a !in starred
    ensures ParamsFrom(ParamText(a, value) + rest, plain, starred) ==
      if NeedsEncoding(value) then ParamsFrom(rest, plain, starred[a := map[][a + [STAR] := Extended(value)]])
      else ParamsFrom(rest, plain[a := value], starred)
  {
    ReadParam(a, value, rest);
    NoTrimLeft(ParamText(a, value) + rest);
    StarAt(a);
    assert ParamText(a, value) + rest != [];
    hide ConsumeMediaParam, TrimLeft, ParamText, NeedsEncoding, IndexByte, GoodName, Extended;
  }

  lemma StarAt(a: Bytes)
    requires STAR !in a
    ensures IndexByte(a, STAR) == -1 && IndexByte(a + [STAR], STAR) == |a| && (a + [STAR])[..|a|] == a
  {
    hide IndexByte;
    assert forall k :: 0 <= k < |a| ==> (a + [STAR])[k] == a[k];
    IndexByteIs(a + [STAR], STAR, |a|);
  }

  lemma OneMore(attrs: seq<Bytes>, params: Params, a: Bytes)
    requires (forall x <- attrs :: x in params) && a in params && a !in attrs
    ensures forall x <- attrs + [a] :: x in params
    ensures a !in Plain(attrs, params) && a !in Starred(attrs, params)
    ensures NeedsEncoding(params[a]) ==>
      && Plain(attrs + [a], params) == Plain(attrs, params)
      && Starred(attrs + [a], params) == Starred(attrs, params)[a := map[][a + [STAR] := Extended(params[a])]]
    ensures !NeedsEncoding(params[a]) ==>
      && Plain(attrs + [a], params) == Plain(attrs, params)[a := params[a]]
      && Starred(attrs + [a], params) == Starred(attrs, params)
  {
    hide NeedsEncoding, Extended;
  }

  lemma {:induction false} ReadAll(attrs: seq<Bytes>, params: Params, i: nat, tail: Bytes)
    requires (forall a <- attrs :: a in params && GoodName(a)) && Distinct(attrs) && i <= |attrs| && Starts(tail)
    ensures
      ParamsFrom(ParamsText(attrs[i..], params) + tail, Plain(attrs[..i], params), Starred(attrs[..i], params))
      == ParamsFrom(tail, Plain(attrs, params), Starred(attrs, params))
    decreases |attrs| - i
  {
    hide GoodName, Plain, Starred, ParamText, ParamsFrom, Starts;
    if i < |attrs| {
      ReadNext(attrs, params, i, tail);
      ReadAll(attrs, params, i + 1, tail);
    } else {
      assert attrs[..i] == attrs && [] + tail == tail;
    }
  }

  /** Stitching puts the extended values back beside the plain ones. */
  lemma StitchBack(attrs: seq<Bytes>, params: Params)
    requires KeySet(attrs) == params.Keys && forall a <- attrs :: a in params
    ensures StitchedAll(Plain(attrs, params), Starred(attrs, params)) == params
  {
    var p, c := Plain(attrs, params), Starred(attrs, params);
    var s := StitchedOf(c, c.Keys);
    forall base <- c.Keys
      ensures Stitched(base, c[base]) == Some(params[base])
    {
      StitchOne(base, params[base]);
    }
    assert s.Keys == c.Keys by { hide Stitched, Starred, Plain; }
    forall a <- c.Keys
      ensures s[a] == params[a]
    {
    }
    hide StitchedOf, Stitched, NeedsEncoding, Extended;
    SamePairs(attrs, params, s);
  }

  lemma SamePairs(attrs: seq<Bytes>, params: Params, s: Params)
    requires KeySet(attrs) == params.Keys && (forall a <- attrs :: a in params)
    requires s.Keys == Starred(attrs, params).Keys && forall a <- s.Keys :: s[a] == params[a]
    ensures Plain(attrs, params) + s == params
  {
    hide NeedsEncoding, Extended;
    forall a <- params.Keys
      ensures a in Plain(attrs, params) + s
    {
      assert a in KeySet(attrs);
    }
  }

  lemma StitchOne(base: Bytes, value: Bytes)
    ensures Stitched(base, map[base + [STAR] := Extended(value)]) == Some(value)
  {
    ExtendedValue(value);
    hide Extended, Decode2231, PiecesFrom, Piece;
  }

  // ----- the type -----

  lemma TypeChars(t: Bytes)
    requires ValidType(t)
    ensures t != [] && forall k :: 0 <= k < |t| ==> IsTokenChar(t[k]) || t[k] == SLASH
  {
    hide IsTokenChar, IndexByte;
    var slash := IndexByte(t, SLASH);
    if slash >= 0 {
      forall k | 0 <= k < |t|
        ensures IsTokenChar(t[k]) || t[k] == SLASH
      {
        if k < slash { assert t[..slash][k] == t[k]; }
        if k > slash { assert t[slash + 1..][k - slash - 1] == t[k]; }
      }
    }
  }

  lemma LowerType(t: Bytes)
    requires ValidType(t)
    ensures CheckType(Lower(t)).None?
  {
    var slash := IndexByte(t, SLASH);
    hide IndexByte, IsToken, CheckType, Lower;
    if slash == -1 {
      LowerToken(t);
      OneToken(Lower(t));
    } else {
      LowerParts(t, slash);
      LowerToken(t[..slash]);
      LowerToken(t[slash + 1..]);
      TwoTokens(Lower(t[..slash]), Lower(t[slash + 1..]));
    }
  }

  lemma OneToken(t: Bytes)
    requires IsToken(t)
    ensures CheckType(t).None? && ConsumeToken(t) == (t, [])
  {
    hide IsTokenChar, ConsumeToken;
    ConsumeOne(t, []);
    assert t + [] == t;
  }

  lemma TwoTokens(major: Bytes, sub: Bytes)
    requires IsToken(major) && IsToken(sub)
    ensures CheckType(major + [SLASH] + sub).None?
  {
    E.Assoc(major, [SLASH], sub);
    SlashEnds([SLASH] + sub);
    hide IsTokenChar, ConsumeToken;
    ConsumeOne(major, [SLASH] + sub);
    OneToken(sub);
    assert ([SLASH] + sub)[1..] == sub;
  }

  lemma SlashEnds(r: Bytes)
    requires r != [] && r[0] == SLASH
    ensures !IsTokenChar(r[0])
  {
  }

  /** The type part of what FormatMediaType writes. */
  lemma ReadType(t: Bytes, text: Bytes)
    requires ValidType(t) && Starts(text)
    ensures TypeEnd(Lower(t) + text) == |Lower(t)|
    ensures TrimSpace(Lower(Lower(t))) == Lower(t)
  {
    TypeChars(t);
    LowerTwice(t);
    var l := Lower(t);
    forall k | 0 <= k < |l|
      ensures l[k] != SEMICOLON && Graphic(l[k])
    {
      LowerAt(t, k);
      assert IsTokenChar(t[k]) || t[k] == SLASH;
    }
    hide IndexByte, Lower, TrimSpace, IsTokenChar;
    NoTrim(l);
    var v := l + text;
    assert forall k :: 0 <= k < |l| ==> v[k] == l[k];
    IndexByteIs(v, SEMICOLON, if text == [] then -1 else |l|);
  }

  /** What ParseMediaType makes of formatted text and a tail: the type, and the scan of the
      tail with all parameters already in the two maps. */
  lemma ReadFormatted(t: Bytes, params: Params, attrs: seq<Bytes>, tail: Bytes)
    requires ValidType(t) && Lists(attrs, params) && Starts(tail)
    requires forall a <- params.Keys :: GoodName(a)
    ensures forall a <- attrs :: a in params
    ensures
      var v, l := Lower(t) + ParamsText(attrs, params) + tail, Lower(t);
      && TypeEnd(v) == |l| && v[..|l|] == l && TrimSpace(Lower(l)) == l && CheckType(l).None?
      && ParamsFrom(v[|l|..], map[], map[]) == ParamsFrom(tail, Plain(attrs, params), Starred(attrs, params))
  {
    ListsAll(attrs, params);
    var text := ParamsText(attrs, params);
    ParamsStart(attrs, params);
    StartsBoth(text, tail);
    ReadType(t, text + tail);
    LowerType(t);
    ReadFromStart(attrs, params, tail);
    hide ValidType, GoodName, ParamsFrom, ParamsText, Lower, Plain, Starred, Lists, TrimSpace, CheckType, TypeEnd, Starts;
    E.Assoc(Lower(t), text, tail);
    E.Apart(Lower(t), text + tail);
  }

  lemma ListsAll(attrs: seq<Bytes>, params: Params)
    requires Lists(attrs, params) && forall a <- params.Keys :: GoodName(a)
    ensures (forall a <- attrs :: a in params && GoodName(a)) && Distinct(attrs)
  {
    hide GoodName;
    SortedDistinct(attrs);
    forall a <- attrs ensures a in params && GoodName(a) { assert a in KeySet(attrs); }
  }

  lemma ReadFromStart(attrs: seq<Bytes>, params: Params, tail: Bytes)
    requires (forall a <- attrs :: a in params && GoodName(a)) && Distinct(attrs) && Starts(tail)
    ensures ParamsFrom(ParamsText(attrs, params) + tail, map[], map[])
      == ParamsFrom(tail, Plain(attrs, params), Starred(attrs, params))
  {
    assert Plain([], params) == map[] && Starred([], params) == map[];
    hide GoodName, ParamsFrom, ParamsText, Plain, Starred, Starts;
    ReadAll(attrs, params, 0, tail);
    assert attrs[..0] == [] && attrs[0..] == attrs;
  }

  lemma ScanEnd(params: Params, c: Continuation)
    ensures ParamsFrom([], params, c) == Complete(params, c)
    ensures ParamsFrom([SEMICOLON], params, c) == Trailing(params)
  {
    NoTrimLeft([]);
    NoTrimLeft([SEMICOLON]);
    NoTrim([SEMICOLON]);
    assert [SEMICOLON][1..] == [];
    hide TrimLeft, TrimSpace;
  }

  /** ParseMediaType(FormatMediaType(t, m)) is the lower-case type and exactly m. */
  lemma ParseUndoesFormat(t: Bytes, params: Params, attrs: seq<Bytes>)
    requires ValidType(t) && Lists(attrs, params)
    requires forall a <- params.Keys :: GoodName(a)
    ensures forall a <- attrs :: a in params
    ensures Parse(Lower(t) + ParamsText(attrs, params)) == Media(Lower(t), params)
  {
    ReadFormatted(t, params, attrs, []);
    ScanEnd(Plain(attrs, params), Starred(attrs, params));
    StitchBack(attrs, params);
    hide ValidType, GoodName, ParamsFrom, ParamsText, Lower, Plain, Starred, Lists,
         TrimSpace, CheckType, TypeEnd, StitchedAll;
    var v := Lower(t) + ParamsText(attrs, params);
    assert v + [] == v;
    ParseOf(v, Lower(t));
  }

  lemma ParseOf(v: Bytes, l: Bytes)
    requires TypeEnd(v) == |l| && v[..|l|] == l && TrimSpace(Lower(l)) == l && CheckType(l).None?
    ensures
      var s := ParamsFrom(v[|l|..], map[], map[]);
      && (s.Complete? ==> Parse(v) == Media(l, StitchedAll(s.params, s.continuation)))
      && (s.Trailing? ==> Parse(v) == Media(l, s.params))
  {
    hide ParamsFrom, Lower, TrimSpace, CheckType, TypeEnd, StitchedAll;
  }

  /** A trailing semicolon is meant to be ignored, but the parser returns before it stitches:
      exactly the parameters that needed no encoding are left. */
  lemma FormattedSemicolon(t: Bytes, params: Params, attrs: seq<Bytes>)
    requires ValidType(t) && Lists(attrs, params)
    requires forall a <- params.Keys :: GoodName(a)
    ensures forall a <- attrs :: a in params
    ensures
      var r := Parse(Lower(t) + ParamsText(attrs, params) + [SEMICOLON]);
      && r == Media(Lower(t), Plain(attrs, params))
      && (r == Media(Lower(t), params) <==> forall a <- params.Keys :: !NeedsEncoding(params[a]))
  {
    ReadFormatted(t, params, attrs, [SEMICOLON]);
    ScanEnd(Plain(attrs, params), Starred(attrs, params));
    PlainIsAll(attrs, params);
    hide ValidType, GoodName, ParamsFrom, ParamsText, Lower, Plain, Starred, Lists, TrimSpace,
         CheckType, TypeEnd, StitchedAll, NeedsEncoding, Parse;
    ParseOf(Lower(t) + ParamsText(attrs, params) + [SEMICOLON], Lower(t));
  }

  lemma PlainIsAll(attrs: seq<Bytes>, params: Params)
    requires KeySet(attrs) == params.Keys && forall a <- attrs :: a in params
    ensures Plain(attrs, params) == params <==> forall a <- params.Keys :: !NeedsEncoding(params[a])
  {
    hide NeedsEncoding;
    assert forall a <- params.Keys :: a in KeySet(attrs);
    assert forall a <- params.Keys :: a in Plain(attrs, params) <==> !NeedsEncoding(params[a]);
  }

  lemma SortedDistinct(attrs: seq<Bytes>)
    requires Sorted(attrs)
    ensures Distinct(attrs)
  {
    forall i, j | 0 <= i < j < |attrs|
      ensures attrs[i] != attrs[j]
    {
      LessIrreflexive(attrs[i]);
    }
  }

  /** The round trip as a client sees it. */
  method FormatThenParse(t: Bytes, params: Params) returns (r: Parsed)
    requires ValidType(t) && forall a <- params.Keys :: GoodName(a)
    ensures r == Media(Lower(t), params)
  {
    hide ValidType, Parse, Lists, IsToken, Lower;
    assert forall a <- params.Keys :: IsToken(a) by {
      forall a <- params.Keys ensures IsToken(a) { assert GoodName(a); }
    }
    var out, attrs := FormatMediaType(t, params);
    ParseUndoesFormat(t, params, attrs);
    r := ParseMediaType(out);
  }
}
