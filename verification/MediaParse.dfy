/** mime.ParseMediaType, and its round trip with FormatMediaType. */
module MediaParse {
  import opened Basics
  import opened Lines
  import opened Grammar
  import opened KeyOrder
  import opened MediaFormat
  import E = EncodedWord

  const UTF_8: Bytes := [117, 116, 102, 45, 56]                  // utf-8
  const US_ASCII: Bytes := [117, 115, 45, 97, 115, 99, 105, 105] // us-ascii

  // ----- values -----

  function Cons(c: Byte, r: Option<(Bytes, Bytes)>): Option<(Bytes, Bytes)> {
    if r.None? then None else Some(([c] + r.value.0, r.value.1))
  }

  /** The text of a quoted string up to its end quote, and the rest. A backslash escapes
      tspecials only; before anything else it stands for itself. */
  function Unquoted(v: Bytes): (r: Option<(Bytes, Bytes)>)
    ensures r.Some? ==> |r.value.1| < |v|
  {
    if v == [] then None
    else if v[0] == QUOTE then Some(([], v[1..]))
    else if v[0] == BACKSLASH && |v| > 1 && IsTSpecial(v[1]) then Cons(v[1], Unquoted(v[2..]))
    else if v[0] == 13 || v[0] == 10 then None
    else Cons(v[0], Unquoted(v[1..]))
  }

  /** consumeValue: a token or a quoted string, or nothing consumed. */
  function ConsumeValue(v: Bytes): (r: (Bytes, Bytes))
    ensures |r.1| <= |v|
  {
    if v == [] then ([], [])
    else if v[0] != QUOTE then ConsumeToken(v)
    else
      var r := Unquoted(v[1..]);
      if r.None? then ([], v) else r.value
  }

  predicate IsHex(c: Byte) { 48 <= c <= 57 || 97 <= c <= 102 || 65 <= c <= 70 }

  function Unhex(c: Byte): (n: Byte)
    ensures n < 16
  {
    if 48 <= c <= 57 then c - 48
    else if 97 <= c <= 102 then c - 97 + 10
    else if 65 <= c <= 70 then c - 65 + 10
    else 0
  }

  /** The byte at the front of percent-encoded text, and its width. */
  function UnhexFirst(s: Bytes): (r: Option<(Byte, nat)>)
    requires s != []
    ensures r.Some? ==> 0 < r.value.1 <= |s|
  {
    if s[0] != PERCENT then Some((s[0], 1))
    else if |s| < 3 || !IsHex(s[1]) || !IsHex(s[2]) then None
    else Some((Unhex(s[1]) * 16 + Unhex(s[2]), 3))
  }

  /** What percent-encoded text stands for. */
  function Unhexed(s: Bytes): Option<Bytes> {
    if s == [] then Some([])
    else
      var f := UnhexFirst(s);
      if f.None? then None
      else
        var r := Unhexed(s[f.value.1..]);
        if r.None? then None else Some([f.value.0] + r.value)
  }

  /** The percent signs that start an escape. */
  function Percents(s: Bytes): nat {
    if s == [] then 0
    else
      var f := UnhexFirst(s);
      if f.None? then 0 else (if s[0] == PERCENT then 1 else 0) + Percents(s[f.value.1..])
  }

  lemma {:induction false} UnhexedLen(s: Bytes)
    requires Unhexed(s).Some?
    ensures |Unhexed(s).value| + 2 * Percents(s) == |s|
    ensures Percents(s) == 0 ==> Unhexed(s).value == s
  {
    if s != [] {
      var f := UnhexFirst(s).value;
      UnhexedLen(s[f.1..]);
      assert f.1 == 1 ==> s == [s[0]] + s[1..];
    }
  }

  /** percentHexUnescape: one pass counts and checks, the other fills a buffer of the right size. */
  method PercentHexUnescape(s: Bytes) returns (r: Option<Bytes>)
    ensures r == Unhexed(s)
  {
    hide Unhexed, Percents, UnhexFirst, IsHex, Unhex;
    var percents, i := 0, 0;
    assert s[0..] == s;
    while i < |s|
      invariant 0 <= i <= |s|
      invariant Unhexed(s).Some? <==> Unhexed(s[i..]).Some?
      invariant Unhexed(s).Some? ==> percents + Percents(s[i..]) == Percents(s)
    {
      UnhexStep(s, i);
      if s[i] != PERCENT {
        i := i + 1;
        continue;
      }
      percents := percents + 1;
      if i + 2 >= |s| || !IsHex(s[i + 1]) || !IsHex(s[i + 2]) {
        return None;
      }
      i := i + 3;
    }
    UnhexEnd(s);
    UnhexedLen(s);
    if percents == 0 {
      return Some(s);
    }
    var t := new Byte[|s| - 2 * percents](_ => 0);
    var j := 0;
    i := 0;
    ghost var all := Unhexed(s).value;
    assert [] + all == all;
    while i < |s|
      invariant 0 <= i <= |s| && 0 <= j
      invariant Unhexed(s[i..]).Some? && j + |Unhexed(s[i..]).value| == t.Length == |all|
      invariant t[..j] + Unhexed(s[i..]).value == all
    {
      UnhexStep(s, i);
      ghost var done, rest := t[..j], Unhexed(s[i..]).value;
      if s[i] == PERCENT {
        t[j] := Unhex(s[i + 1]) * 16 + Unhex(s[i + 2]);
        j := j + 1;
        i := i + 3;
      } else {
        t[j] := s[i];
        j := j + 1;
        i := i + 1;
      }
      assert t[..j] == done + [t[j - 1]];
      assert t[..j] + Unhexed(s[i..]).value == done + rest;
    }
    UnhexEnd(s);
    assert t[..] == t[..j] + [];
    r := Some(t[..]);
  }

  lemma UnhexStep(s: Bytes, i: nat)
    requires i < |s|
    ensures s[i] != PERCENT ==>
      && Percents(s[i..]) == Percents(s[i + 1..])
      && (Unhexed(s[i..]).Some? <==> Unhexed(s[i + 1..]).Some?)
      && (Unhexed(s[i..]).Some? ==> Unhexed(s[i..]).value == [s[i]] + Unhexed(s[i + 1..]).value)
    ensures s[i] == PERCENT && (i + 2 >= |s| || !IsHex(s[i + 1]) || !IsHex(s[i + 2])) ==> Unhexed(s[i..]).None?
    ensures s[i] == PERCENT && i + 2 < |s| && IsHex(s[i + 1]) && IsHex(s[i + 2]) ==>
      && Percents(s[i..]) == 1 + Percents(s[i + 3..])
      && (Unhexed(s[i..]).Some? <==> Unhexed(s[i + 3..]).Some?)
      && (Unhexed(s[i..]).Some? ==>
            Unhexed(s[i..]).value == [Unhex(s[i + 1]) * 16 + Unhex(s[i + 2])] + Unhexed(s[i + 3..]).value)
  {
    hide IsHex, Unhex;
    assert s[i..][1..] == s[i + 1..];
    assert i + 3 <= |s| ==> s[i..][3..] == s[i + 3..];
  }

  lemma UnhexEnd(s: Bytes)
    ensures Unhexed(s[|s|..]) == Some([]) && Percents(s[|s|..]) == 0
  {
  }

  /** decode2231Enc: "charset'language'text"; the language is ignored. */
  function Decode2231(v: Bytes): Option<Bytes> {
    var i := IndexByte(v, APOSTROPHE);
    if i == -1 then None
    else
      var rest := v[i + 1..];
      var k := IndexByte(rest, APOSTROPHE);
      if k == -1 then None
      else
        var charset := Lower(v[..i]);
        if charset != US_ASCII && charset != UTF_8 then None else Unhexed(rest[k + 1..])
  }

  /** consumeMediaParam: "; attribute = value", the attribute in lower case. */
  function ConsumeMediaParam(v: Bytes): (r: Option<(Bytes, Bytes, Bytes)>)
    ensures r.Some? ==> |r.value.2| < |v| && r.value.0 != []
  {
    var r0 := TrimLeft(v);
    if r0 == [] || r0[0] != SEMICOLON then None
    else
      var (param, r1) := ConsumeToken(TrimLeft(r0[1..]));
      if Lower(param) == [] then None
      else
        var r2 := TrimLeft(r1);
        if r2 == [] || r2[0] != EQUALS then None
        else
          var r3 := TrimLeft(r2[1..]);
          var (value, r4) := ConsumeValue(r3);
          if value == [] && r4 == r3 then None else Some((Lower(param), value, r4))
  }

  // ----- the loop over the parameters -----

  type Continuation = map<Bytes, Params>

  /** How the loop ends: at the end of the text; at a trailing semicolon, where the function
      returns at once; at something that is no parameter; at a repeated name. */
  datatype Scan = Complete(params: Params, continuation: Continuation)
                | Trailing(params: Params)
                | NoParam
                | Duplicate

  function PieceMap(c: Continuation, base: Bytes): Params {
    if base in c then c[base] else map[]
  }

  function ParamsFrom(v: Bytes, params: Params, continuation: Continuation): Scan
    decreases |v|
  {
    var v0 := TrimLeft(v);
    if v0 == [] then Complete(params, continuation)
    else
      var p := ConsumeMediaParam(v0);
      if p.None? then
        if TrimSpace(v0) == [SEMICOLON] then Trailing(params) else NoParam
      else
        var (key, value, rest) := p.value;
        var star := IndexByte(key, STAR);
        if star == -1 then
          if key in params then Duplicate else ParamsFrom(rest, params[key := value], continuation)
        else
          var base := key[..star];
          var pieces := PieceMap(continuation, base);
          if key in pieces then Duplicate
          else ParamsFrom(rest, params, continuation[base := pieces[key := value]])
  }

  method ConsumeParams(v: Bytes) returns (r: Scan)
    ensures r == ParamsFrom(v, map[], map[])
  {
    hide ConsumeMediaParam, TrimLeft, TrimSpace, IndexByte;
    NoTrimLeft([]);
    var rest := v;
    var params: Params := map[];
    var continuation: Continuation := map[];
    while |rest| > 0
      invariant ParamsFrom(v, map[], map[]) == ParamsFrom(rest, params, continuation)
      decreases |rest|
    {
      ghost var before := rest;
      rest := TrimLeft(rest);
      if |rest| == 0 {
        break;
      }
      var p := ConsumeMediaParam(rest);
      if p.None? {
        if TrimSpace(rest) == [SEMICOLON] {
          return Trailing(params);
        }
        return NoParam;
      }
      var (key, value, next) := p.value;
      var star: int := IndexByte(key, STAR);
      if star == -1 {
        if key in params {
          return Duplicate;
        }
        params := params[key := value];
      } else {
        var base := key[..star];
        ghost var c, pieces := continuation, PieceMap(continuation, base);
        if base !in continuation {
          continuation := continuation[base := map[]];
        }
        if key in continuation[base] {
          return Duplicate;
        }
        continuation := continuation[base := continuation[base][key := value]];
        assert continuation == c[base := pieces[key := value]];
      }
      rest := next;
    }
    r := Complete(params, continuation);
  }
}
