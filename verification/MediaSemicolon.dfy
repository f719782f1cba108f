/** A semicolon at the end of a media type, for every header. It is meant to be ignored, but
    the parser returns at it before it has stitched any continuation. */
module MediaSemicolon {
  import opened Basics
  import opened Lines
  import opened Grammar
  import opened MediaFormat
  import opened MediaParse
  import opened MediaType
  import MediaRoundTrip
  import opened Utf8
  import E = EncodedWord

  const S: Bytes := [SEMICOLON]

  // ----- the grammar with one more semicolon -----

  lemma DecodeMore(v: Bytes)
    requires v != []
    ensures DecodeRune(v + S) == DecodeRune(v)
  {
    hide Sextets;
    assert forall k :: 0 <= k < |v| ==> (v + S)[k] == v[k];
    assert (v + S)[|v|] == SEMICOLON;
  }

  lemma Shift(v: Bytes, k: nat)
    requires k <= |v|
    ensures (v + S)[k..] == v[k..] + S && (v + S)[..k] == v[..k]
  {
  }

  lemma {:induction false} TrimMore(v: Bytes)
    ensures TrimLeft(v + S) == TrimLeft(v) + S
    decreases |v|
  {
    hide DecodeRune, IsSpace;
    if v == [] {
      assert v + S == S;
      NoTrimLeft(S);
    } else {
      DecodeMore(v);
      Shift(v, DecodeRune(v).1);
      if IsSpace(DecodeRune(v).0) { TrimMore(v[DecodeRune(v).1..]); }
    }
  }

  lemma TokenMore(v: Bytes)
    ensures ConsumeToken(v + S) == (ConsumeToken(v).0, ConsumeToken(v).1 + S)
  {
    var n := TokenEnd(v);
    SemicolonEndsToken();
    hide TokenEnd, IsTokenChar;
    assert forall k :: 0 <= k < |v| ==> (v + S)[k] == v[k];
    assert (v + S)[|v|] == SEMICOLON;
    TokenEndIs(v + S, n);
    Shift(v, n);
  }

  lemma SemicolonEndsToken()
    ensures !IsTokenChar(SEMICOLON)
  {
  }

  lemma {:induction false} UnquotedMore(v: Bytes)
    requires Unquoted(v).Some?
    ensures Unquoted(v + S) == Some((Unquoted(v).value.0, Unquoted(v).value.1 + S))
    decreases |v|
  {
    hide IsTSpecial;
    assert (v + S)[0] == v[0];
    Shift(v, 1);
    if v[0] == BACKSLASH && |v| > 1 && IsTSpecial(v[1]) {
      Shift(v, 2);
      UnquotedMore(v[2..]);
    } else if v[0] != QUOTE {
      assert |v| > 1;
      UnquotedMore(v[1..]);
    }
  }

  lemma ValueMore(v: Bytes)
    requires ConsumeValue(v) != ([], v)
    ensures ConsumeValue(v + S) == (ConsumeValue(v).0, ConsumeValue(v).1 + S)
  {
    hide ConsumeToken, Unquoted;
    assert (v + S)[0] == v[0];
    TokenMore(v);
    Shift(v, 1);
    if v[0] == QUOTE { UnquotedMore(v[1..]); }
  }

  /** A parameter that is read is read with a semicolon behind the text as well. */
  lemma ParamMore(v: Bytes)
    requires ConsumeMediaParam(v).Some?
    ensures
      var p := ConsumeMediaParam(v).value;
      ConsumeMediaParam(v + S) == Some((p.0, p.1, p.2 + S))
  {
    hide TrimLeft, ConsumeToken, ConsumeValue, Lower;
    TrimMore(v);
    var r0 := TrimLeft(v);
    Shift(r0, 1);
    TrimMore(r0[1..]);
    TokenMore(TrimLeft(r0[1..]));
    var r1 := ConsumeToken(TrimLeft(r0[1..])).1;
    TrimMore(r1);
    var r2 := TrimLeft(r1);
    Shift(r2, 1);
    TrimMore(r2[1..]);
    var r3 := TrimLeft(r2[1..]);
    ValueMore(r3);
    var r4 := ConsumeValue(r3).1;
    assert r4 + S == r3 + S ==> (r4 + S)[..|r4|] == (r3 + S)[..|r3|];
  }

  // ----- the loop -----

  /** A loop that reaches the end of the text ends at the semicolon instead. */
  lemma {:induction false} LoopMore(v: Bytes, params: Params, c: Continuation)
    requires ParamsFrom(v, params, c).Complete?
    ensures ParamsFrom(v + S, params, c) == Trailing(ParamsFrom(v, params, c).params)
    decreases |v|
  {
    hide TrimLeft, TrimSpace, ConsumeMediaParam, IndexByte;
    TrimMore(v);
    var v0 := TrimLeft(v);
    if v0 == [] {
      AtSemicolon();
      assert v0 + S == S;
    } else {
      ParamMore(v0);
      var (key, value, rest) := ConsumeMediaParam(v0).value;
      var star := IndexByte(key, STAR);
      if star == -1 {
        LoopMore(rest, params[key := value], c);
      } else {
        var base := key[..star];
        LoopMore(rest, params, c[base := PieceMap(c, base)[key := value]]);
      }
    }
  }

  lemma AtSemicolon()
    ensures ConsumeMediaParam(S).None? && TrimSpace(S) == S
  {
    NoTrimLeft(S);
    NoTrimLeft([]);
    NoTrim(S);
    assert S[1..] == [];
    hide TrimLeft, TrimSpace;
  }

  lemma TypeMore(v: Bytes)
    ensures TypeEnd(v + S) == TypeEnd(v)
  {
    hide IndexByte;
    var i := IndexByte(v, SEMICOLON);
    assert forall k :: 0 <= k < |v| ==> (v + S)[k] == v[k];
    assert (v + S)[|v|] == SEMICOLON;
    IndexByteIs(v + S, SEMICOLON, if i == -1 then |v| else i);
  }

  // ----- the whole header -----

  /** Stitching gives no name a value that it does not have already. */
  predicate NothingStitched(params: Params, c: Continuation) {
    forall base <- c.Keys :: Stitched(base, c[base]).Some? ==>
      base in params && params[base] == Stitched(base, c[base]).value
  }

  lemma StitchedNothing(params: Params, c: Continuation)
    ensures StitchedAll(params, c) == params <==> NothingStitched(params, c)
  {
    hide Stitched;
    var s, all := StitchedOf(c, c.Keys), StitchedAll(params, c);
    forall base <- c.Keys | Stitched(base, c[base]).Some?
      ensures base in all && all[base] == Stitched(base, c[base]).value
    {
      assert base in s;
    }
    if NothingStitched(params, c) {
      assert forall a <- s.Keys :: a in params && s[a] == params[a];
    }
  }

  /** For every header that is read to its end: with one more semicolon, the type and the
      parameters whose names hold no '*'. That is the same result exactly when no name with a
      '*' contributes to a value. */
  lemma TrailingSemicolon(v: Bytes)
    requires CheckType(TrimSpace(Lower(v[..TypeEnd(v)]))).None?
    requires ParamsFrom(v[TypeEnd(v)..], map[], map[]).Complete?
    ensures
      var Complete(params, c) := ParamsFrom(v[TypeEnd(v)..], map[], map[]);
      && Parse(v + S) == Media(TrimSpace(Lower(v[..TypeEnd(v)])), params)
      && (Parse(v + S) == Parse(v) <==> NothingStitched(params, c))
  {
    hide CheckType, TrimSpace, Lower, TypeEnd, ParamsFrom, StitchedAll;
    TypeMore(v);
    Shift(v, TypeEnd(v));
    LoopMore(v[TypeEnd(v)..], map[], map[]);
    var Complete(params, c) := ParamsFrom(v[TypeEnd(v)..], map[], map[]);
    StitchedNothing(params, c);
  }

  // ----- one header -----

  /** "t; a*0=x; a*1=y" */
  const HEADER: Bytes := [116, 59, 32, 97, 42, 48, 61, 120, 59, 32, 97, 42, 49, 61, 121]

  const A0: Bytes := [97, 42, 48]
  const A1: Bytes := [97, 42, 49]

  /** The header gives a == "xy"; with a semicolon at its end, nothing. */
  lemma PiecesLost()
    ensures Parse(HEADER) == Media([116], map[[97] := [120, 121]])
    ensures Parse(HEADER + S) == Media([116], map[])
  {
    hide CheckType, TrimSpace, Lower, TypeEnd, ParamsFrom, StitchedAll, Parse;
    HeaderType();
    HeaderLoop();
    HeaderStitched();
    TrailingSemicolon(HEADER);
    MediaRoundTrip.ParseOf(HEADER, [116]);
  }

  lemma HeaderType()
    ensures TypeEnd(HEADER) == 1 && HEADER[..1] == [116]
    ensures TrimSpace(Lower([116])) == [116] && CheckType([116]).None?
  {
    TypeOnly(HEADER);
    LowerT();
    hide TrimSpace, Lower, CheckType, TypeEnd;
    NoTrim([116]);
    MediaRoundTrip.OneToken([116]);
  }

  lemma TypeOnly(v: Bytes)
    requires |v| > 1 && v[0] == 116 && v[1] == SEMICOLON
    ensures TypeEnd(v) == 1 && v[..1] == [116]
  {
    hide IndexByte;
    IndexByteIs(v, SEMICOLON, 1);
  }

  lemma LowerT()
    ensures Lower([116]) == [116] && IsToken([116])
  {
    assert [116][1..] == [];
  }

  /** One turn of the loop on "; key=c" with a starred key. */
  lemma Turn(base: Bytes, digit: Byte, ch: Byte, rest: Bytes, c: Continuation)
    requires MediaRoundTrip.GoodName(base) && 48 <= digit <= 57 && 97 <= ch <= 122 && MediaRoundTrip.Starts(rest)
    requires base + [STAR, digit] !in PieceMap(c, base)
    ensures ParamsFrom([SEMICOLON, SPACE] + (base + [STAR, digit]) + [EQUALS] + [ch] + rest, map[], c)
      == ParamsFrom(rest, map[], c[base := PieceMap(c, base)[base + [STAR, digit] := [ch]]])
  {
    var key := base + [STAR, digit];
    KeyIsToken(base, digit);
    StarIn(base, digit);
    assert IsToken([ch]);
    MediaRoundTrip.ReadToken([ch], rest);
    hide ConsumeMediaParam, ConsumeValue, IndexByte, Lower, IsTokenChar, TrimLeft;
    MediaRoundTrip.ReadKeyValue(key, [ch], rest, [ch]);
    NoTrimLeft([SEMICOLON, SPACE] + key + [EQUALS] + [ch] + rest);
  }

  lemma KeyIsToken(base: Bytes, digit: Byte)
    requires MediaRoundTrip.GoodName(base) && 48 <= digit <= 57
    ensures IsToken(base + [STAR, digit]) && Lower(base + [STAR, digit]) == base + [STAR, digit]
  {
    LowerAppend(base, [STAR, digit]);
    assert [STAR, digit][1..] == [digit] && [digit][1..] == [];
    assert Lower([digit]) == [digit] && Lower([STAR, digit]) == [STAR, digit];
  }

  lemma StarIn(base: Bytes, digit: Byte)
    requires STAR !in base
    ensures IndexByte(base + [STAR, digit], STAR) == |base| && (base + [STAR, digit])[..|base|] == base
  {
    hide IndexByte;
    assert forall k :: 0 <= k < |base| ==> (base + [STAR, digit])[k] == base[k];
    IndexByteIs(base + [STAR, digit], STAR, |base|);
  }

  lemma HeaderLoop()
    ensures ParamsFrom(HEADER[1..], map[], map[]) == Complete(map[], map[[97] := map[A0 := [120], A1 := [121]]])
  {
    GoodA();
    HeaderText();
    hide ParamsFrom, MediaRoundTrip.GoodName;
    var c: Continuation := map[[97] := map[A0 := [120]]];
    var all: Continuation := map[[97] := map[A0 := [120], A1 := [121]]];
    assert map[][[97] := PieceMap(map[], [97])[A0 := [120]]] == c;
    Turn([97], 48, 120, SecondPart(), map[]);
    assert c[[97] := PieceMap(c, [97])[A1 := [121]]] == all;
    Turn([97], 49, 121, [], c);
    MediaRoundTrip.ScanEnd(map[], all);
  }

  function SecondPart(): Bytes { [SEMICOLON, SPACE] + A1 + [EQUALS] + [121] + [] }

  lemma GoodA()
    ensures MediaRoundTrip.GoodName([97])
  {
    assert [97][1..] == [];
  }

  lemma HeaderText()
    ensures HEADER[1..] == [SEMICOLON, SPACE] + A0 + [EQUALS] + [120] + SecondPart()
    ensures [97] + [STAR, 48] == A0 && [97] + [STAR, 49] == A1 && A0 != A1
    ensures MediaRoundTrip.Starts(SecondPart())
  {
  }

  lemma HeaderStitched()
    ensures
      var c: Continuation := map[[97] := map[A0 := [120], A1 := [121]]];
      StitchedAll(map[], c) == map[[97] := [120, 121]]
  {
    var pieces: Params := map[A0 := [120], A1 := [121]];
    var c: Continuation := map[[97] := pieces];
    assert Part([97], 0) == A0 && Part([97], 1) == A1;
    assert Part([97], 2) == [97, 42, 50];
    hide Part, Decode2231, Unhexed;
    assert Piece([97], pieces, 0) == Some([120]);
    assert Piece([97], pieces, 1) == Some([121]);
    assert Piece([97], pieces, 2).None?;
    hide Piece;
    assert PiecesFrom([97], pieces, 2) == [];
    assert PiecesFrom([97], pieces, 1) == [121];
    assert PiecesFrom([97], pieces, 0) == [120] + [121] == [120, 121];
    assert |[97] + [STAR]| == 2 && |A0| == |A1| == 3;
    assert forall key <- pieces :: |key| == 3;
    assert Stitched([97], pieces) == Some([120, 121]);
    hide Stitched;
    assert StitchedOf(c, c.Keys) == map[[97] := [120, 121]];
  }
}
