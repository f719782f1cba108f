/** mime.ParseMediaType: the stitching of RFC 2231 continuations, and the whole parser. */
module MediaType {
  import opened Basics
  import opened Lines
  import opened Grammar
  import opened MediaFormat
  import opened MediaParse

  // ----- names of pieces -----

  function Itoa(n: nat): (s: Bytes)
    ensures s != [] && forall k :: 0 <= k < |s| ==> 48 <= s[k] <= 57
  {
    if n < 10 then [48 + n] else Itoa(n / 10) + [48 + n % 10]
  }

  lemma {:induction false} ItoaInjective(n: nat, m: nat)
    requires Itoa(n) == Itoa(m)
    ensures n == m
  {
    assert Itoa(n)[|Itoa(n)| - 1] == 48 + n % 10;
    assert Itoa(m)[|Itoa(m)| - 1] == 48 + m % 10;
    if n >= 10 && m >= 10 {
      assert Itoa(n)[..|Itoa(n)| - 1] == Itoa(n / 10);
      assert Itoa(m)[..|Itoa(m)| - 1] == Itoa(m / 10);
      ItoaInjective(n / 10, m / 10);
    }
  }

  /** fmt.Sprintf("%s*%d", base, n) */
  function Part(base: Bytes, n: nat): Bytes { base + [STAR] + Itoa(n) }

  function EncodedPart(base: Bytes, n: nat): Bytes { Part(base, n) + [STAR] }

  lemma PartsDiffer(base: Bytes, n: nat, m: nat)
    ensures Part(base, n) == Part(base, m) ==> n == m
    ensures EncodedPart(base, n) == EncodedPart(base, m) ==> n == m
    ensures Part(base, n) != EncodedPart(base, m)
  {
    hide Itoa;
    var p, q := Part(base, n), Part(base, m);
    assert p[|base| + 1..] == Itoa(n) && q[|base| + 1..] == Itoa(m);
    if p == q { ItoaInjective(n, m); }
    assert (p + [STAR])[..|p|] == p && (q + [STAR])[..|q|] == q;
    assert p[|p| - 1] == Itoa(n)[|Itoa(n)| - 1];
    assert EncodedPart(base, m)[|q|] == STAR;
  }

  predicate PartAt(base: Bytes, n: nat, key: Bytes) {
    key == Part(base, n) || key == EncodedPart(base, n)
  }

  /** The pieces numbered n and above that are there. */
  ghost function Later(base: Bytes, pieces: Params, n: nat): set<Bytes> {
    set key | key in pieces.Keys && exists m: nat :: m >= n && PartAt(base, m, key)
  }

  lemma LaterShrinks(base: Bytes, pieces: Params, n: nat, key: Bytes)
    requires key in pieces && PartAt(base, n, key)
    ensures Later(base, pieces, n + 1) < Later(base, pieces, n)
  {
    forall m: nat | m > n
      ensures !PartAt(base, m, key)
    {
      PartsDiffer(base, n, m);
      PartsDiffer(base, m, n);
    }
    hide PartAt;
    assert key in Later(base, pieces, n) && key !in Later(base, pieces, n + 1);
  }

  // ----- stitching -----

  function OrNothing(r: Option<Bytes>): Bytes {
    if r.None? then [] else r.value
  }

  /** The n-th piece: as it is, or decoded; only the first names a charset. */
  function Piece(base: Bytes, pieces: Params, n: nat): Option<Bytes> {
    if Part(base, n) in pieces then Some(pieces[Part(base, n)])
    else if EncodedPart(base, n) !in pieces then None
    else if n == 0 then Some(OrNothing(Decode2231(pieces[EncodedPart(base, n)])))
    else Some(OrNothing(Unhexed(pieces[EncodedPart(base, n)])))
  }

  lemma PieceShrinks(base: Bytes, pieces: Params, n: nat)
    requires Piece(base, pieces, n).Some?
    ensures Later(base, pieces, n + 1) < Later(base, pieces, n)
  {
    hide Part, EncodedPart, Decode2231, Unhexed, Later;
    LaterShrinks(base, pieces, n, if Part(base, n) in pieces then Part(base, n) else EncodedPart(base, n));
  }

  /** The pieces from n on, up to the first that is missing. */
  function PiecesFrom(base: Bytes, pieces: Params, n: nat): Bytes
    decreases Later(base, pieces, n)
  {
    var p := Piece(base, pieces, n);
    if p.None? then []
    else
      PieceShrinks(base, pieces, n);
      p.value + PiecesFrom(base, pieces, n + 1)
  }

  /** The value that the pieces of one name make up, if any. */
  function Stitched(base: Bytes, pieces: Params): Option<Bytes> {
    if base + [STAR] in pieces then Decode2231(pieces[base + [STAR]])
    else if Piece(base, pieces, 0).Some? then Some(PiecesFrom(base, pieces, 0))
    else None
  }

  /** The values that the given names make up. */
  ghost function StitchedOf(c: Continuation, names: set<Bytes>): Params
    requires names <= c.Keys
  {
    map base | base in names && Stitched(base, c[base]).Some? :: Stitched(base, c[base]).value
  }

  ghost function StitchedAll(params: Params, c: Continuation): Params {
    params + StitchedOf(c, c.Keys)
  }

  lemma StitchedMore(c: Continuation, names: set<Bytes>, base: Bytes)
    requires names <= c.Keys && base in c
    ensures
      var v := Stitched(base, c[base]);
      StitchedOf(c, names + {base})
        == if v.None? then StitchedOf(c, names) else StitchedOf(c, names)[base := v.value]
  {
    hide Stitched;
  }

  /** One turn of the stitching loop. */
  method Stitch(base: Bytes, pieces: Params) returns (r: Option<Bytes>)
    ensures r == Stitched(base, pieces)
  {
    hide Part, EncodedPart, Decode2231, Unhexed, PiecesFrom;
    var singlePartKey := base + [STAR];
    if singlePartKey in pieces {
      return Decode2231(pieces[singlePartKey]);
    }
    var buf: Bytes := [];
    var valid := false;
    var n: nat := 0;
    assert [] + PiecesFrom(base, pieces, 0) == PiecesFrom(base, pieces, 0);
    while true
      invariant buf + PiecesFrom(base, pieces, n) == PiecesFrom(base, pieces, 0)
      invariant valid <==> n > 0
      invariant n > 0 ==> Piece(base, pieces, 0).Some?
      decreases Later(base, pieces, n)
    {
      OnePiece(base, pieces, n, buf);
      var simplePart := Part(base, n);
      if simplePart in pieces {
        valid := true;
        buf := buf + pieces[simplePart];
        n := n + 1;
        continue;
      }
      var encodedPart := EncodedPart(base, n);
      if encodedPart !in pieces {
        break;
      }
      valid := true;
      var v := pieces[encodedPart];
      if n == 0 {
        var decv := Decode2231(v);
        if decv.Some? {
          buf := buf + decv.value;
        }
      } else {
        var decv := PercentHexUnescape(v);
        buf := buf + OrNothing(decv);
      }
      n := n + 1;
    }
    r := if valid then Some(buf) else None;
  }

  lemma OnePiece(base: Bytes, pieces: Params, n: nat, buf: Bytes)
    ensures Piece(base, pieces, n).None? ==> buf + PiecesFrom(base, pieces, n) == buf
    ensures Piece(base, pieces, n).Some? ==>
      && Later(base, pieces, n + 1) < Later(base, pieces, n)
      && buf + PiecesFrom(base, pieces, n)
         == (buf + Piece(base, pieces, n).value) + PiecesFrom(base, pieces, n + 1)
    ensures Piece(base, pieces, n) == Some([]) ==> buf + Piece(base, pieces, n).value == buf
  {
    hide Piece, Later;
    if Piece(base, pieces, n).Some? { PieceShrinks(base, pieces, n); }
  }

  /** The stitching loop visits the names in any order. */
  method StitchAll(params: Params, c: Continuation) returns (r: Params)
    ensures r == StitchedAll(params, c)
  {
    hide Stitched, StitchedOf;
    r := params;
    var left := c.Keys;
    ghost var done: set<Bytes> := {};
    NoneStitched(params, c);
    while left != {}
      invariant left + done == c.Keys && r == params + StitchedOf(c, done)
      decreases |left|
    {
      var base :| base in left;
      var v := Stitch(base, c[base]);
      StitchedMore(c, done, base);
      if v.Some? {
        r := r[base := v.value];
      }
      left := left - {base};
      done := done + {base};
    }
    assert done == c.Keys;
  }

  lemma NoneStitched(params: Params, c: Continuation)
    ensures params + StitchedOf(c, {}) == params
  {
  }

  // ----- the parser -----

  datatype TypeError = NoMediaType | ExpectedSlash | ExpectedToken | UnexpectedContent

  datatype Parsed = Media(mediatype: Bytes, params: Params)
                  | InvalidParam(mediatype: Bytes)
                  | BadType(e: TypeError)
                  | DuplicateName

  function CheckType(s: Bytes): Option<TypeError> {
    var (typ, rest) := ConsumeToken(s);
    if typ == [] then Some(NoMediaType)
    else if rest == [] then None
    else if rest[0] != SLASH then Some(ExpectedSlash)
    else
      var (subtype, rest) := ConsumeToken(rest[1..]);
      if subtype == [] then Some(ExpectedToken)
      else if rest != [] then Some(UnexpectedContent)
      else None
  }

  /** Where the parameters start. */
  function TypeEnd(v: Bytes): (i: nat)
    ensures i <= |v|
  {
    var i := IndexByte(v, SEMICOLON);
    if i == -1 then |v| else i
  }

  ghost function Parse(v: Bytes): Parsed {
    var mediatype := TrimSpace(Lower(v[..TypeEnd(v)]));
    var e := CheckType(mediatype);
    if e.Some? then BadType(e.value)
    else
      match ParamsFrom(v[TypeEnd(v)..], map[], map[])
      case Trailing(params) => Media(mediatype, params)
      case NoParam => InvalidParam(mediatype)
      case Duplicate => DuplicateName
      case Complete(params, c) => Media(mediatype, StitchedAll(params, c))
  }

  method ParseMediaType(v: Bytes) returns (r: Parsed)
    ensures r == Parse(v)
  {
    hide ParamsFrom, TrimSpace, Lower, CheckType, StitchedAll;
    var i := IndexByte(v, SEMICOLON);
    if i == -1 {
      i := |v|;
    }
    var mediatype := TrimSpace(Lower(v[..i]));
    var e := CheckType(mediatype);
    if e.Some? {
      return BadType(e.value);
    }
    var s := ConsumeParams(v[i..]);
    match s
    case Trailing(params) => r := Media(mediatype, params);
    case NoParam => r := InvalidParam(mediatype);
    case Duplicate => r := DuplicateName;
    case Complete(params, c) =>
      var all := StitchAll(params, c);
      r := Media(mediatype, all);
  }
}
