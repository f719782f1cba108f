/** Lines of a byte stream, as bufio's readers cut them. */
module Lines {
  import opened Basics

  const NL: Byte := 10
  const CR: Byte := 13

  /** bytes.IndexByte, by its contract. */
  function IndexByte(s: Bytes, c: Byte): (i: int)
    ensures -1 <= i < |s| && (i >= 0 ==> s[i] == c)
    ensures forall k :: 0 <= k < (if i < 0 then |s| else i) ==> s[k] != c
  {
    if |s| == 0 then -1
    else if s[0] == c then 0
    else
      var i := IndexByte(s[1..], c);
      assert forall k :: 0 < k < |s| ==> s[k] == s[1..][k - 1];
      if i < 0 then -1 else i + 1
  }

  /** No other position is the first one. */
  lemma IndexByteIs(s: Bytes, c: Byte, i: int)
    requires -1 <= i < |s| && (i >= 0 ==> s[i] == c)
    requires forall k :: 0 <= k < (if i < 0 then |s| else i) ==> s[k] != c
    ensures IndexByte(s, c) == i
  {
    hide IndexByte;
    var j := IndexByte(s, c);
    assert i < 0 || i >= |s| || s[i] == c;
    assert j < 0 || s[j] == c;
  }

  function DropCR(data: Bytes): Bytes {
    if |data| > 0 && data[|data| - 1] == CR then data[..|data| - 1] else data
  }

  /** The first line without its "\n" or "\r\n"; an unterminated line is kept whole. */
  function FirstLine(s: Bytes): Bytes {
    var i := IndexByte(s, NL);
    if i >= 0 then DropCR(s[..i]) else s
  }

  function RawLine(s: Bytes): Bytes {
    var i := IndexByte(s, NL);
    if i >= 0 then s[..i] else s
  }

  /** What follows the first line and its end. */
  function AfterLine(s: Bytes): (t: Bytes)
    ensures s != [] ==> |t| < |s|
  {
    var i := IndexByte(s, NL);
    if i >= 0 then s[i + 1..] else []
  }

  /** Every line of the stream. */
  function AllLines(s: Bytes): seq<Bytes>
    decreases |s|
  {
    if s == [] then [] else [FirstLine(s)] + AllLines(AfterLine(s))
  }

  /** Every line, a final "\r" dropped from each, the unterminated one included. */
  function TextLines(s: Bytes): seq<Bytes>
    decreases |s|
  {
    if s == [] then [] else [DropCR(RawLine(s))] + TextLines(AfterLine(s))
  }

  /** Every line, its end not counted, is shorter than limit. */
  predicate ShortLines(s: Bytes, limit: nat)
    decreases |s|
  {
    s != [] ==> |RawLine(s)| < limit && ShortLines(AfterLine(s), limit)
  }

  lemma NextOfLines(lines: seq<Bytes>, s: Bytes)
    requires s != []
    ensures (lines + [FirstLine(s)]) + AllLines(AfterLine(s)) == lines + AllLines(s)
  {
    hide FirstLine, AfterLine;
  }

  /** The cut between f and s would part a "\r" from its "\n". */
  predicate PartsCRNL(f: Bytes, s: Bytes) {
    f != [] && f[|f| - 1] == CR && s != [] && s[0] == NL
  }

  /** A piece without a newline can be cut off the front of a line, unless that would part
      a "\r" from its "\n". */
  lemma CutPiece(f: Bytes, s: Bytes)
    requires NL !in f && !PartsCRNL(f, s)
    ensures FirstLine(f + s) == f + FirstLine(s) && AfterLine(f + s) == AfterLine(s)
  {
    hide IndexByte, DropCR;
    var i := IndexByte(s, NL);
    var j := if i < 0 then -1 else |f| + i;
    assert forall k :: 0 <= k < |f| ==> (f + s)[k] == f[k];
    assert forall k :: |f| <= k < |f| + |s| ==> (f + s)[k] == s[k - |f|];
    IndexByteIs(f + s, NL, j);
    if i >= 0 {
      assert (f + s)[..j] == f + s[..i];
      assert (f + s)[j + 1..] == s[i + 1..];
      assert s[..i] == [] ==> s[0] == NL;
      DropAfter(f, s[..i]);
    }
  }

  lemma DropAfter(f: Bytes, t: Bytes)
    requires f == [] || f[|f| - 1] != CR || t != []
    ensures DropCR(f + t) == f + DropCR(t)
  {
    if t == [] {
      assert f + t == f;
    } else {
      assert (f + t)[..|f + t| - 1] == f + t[..|t| - 1];
    }
  }

  /** A piece whose only newline is its last byte is a whole line with its end; a piece with
      nothing after it is the last line. */
  lemma WholeLine(f: Bytes, s: Bytes)
    requires f != []
    ensures IndexByte(f, NL) == |f| - 1 ==> FirstLine(f + s) == DropCR(f[..|f| - 1]) && AfterLine(f + s) == s
    ensures NL !in f ==> FirstLine(f) == f && AfterLine(f) == []
  {
    hide IndexByte, DropCR;
    assert forall k :: 0 <= k < |f| ==> (f + s)[k] == f[k];
    if IndexByte(f, NL) == |f| - 1 {
      IndexByteIs(f + s, NL, |f| - 1);
      assert (f + s)[..|f| - 1] == f[..|f| - 1];
    }
  }

  lemma DropCRBefore(f: Bytes)
    requires f != []
    ensures DropCR(f[..|f| - 1]) == f[..if |f| > 1 && f[|f| - 2] == CR then |f| - 2 else |f| - 1]
  {
  }

  /** A piece without a newline is the whole first line of what it starts exactly when the
      rest adds nothing to that line, and leaves the rest as it should exactly when there is none. */
  lemma PieceIsLine(f: Bytes, s: Bytes)
    requires f != [] && NL !in f
    ensures FirstLine(f + s) == f <==> s == [] || (FirstLine(s) == [] && !PartsCRNL(f, s))
    ensures AfterLine(f + s) == s <==> s == []
  {
    hide IndexByte;
    assert forall k :: 0 <= k < |f| ==> (f + s)[k] == f[k];
    assert forall k :: |f| <= k < |f| + |s| ==> (f + s)[k] == s[k - |f|];
    var i := IndexByte(s, NL);
    IndexByteIs(f + s, NL, if i < 0 then -1 else |f| + i);
    if i >= 0 {
      assert (f + s)[..|f| + i] == f + s[..i];
      PieceAndEnd(f, s[..i]);
    } else {
      assert s == [] ==> f + s == f;
    }
  }

  lemma PieceAndEnd(f: Bytes, t: Bytes)
    requires f != []
    ensures DropCR(f + t) == f <==> DropCR(t) == [] && (t == [] ==> f[|f| - 1] != CR)
  {
    if t == [] {
      assert f + t == f;
    } else {
      assert (f + t)[..|f + t| - 1] == f + t[..|t| - 1];
    }
  }
}
