/** bufio.Scanner: tokens of a finite stream, cut in a sliding and growing buffer. */
module Scanner {
  import opened Basics
  import opened Io
  import opened Lines

  const START_BUF_SIZE: nat := 4096
  const MAX_CONSECUTIVE_EMPTY_READS: nat := 100

  datatype SplitError = ErrFinalToken | SplitFailure(e: Error)
  datatype Split = Split(advance: int, token: Option<Bytes>, err: Option<SplitError>)
  type SplitFunc = (Bytes, bool) -> Split

  const MORE: Split := Split(0, None, None)

  // ----- split functions -----

  /** ScanLines, scan.go's default split function. */
  function ScanLines(data: Bytes, atEOF: bool): Split {
    if atEOF && |data| == 0 then MORE
    else
      var i := IndexByte(data, NL);
      if i >= 0 then Split(i + 1, Some(DropCR(data[..i])), None)
      else if atEOF then Split(|data|, Some(DropCR(data)), None)
      else MORE
  }

  /** What is done with part of the data is what would be done with all of it: before the
      end a split function may ask for more, but it may not change its mind. */
  ghost predicate Stable(split: SplitFunc) {
    && split([], true) == MORE
    && (forall data: Bytes :: data != [] ==> Cuts(split(data, true), data))
    && (forall data: Bytes, more: Bytes :: data != [] ==>
          split(data, false) == MORE || split(data, false) == split(data + more, true))
  }

  predicate Cuts(x: Split, data: Bytes) {
    0 < x.advance <= |data| && x.token.Some? && x.err.None?
  }

  /** The tokens of a stream that is all there at once. */
  ghost function Tokens(split: SplitFunc, s: Bytes): seq<Bytes>
    requires Stable(split)
    decreases |s|
  {
    if s == [] then []
    else
      var x := split(s, true);
      assert Cuts(x, s);
      [x.token.value] + Tokens(split, s[x.advance..])
  }

  /** No token needs more than limit bytes in the buffer. */
  ghost predicate Fits(split: SplitFunc, s: Bytes, limit: nat)
    requires Stable(split)
    decreases |s|
  {
    limit > 0 && (s != [] ==>
      var x := split(s, true);
      assert Cuts(x, s);
      && (|s| < limit || split(s[..limit], false) != MORE)
      && Fits(split, s[x.advance..], limit))
  }

  // ----- the scanner -----

  class Scanner {
    const r: Source
    const split: SplitFunc
    const maxTokenSize: nat
    var token: Option<Bytes>
    var buf: array<Byte>
    var start: nat
    var end: nat
    var err: Option<Error>
    var empties: nat
    var done: bool

    ghost const limit: nat

    ghost predicate Valid()
      reads this, r
    {
      && start <= end <= buf.Length <= limit
      && maxTokenSize <= limit && (buf.Length < limit ==> limit == maxTokenSize)
      && (r.final.EOF? || r.final.Failure?)
    }

    /** Nothing has gone wrong: the only error so far is the end of the stream. */
    ghost predicate Healthy()
      reads this, r
    {
      && Stable(split) && Talkative(r.schedule, MAX_CONSECUTIVE_EMPTY_READS + 1) && !done
      && (err.Some? ==> err.value == r.final && r.rest == [])
    }

    /** The stream as far as no token has been made of it. */
    ghost function Unread(): Bytes
      reads this, buf, r
      requires Valid()
    {
      buf[start..end] + r.rest
    }

    /** NewScanner followed by Buffer(make([]byte, capacity), max) and Split(split). */
    constructor (r: Source, split: SplitFunc, capacity: nat, max: nat)
      requires r.final.EOF? || r.final.Failure?
      ensures Valid() && fresh(buf) && this.r == r && this.split == split && err.None? && !done
      ensures limit == if capacity > max then capacity else max
      ensures Unread() == r.rest
    {
      this.r, this.split, maxTokenSize := r, split, max;
      limit := if capacity > max then capacity else max;
      token, start, end, err, empties, done := None, 0, 0, None, 0, false;
      buf := new Byte[capacity](_ => 0);
    }

    /** Err hides the end of the stream. */
    function Err(): Option<Error>
      reads this
    {
      if err == Some(EOF) then None else err
    }

    method SetErr(e: Error)
      modifies this`err
      ensures err == if old(err).None? || old(err) == Some(EOF) then Some(e) else old(err)
    {
      if err.None? || err.value == EOF {
        err := Some(e);
      }
    }

    method Advance(n: int) returns (ok: bool)
      requires start <= end
      modifies this`start, this`err
      ensures ok <==> 0 <= n <= old(end - start)
      ensures if ok then start == old(start) + n && err == old(err) else start == old(start)
    {
      if n < 0 {
        SetErr(ErrNegativeAdvance);
        return false;
      }
      if n > end - start {
        SetErr(ErrAdvanceTooFar);
        return false;
      }
      start := start + n;
      ok := true;
    }

    /** Make space behind the data: shift it to the front, or grow the buffer. Only data that
        fills a buffer of the greatest size is too long. */
    method MakeRoom() returns (ok: bool)
      requires Valid() && err.None?
      modifies this`buf, this`start, this`end, this`err, buf
      ensures buf == old(buf) || fresh(buf)
      ensures Valid() && buf[start..end] == old(buf[start..end])
      ensures ok ==> end < buf.Length && err.None?
      ensures !ok ==> err == Some(ErrTooLong) && end - start == limit
    {
      if start > 0 && (end == buf.Length || start > buf.Length / 2) {
        MoveDown(buf, 0, start, end - start);
        end := end - start;
        start := 0;
      }
      if end == buf.Length {
        if buf.Length >= maxTokenSize {
          SetErr(ErrTooLong);
          return false;
        }
        var newSize := buf.Length * 2;
        if newSize == 0 {
          newSize := START_BUF_SIZE;
        }
        if newSize > maxTokenSize {
          newSize := maxTokenSize;
        }
        var newBuf := new Byte[newSize](_ => 0);
        CopyInto(newBuf, 0, buf[start..end]);
        buf := newBuf;
        end := end - start;
        start := 0;
      }
      ok := true;
    }

    /** One read that delivers something, or an error: the end, or after exactly 101 silent
        deliveries the complaint. */
    method ReadMore()
      requires Valid() && err.None? && end < buf.Length
      modifies this`end, this`err, this`empties, buf, r
      ensures Valid() && Unread() == old(Unread())
      ensures err.Some? ==> (err.value == r.final && r.rest == []) || err.value == ErrNoProgress
      ensures err == Some(ErrNoProgress) <==>
        AllSilent(old(r.schedule), old(r.rest), MAX_CONSECUTIVE_EMPTY_READS + 1)
      ensures old(Talkative(r.schedule, MAX_CONSECUTIVE_EMPTY_READS + 1)) ==>
        Talkative(r.schedule, MAX_CONSECUTIVE_EMPTY_READS + 1)
      ensures |r.rest| <= old(|r.rest|) && (err.None? ==> |r.rest| < old(|r.rest|))
    {
      var loop := 0;
      ghost var kept := buf[..end];
      ghost var stream, schedule := r.rest, r.schedule;
      hide Talkative, Amount, AllSilent;
      NoneSilent(schedule, stream);
      while true
        invariant start <= end == |kept| < buf.Length && err.None? && loop <= MAX_CONSECUTIVE_EMPTY_READS
        invariant buf[..end] == kept && r.rest == stream
        invariant AllSilent(schedule, stream, loop) && r.schedule == schedule[loop..]
        invariant Talkative(schedule, MAX_CONSECUTIVE_EMPTY_READS + 1) ==>
          Talkative(r.schedule, MAX_CONSECUTIVE_EMPTY_READS + 1)
        decreases MAX_CONSECUTIVE_EMPTY_READS - loop
      {
        if Talkative(r.schedule, MAX_CONSECUTIVE_EMPTY_READS + 1) {
          TalkativeLater(r.schedule, MAX_CONSECUTIVE_EMPTY_READS + 1);
        }
        SilentToo(schedule, stream, loop, buf.Length - end);
        Delivered(kept, start, stream);
        var n, e := r.Read(buf, end);
        end := end + n;
        assert buf[start..end] == (kept + stream[..n])[start..];
        if e.Some? {
          SetErr(e.value);
          break;
        }
        if n > 0 {
          empties := 0;
          break;
        }
        loop := loop + 1;
        if loop > MAX_CONSECUTIVE_EMPTY_READS {
          SetErr(ErrNoProgress);
          break;
        }
      }
    }

    /** See if we can get a token with what we already have; at the end the split function
        has a chance to make tokens of the remaining data. */
    method SplitHeld() returns (stop: bool, more: bool, panicked: bool)
      requires Valid() && !done && (end > start || err.Some?)
      modifies this`token, this`start, this`err, this`empties, this`done
      ensures Valid() && (!stop ==> !done && err == old(err))
      ensures old(Healthy()) ==>
        if stop then
          more && !panicked && Healthy() && Scanned(split, old(Unread()), limit, more, token, Unread(), err, r.final)
        else
          && unchanged(`start) && (err.Some? ==> Unread() == [])
          && (err.None? ==> split(buf[start..end], false) == MORE)
    {
      hide Stable, Talkative;
      ghost var data, healthy := buf[start..end], Healthy();
      if healthy {
        CutOfAll(split, data, err.Some?, r.rest);
      }
      stop, more, panicked := true, false, false;
      var x := split(buf[start..end], err.Some?);
      assert healthy ==> x.err.None? && 0 <= x.advance <= |data|;
      if x.err.Some? {
        if x.err.value == ErrFinalToken {
          token, done, more := x.token, true, true;
          return;
        }
        SetErr(x.err.value.e);
        return;
      }
      var ok := Advance(x.advance);
      if !ok {
        return;
      }
      token := x.token;
      if token.Some? {
        if err.None? || x.advance > 0 {
          empties := 0;
        } else {
          empties := empties + 1;
          if empties > MAX_CONSECUTIVE_EMPTY_READS {
            panicked := true;
            return;
          }
        }
        assert buf[start..end] == data[x.advance..];
        DropBoth(data, r.rest, x.advance);
        more := true;
        return;
      }
      stop := false;
    }

    /** One call of Scan; panicked stands for the panic about too many empty tokens. */
    method Scan() returns (more: bool, panicked: bool)
      requires Valid()
      modifies this, buf, r
      ensures buf == old(buf) || fresh(buf)
      ensures Valid() && (old(done) ==> !more && unchanged(this))
      ensures old(Healthy()) ==>
        !panicked && (more ==> Healthy()) && Scanned(split, old(Unread()), limit, more, token, Unread(), err, r.final)
    {
      panicked := false;
      if done {
        return false, false;
      }
      hide Stable, Talkative, AllSilent;
      ghost var stream, healthy := Unread(), Healthy();
      while true
        invariant buf == old(buf) || fresh(buf)
        invariant Valid() && !done
        invariant healthy ==> Healthy() && Unread() == stream
        decreases err.None?, |r.rest|
      {
        if end > start || err.Some? {
          var stop;
          stop, more, panicked := SplitHeld();
          if stop {
            return;
          }
        }
        if err.Some? {
          start := 0;
          end := 0;
          return false, false;
        }
        ghost var data := buf[start..end];
        var room := MakeRoom();
        if !room {
          FrontOf(data, r.rest);
          return false, false;
        }
        NeverSilent(r.schedule, r.rest);
        ReadMore();
      }
    }
  }

  /** What a call of Scan gives: the next token of the whole stream; or, with nothing left,
      the end; or the complaint that the data in a full buffer is no token yet. */
  ghost predicate Scanned(split: SplitFunc, s: Bytes, limit: nat, more: bool, token: Option<Bytes>,
                          unread: Bytes, err: Option<Error>, final: Error)
    requires Stable(split)
  {
    if more then
      && s != [] && Cuts(split(s, true), s) && err != Some(ErrTooLong)
      && token == split(s, true).token && unread == s[split(s, true).advance..]
    else if err == Some(ErrTooLong) then
      |s| >= limit && (limit > 0 ==> split(s[..limit], false) == MORE)
    else
      s == [] && unread == [] && err == Some(final)
  }

  /** A cut made in the buffer is the cut of the whole stream. */
  lemma CutOfAll(split: SplitFunc, data: Bytes, atEOF: bool, more: Bytes)
    requires Stable(split) && (atEOF ==> more == []) && (data == [] ==> atEOF)
    ensures data == [] ==> split(data, atEOF) == MORE
    ensures data != [] ==>
      (!atEOF && split(data, atEOF) == MORE) ||
      (split(data, atEOF) == split(data + more, true) && Cuts(split(data, atEOF), data))
  {
    assert data + [] == data;
    assert atEOF ==> data + more == data;
  }

  /** Scanning to the end, whatever the chunks, the shifts and the growth of the buffer, gives
      the tokens of the whole stream, and then only the error the stream itself ended with. */
  method ScanAll(s: Scanner) returns (tokens: seq<Bytes>)
    requires s.Valid() && s.Healthy() && Fits(s.split, s.Unread(), s.limit)
    modifies s, s.buf, s.r
    ensures tokens == Tokens(s.split, old(s.Unread()))
    ensures s.Err() == if s.r.final == EOF then None else Some(s.r.final)
  {
    hide Stable;
    ghost var stream := s.Unread();
    tokens := [];
    var more := true;
    while more
      invariant s.Valid() && (s.buf == old(s.buf) || fresh(s.buf))
      invariant if more then
                  && s.Healthy() && Fits(s.split, s.Unread(), s.limit)
                  && tokens + Tokens(s.split, s.Unread()) == Tokens(s.split, stream)
                else s.err == Some(s.r.final) && tokens == Tokens(s.split, stream)
      decreases more, if s.Healthy() then |s.Unread()| else 0
    {
      ghost var rest := s.Unread();
      var panicked;
      more, panicked := s.Scan();
      if more {
        NextToken(tokens, s.split, rest);
        tokens := tokens + [s.token.value];
      } else {
        assert tokens + [] == tokens;
      }
    }
  }

  lemma NextToken(tokens: seq<Bytes>, split: SplitFunc, s: Bytes)
    requires Stable(split) && s != [] && Cuts(split(s, true), s)
    ensures
      var x := split(s, true);
      (tokens + [x.token.value]) + Tokens(split, s[x.advance..]) == tokens + Tokens(split, s)
  {
  }

  // ----- scanning lines -----

  lemma ScanLinesStable()
    ensures Stable(ScanLines)
  {
    hide IndexByte;
    forall data: Bytes, more: Bytes | data != []
      ensures ScanLines(data, false) == MORE || ScanLines(data, false) == ScanLines(data + more, true)
    {
      var i := IndexByte(data, NL);
      if i >= 0 {
        assert forall k :: 0 <= k < |data| ==> (data + more)[k] == data[k];
        IndexByteIs(data + more, NL, i);
        assert (data + more)[..i] == data[..i];
      }
    }
  }

  /** ScanLines cuts a stream into its lines, a "\n" or "\r\n" (and a final "\r") dropped. */
  lemma {:induction false} TokensAreLines(s: Bytes)
    requires Stable(ScanLines)
    ensures Tokens(ScanLines, s) == TextLines(s)
    decreases |s|
  {
    if s != [] {
      LineCut(s);
      TokensAreLines(AfterLine(s));
    }
  }

  lemma LineCut(s: Bytes)
    requires s != []
    ensures ScanLines(s, true).token == Some(DropCR(RawLine(s)))
    ensures 0 < ScanLines(s, true).advance <= |s| && s[ScanLines(s, true).advance..] == AfterLine(s)
  {
  }

  /** The lines fit the buffer exactly when each is shorter than the limit. */
  lemma {:induction false} LinesFit(s: Bytes, limit: nat)
    requires Stable(ScanLines)
    ensures Fits(ScanLines, s, limit) <==> limit > 0 && ShortLines(s, limit)
    decreases |s|
  {
    if s != [] && limit > 0 {
      LineCut(s);
      LinesFit(AfterLine(s), limit);
      if |s| >= limit {
        LineWaits(s, limit);
      }
    }
  }

  lemma LineWaits(s: Bytes, limit: nat)
    requires 0 < limit <= |s|
    ensures ScanLines(s[..limit], false) == MORE <==> |RawLine(s)| >= limit
  {
    hide IndexByte;
    assert forall k :: 0 <= k < limit ==> s[..limit][k] == s[k];
    var i, j := IndexByte(s, NL), IndexByte(s[..limit], NL);
    if j >= 0 { IndexByteIs(s, NL, j); }
  }

  /** The default scanner over any chunking of a stream whose lines are shorter than the
      limit: exactly the lines, then no error. */
  method ScanAllLines(r: Source, capacity: nat, max: nat) returns (lines: seq<Bytes>, err: Option<Error>)
    requires r.final == EOF && Talkative(r.schedule, MAX_CONSECUTIVE_EMPTY_READS + 1)
    requires ShortLines(r.rest, if capacity > max then capacity else max) && (capacity > 0 || max > 0)
    modifies r
    ensures lines == TextLines(old(r.rest)) && err == None
  {
    ScanLinesStable();
    hide Stable;
    var s := new Scanner(r, ScanLines, capacity, max);
    TokensAreLines(r.rest);
    LinesFit(r.rest, s.limit);
    lines := ScanAll(s);
    err := s.Err();
  }

  /** The first n deliveries are silent. */
  predicate AllSilent(schedule: seq<Delivery>, rest: Bytes, n: nat) {
    n <= |schedule| && forall k :: 0 <= k < n ==> Silent(schedule[k], rest)
  }

  lemma NeverSilent(schedule: seq<Delivery>, rest: Bytes)
    ensures Talkative(schedule, MAX_CONSECUTIVE_EMPTY_READS + 1) ==>
      !AllSilent(schedule, rest, MAX_CONSECUTIVE_EMPTY_READS + 1)
  {
    if AllSilent(schedule, rest, MAX_CONSECUTIVE_EMPTY_READS + 1) {
      TalkativeNotSilent(schedule, MAX_CONSECUTIVE_EMPTY_READS + 1, rest);
    }
  }

  lemma NoneSilent(schedule: seq<Delivery>, rest: Bytes)
    ensures AllSilent(schedule, rest, 0) && schedule[0..] == schedule
  {
  }

  /** A silent delivery is one more; any other breaks the silence. */
  lemma SilentToo(schedule: seq<Delivery>, rest: Bytes, n: nat, room: nat)
    requires AllSilent(schedule, rest, n) && room > 0
    ensures
      var d := Coming(schedule[n..], rest);
      var k := Amount(d, rest, room);
      if k == 0 && !TellsEnd(d, rest, k) then
        AllSilent(schedule, rest, n + 1) && Later(schedule[n..]) == schedule[n + 1..]
      else
        forall m :: m > n ==> !AllSilent(schedule, rest, m)
  {
    assert schedule[n..] != [] ==> schedule[n..][0] == schedule[n] && schedule[n..][1..] == schedule[n + 1..];
  }

  lemma FrontOf(data: Bytes, rest: Bytes)
    ensures (data + rest)[..|data|] == data && |data + rest| >= |data|
  {
  }

  lemma DropBoth(data: Bytes, rest: Bytes, k: nat)
    requires k <= |data|
    ensures (data + rest)[k..] == data[k..] + rest
  {
  }

  lemma Delivered(kept: Bytes, start: nat, stream: Bytes)
    requires start <= |kept|
    ensures forall n :: 0 <= n <= |stream| ==> (kept + stream[..n])[start..] + stream[n..] == kept[start..] + stream
  {
  }
}
