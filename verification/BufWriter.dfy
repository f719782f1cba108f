/** bufio.Writer: buffered output over a sink that may write short or fail. */
module BufWriter {
  import opened Basics
  import opened Io

  const DEFAULT_BUF_SIZE: nat := 4096

  class Writer {
    var err: Option<Error>
    var n: nat
    const buf: array<Byte>
    const wr: Sink

    ghost predicate Valid()
      reads this
    {
      n <= buf.Length && buf.Length > 0
    }

    /** Every byte accepted so far: what the sink has, then what waits in the buffer. */
    ghost function Accepted(): Bytes
      reads this, buf, wr
      requires Valid()
    {
      wr.received + buf[..n]
    }

    constructor (w: Sink, size: int)
      ensures Valid() && fresh(buf) && wr == w && err == None
      ensures buf.Length == if size <= 0 then DEFAULT_BUF_SIZE else size
      ensures Accepted() == w.received
    {
      var length := if size <= 0 then DEFAULT_BUF_SIZE else size;
      buf := new Byte[length](_ => 0);
      wr, n, err := w, 0, None;
    }

    function Available(): int
      reads this
    {
      buf.Length - n
    }

    /** Nothing is lost or repeated, whether the sink takes all, part or none of it. */
    method Flush() returns (r: Option<Error>)
      requires Valid()
      modifies this, buf, wr
      ensures Valid() && Accepted() == old(Accepted())
      ensures r == err
      ensures r.None? ==> n == 0 && wr.received == old(Accepted())
      ensures old(err).Some? || old(n) == 0 ==> unchanged(this) && unchanged(buf) && unchanged(wr)
    {
      if err.Some? {
        return err;
      }
      if n == 0 {
        return None;
      }
      var k, e := wr.Write(buf[..n]);
      if k < n && e.None? {
        e := Some(ErrShortWrite);
      }
      if e.Some? {
        FlushSplit(old(wr.received), buf[..n], k);
        if 0 < k < n {
          MoveDown(buf, 0, k, n - k);
        }
        n := n - k;
        err := e;
        return e;
      }
      n := 0;
      r := None;
    }

    /** n := copy(b.buf[b.n:], p); b.n += n */
    method Append(p: Bytes) returns (k: nat)
      requires Valid()
      modifies this`n, buf
      ensures Valid() && n == old(n) + k && k == Min(old(Available()), |p|)
      ensures Accepted() == old(Accepted()) + p[..k]
    {
      k := Min(buf.Length - n, |p|);
      CopyInto(buf, n, p[..k]);
      assert buf[..n + k] == old(buf[..n]) + p[..k];
      assert wr.received + (old(buf[..n]) + p[..k]) == (wr.received + old(buf[..n])) + p[..k];
      n := n + k;
    }

    /** A write larger than the empty buffer goes to the sink without a copy. */
    method WriteThrough(p: Bytes) returns (k: nat)
      requires Valid() && n == 0 && err.None?
      modifies this`err, wr
      ensures k <= |p| && Accepted() == old(Accepted()) + p[..k]
      ensures err.None? ==> k > 0 || p == []
    {
      k, err := wr.Write(p);
      assert (old(wr.received) + p[..k]) + [] == (old(wr.received) + []) + p[..k];
    }

    /** Write accepts a prefix p[..nn], all of it unless an error is reported. */
    method Write(p: Bytes) returns (nn: nat, r: Option<Error>)
      requires Valid()
      modifies this, buf, wr
      ensures Valid() && nn <= |p| && Accepted() == old(Accepted()) + p[..nn]
      ensures r == err && (r.None? ==> nn == |p|)
      ensures old(err).Some? ==> nn == 0 && unchanged(this) && unchanged(buf) && unchanged(wr)
      ensures old(err).None? && |p| <= old(Available()) ==> r.None? && unchanged(wr)
    {
      hide Accepted;
      nn := 0;
      var rest := p;
      while |rest| > Available() && err.None?
        invariant Valid() && nn <= |p| && rest == p[nn..]
        invariant Accepted() == old(Accepted()) + p[..nn]
        invariant old(err).Some? || |p| <= old(Available()) ==>
          nn == 0 && unchanged(this) && unchanged(buf) && unchanged(wr)
        decreases err.None?, |rest|, n
      {
        var k: nat;
        if n == 0 {
          k := WriteThrough(rest);
        } else {
          k := Append(rest);
          var _ := Flush();
        }
        Advance(old(Accepted()), p, nn, k);
        nn := nn + k;
        rest := rest[k..];
      }
      if err.Some? {
        return nn, err;
      }
      var k := Append(rest);
      Advance(old(Accepted()), p, nn, k);
      nn := nn + k;
      r := None;
    }

    /** WriteString is Write without the direct path to the sink. */
    method WriteString(s: Bytes) returns (nn: nat, r: Option<Error>)
      requires Valid()
      modifies this, buf, wr
      ensures Valid() && nn <= |s| && Accepted() == old(Accepted()) + s[..nn]
      ensures r == err && (r.None? ==> nn == |s|)
      ensures old(err).Some? ==> nn == 0 && unchanged(this) && unchanged(buf) && unchanged(wr)
      ensures old(err).None? && |s| <= old(Available()) ==> r.None? && unchanged(wr)
    {
      hide Accepted;
      nn := 0;
      var rest := s;
      while |rest| > Available() && err.None?
        invariant Valid() && nn <= |s| && rest == s[nn..]
        invariant Accepted() == old(Accepted()) + s[..nn]
        invariant old(err).Some? || |s| <= old(Available()) ==>
          nn == 0 && unchanged(this) && unchanged(buf) && unchanged(wr)
        decreases err.None?, |rest|, n
      {
        var k := Append(rest);
        Advance(old(Accepted()), s, nn, k);
        nn := nn + k;
        rest := rest[k..];
        var _ := Flush();
      }
      if err.Some? {
        return nn, err;
      }
      var k := Append(rest);
      Advance(old(Accepted()), s, nn, k);
      nn := nn + k;
      r := None;
    }

    /** WriteByte accepts the byte exactly when it reports no error. */
    method WriteByte(c: Byte) returns (r: Option<Error>)
      requires Valid()
      modifies this, buf, wr
      ensures Valid() && r == err
      ensures Accepted() == old(Accepted()) + if r.None? then [c] else []
      ensures old(err).Some? ==> unchanged(this) && unchanged(buf) && unchanged(wr)
      ensures old(err).None? && 1 <= old(Available()) ==> r.None? && unchanged(wr)
    {
      if err.Some? {
        return err;
      }
      if Available() <= 0 {
        var e := Flush();
        if e.Some? {
          return err;
        }
      }
      ghost var before := Accepted();
      buf[n] := c;
      n := n + 1;
      assert buf[..n] == buf[..n - 1] + [c];
      assert Accepted() == before + [c];
      r := None;
    }
  }

  /** The bytes a partial flush leaves behind are the ones the sink did not take. */
  lemma FlushSplit(sent: Bytes, waiting: Bytes, k: nat)
    requires k <= |waiting|
    ensures (sent + waiting[..k]) + waiting[k..] == sent + waiting
  {
  }

  lemma Advance(base: Bytes, p: Bytes, nn: nat, k: nat)
    requires nn + k <= |p|
    ensures (base + p[..nn]) + p[nn..][..k] == base + p[..nn + k] && p[nn..][k..] == p[nn + k..]
  {
  }

  // ----- any sequence of calls -----

  datatype Op = OpWrite(p: Bytes) | OpWriteString(s: Bytes) | OpWriteByte(c: Byte) | OpFlush

  /** What a call did: the bytes it accepted, the error it gave, and all the sink had after it. */
  datatype Outcome = Outcome(taken: Bytes, err: Option<Error>, sent: Bytes)

  function Payload(op: Op): Bytes {
    match op
    case OpWrite(p) => p
    case OpWriteString(s) => s
    case OpWriteByte(c) => [c]
    case OpFlush => []
  }

  function Payloads(ops: seq<Op>): Bytes {
    if |ops| == 0 then [] else Payloads(ops[..|ops| - 1]) + Payload(ops[|ops| - 1])
  }

  function Taken(outs: seq<Outcome>): Bytes {
    if |outs| == 0 then [] else Taken(outs[..|outs| - 1]) + outs[|outs| - 1].taken
  }

  /** A call accepts a prefix of its bytes, and all of them when it gives no error. */
  ghost predicate Honest(op: Op, out: Outcome) {
    out.taken <= Payload(op) && (out.err.None? ==> out.taken == Payload(op))
  }

  ghost predicate AllHonest(ops: seq<Op>, outs: seq<Outcome>) {
    |ops| == |outs| && forall i :: 0 <= i < |outs| ==> Honest(ops[i], outs[i])
  }

  /** After the first error every call gives the same error, accepts nothing and sends nothing. */
  ghost predicate Sticky(outs: seq<Outcome>) {
    forall i, j :: 0 <= i < j < |outs| && outs[i].err.Some? ==> outs[j] == Outcome([], outs[i].err, outs[i].sent)
  }

  method Call(w: Writer, op: Op) returns (out: Outcome)
    requires w.Valid()
    modifies w, w.buf, w.wr
    ensures w.Valid() && w.Accepted() == old(w.Accepted()) + out.taken
    ensures Honest(op, out) && out.err == w.err && out.sent == w.wr.received
    ensures old(w.err).Some? ==> out == Outcome([], old(w.err), old(w.wr.received))
    ensures op.OpFlush? && out.err.None? ==> out.taken == [] && out.sent == old(w.Accepted())
  {
    hide w.Accepted;
    match op
    case OpWrite(p) =>
      var nn, r := w.Write(p);
      out := Outcome(p[..nn], r, w.wr.received);
    case OpWriteString(s) =>
      var nn, r := w.WriteString(s);
      out := Outcome(s[..nn], r, w.wr.received);
    case OpWriteByte(c) =>
      var r := w.WriteByte(c);
      out := Outcome(if r.None? then [c] else [], r, w.wr.received);
    case OpFlush =>
      var r := w.Flush();
      out := Outcome([], r, w.wr.received);
  }

  /** Any sequence of calls: the sink and the buffer together hold every accepted byte in
      order, errors stick, and a Flush without error leaves nothing behind. */
  method Run(w: Writer, ops: seq<Op>) returns (outs: seq<Outcome>)
    requires w.Valid() && w.err.None?
    modifies w, w.buf, w.wr
    ensures w.Valid() && w.Accepted() == old(w.Accepted()) + Taken(outs)
    ensures |outs| == |ops| && AllHonest(ops, outs) && Sticky(outs)
    ensures |ops| > 0 && ops[|ops| - 1].OpFlush? && outs[|ops| - 1].err.None? ==>
      w.wr.received == old(w.Accepted()) + Payloads(ops)
  {
    hide Honest, AllHonest, Sticky, Taken;
    outs := [];
    NoCalls(w.Accepted());
    ghost var start := w.Accepted();
    for i := 0 to |ops|
      invariant w.Valid() && w.Accepted() == start + Taken(outs)
      invariant |outs| == i && AllHonest(ops[..i], outs) && Sticky(outs)
      invariant if i == 0 then w.err.None? else outs[i - 1].err == w.err && outs[i - 1].sent == w.wr.received
      invariant i > 0 && ops[i - 1].OpFlush? && outs[i - 1].err.None? ==> w.wr.received == start + Taken(outs)
    {
      var out := Call(w, ops[i]);
      OneMoreCall(start, ops, i, outs, out);
      outs := outs + [out];
    }
    assert ops[..|ops|] == ops;
    if |ops| > 0 && outs[|ops| - 1].err.None? {
      AllTaken(ops, outs);
    }
  }

  lemma NoCalls(start: Bytes)
    ensures AllHonest([], []) && Sticky([]) && start == start + Taken([])
  {
  }

  lemma OneMoreCall(start: Bytes, ops: seq<Op>, i: nat, outs: seq<Outcome>, out: Outcome)
    requires i < |ops| && |outs| == i && AllHonest(ops[..i], outs) && Sticky(outs) && Honest(ops[i], out)
    requires |outs| > 0 && outs[|outs| - 1].err.Some? ==>
      out == Outcome([], outs[|outs| - 1].err, outs[|outs| - 1].sent)
    ensures AllHonest(ops[..i + 1], outs + [out]) && Sticky(outs + [out])
    ensures (start + Taken(outs)) + out.taken == start + Taken(outs + [out])
  {
    StickySnoc(outs, out);
    HonestSnoc(ops, i, outs, out);
    TakenSnoc(outs, out);
    hide Honest, AllHonest, Sticky, Taken;
    assert (start + Taken(outs)) + out.taken == start + (Taken(outs) + out.taken);
  }

  lemma HonestSnoc(ops: seq<Op>, i: nat, outs: seq<Outcome>, out: Outcome)
    requires i < |ops| && |outs| == i && AllHonest(ops[..i], outs) && Honest(ops[i], out)
    ensures AllHonest(ops[..i + 1], outs + [out])
  {
    hide Honest;
  }

  lemma TakenSnoc(outs: seq<Outcome>, out: Outcome)
    ensures Taken(outs + [out]) == Taken(outs) + out.taken
  {
    assert (outs + [out])[..|outs|] == outs;
  }

  lemma StickySnoc(outs: seq<Outcome>, out: Outcome)
    requires Sticky(outs)
    requires |outs| > 0 && outs[|outs| - 1].err.Some? ==>
      out == Outcome([], outs[|outs| - 1].err, outs[|outs| - 1].sent)
    ensures Sticky(outs + [out])
  {
    var all := outs + [out];
    forall i, j | 0 <= i < j < |all| && all[i].err.Some?
      ensures all[j] == Outcome([], all[i].err, all[i].sent)
    {
      if i < |outs| - 1 {
        assert outs[|outs| - 1] == Outcome([], outs[i].err, outs[i].sent);
      }
    }
  }

  /** When the last call of a run gave no error, every byte offered was accepted. */
  lemma {:induction false} AllTaken(ops: seq<Op>, outs: seq<Outcome>)
    requires AllHonest(ops, outs) && Sticky(outs)
    requires |outs| > 0 ==> outs[|outs| - 1].err.None?
    ensures Taken(outs) == Payloads(ops)
  {
    if |outs| > 0 {
      assert |outs| > 1 ==> outs[|outs| - 2].err.None?;
      AllTaken(ops[..|ops| - 1], outs[..|outs| - 1]);
      assert Honest(ops[|ops| - 1], outs[|outs| - 1]);
    }
  }
}
