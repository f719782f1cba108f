/** The outside of the buffered streams: an io.Writer and an io.Reader that keep the
    rules of io.go, and the byte copies of the built-in copy. */
module Io {

  import opened Basics

  datatype Error =
    | EOF
    | ErrShortWrite
    | ErrNoProgress
    | ErrBufferFull
    | ErrTooLong
    | ErrNegativeAdvance
    | ErrAdvanceTooFar
    | Failure(code: nat)

  /** An io.Writer. It may stop short and it may fail. A short write without an error,
      which io.go forbids, is allowed too as long as the write makes some progress. */
  class Sink {
    var received: Bytes

    constructor ()
      ensures received == []
    {
      received := [];
    }

    method Write(p: Bytes) returns (n: nat, err: Option<Error>)
      modifies this
      ensures n <= |p| && received == old(received) + p[..n]
      ensures 0 == n < |p| ==> err.Some?
    {
      n :| 0 <= n <= |p|;
      if * {
        var code: nat :| true;
        err := Some(Failure(code));
      } else {
        err := None;
        n := if n == 0 then |p| else n;
      }
      received := received + p[..n];
    }
  }

  /** What a source does when it is asked: how many bytes it is ready to hand out, and
      whether it reports the end together with the last byte. */
  datatype Delivery = Delivery(n: nat, end: bool)

  /** The coming delivery; after the schedule a source hands out what fits and tells the end. */
  function Coming(schedule: seq<Delivery>, rest: Bytes): Delivery {
    if schedule == [] then Delivery(|rest|, true) else schedule[0]
  }

  function Later(schedule: seq<Delivery>): seq<Delivery> {
    if schedule == [] then [] else schedule[1..]
  }

  function Amount(d: Delivery, rest: Bytes, room: nat): (n: nat)
    ensures n <= |rest| && n <= room
  {
    Min(d.n, Min(room, |rest|))
  }

  /** A source that is ready for bytes when none are left reports the end as well. */
  predicate TellsEnd(d: Delivery, rest: Bytes, n: nat) {
    n == |rest| && (d.end || (n == 0 && d.n > 0))
  }

  /** The delivery hands out nothing and says nothing. */
  predicate Silent(d: Delivery, rest: Bytes) {
    d.n == 0 && (rest == [] ==> !d.end)
  }

  /** No limit deliveries in a row are silent, wherever in the stream they come. */
  ghost predicate Talkative(schedule: seq<Delivery>, limit: nat) {
    forall i: nat :: i + limit <= |schedule| ==> Speaks(schedule, i, limit)
  }

  ghost predicate Speaks(schedule: seq<Delivery>, i: nat, limit: nat)
    requires i + limit <= |schedule|
  {
    exists k :: i <= k < i + limit && schedule[k].n > 0
  }

  lemma TalkativeLater(schedule: seq<Delivery>, limit: nat)
    requires Talkative(schedule, limit)
    ensures Talkative(Later(schedule), limit)
  {
    var later := Later(schedule);
    forall i: nat | i + limit <= |later|
      ensures Speaks(later, i, limit)
    {
      if schedule != [] {
        assert Speaks(schedule, i + 1, limit);
        var k :| i + 1 <= k < i + 1 + limit && schedule[k].n > 0;
        assert later[k - 1].n > 0;
      } else {
        assert Speaks(schedule, i, limit);
      }
    }
  }

  /** limit silent deliveries at the front of a schedule. */
  lemma TalkativeNotSilent(schedule: seq<Delivery>, limit: nat, rest: Bytes)
    requires limit <= |schedule| && forall k :: 0 <= k < limit ==> Silent(schedule[k], rest)
    ensures !Talkative(schedule, limit)
  {
    assert !Speaks(schedule, 0, limit);
  }

  /** An io.Reader over a finite stream. Its schedule fixes how the stream is handed out; every
      way of chunking is some schedule. */
  class Source {
    var rest: Bytes
    var schedule: seq<Delivery>
    const final: Error

    constructor (stream: Bytes, schedule: seq<Delivery>, final: Error)
      ensures rest == stream && this.schedule == schedule && this.final == final
    {
      rest, this.schedule, this.final := stream, schedule, final;
    }

    /** Reads into p[lo..]. What follows the delivered bytes in p is scratch. */
    method Read(p: array<Byte>, lo: nat) returns (n: nat, err: Option<Error>)
      requires lo < p.Length
      modifies this`rest, this`schedule, p
      ensures var d := Coming(old(schedule), old(rest));
              && n == Amount(d, old(rest), p.Length - lo)
              && err == if TellsEnd(d, old(rest), n) then Some(final) else None
      ensures p[..lo + n] == old(p[..lo]) + old(rest)[..n]
      ensures rest == old(rest)[n..] && schedule == Later(old(schedule))
    {
      var d := Coming(schedule, rest);
      n := Amount(d, rest, p.Length - lo);
      err := if TellsEnd(d, rest, n) then Some(final) else None;
      for k := lo + n to p.Length
        modifies p
        invariant forall j :: 0 <= j < lo ==> p[j] == old(p[j])
      {
        var scratch: Byte :| true;
        p[k] := scratch;
      }
      CopyInto(p, lo, rest[..n]);
      rest := rest[n..];
      schedule := Later(schedule);
    }
  }

  function Min(a: int, b: int): int { if a <= b then a else b }

  /** copy(a[at:], s) for an s that fits. */
  method CopyInto(a: array<Byte>, at: nat, s: Bytes)
    requires at + |s| <= a.Length
    modifies a
    ensures a[..at + |s|] == old(a[..at]) + s
    ensures forall k :: at + |s| <= k < a.Length ==> a[k] == old(a[k])
  {
    for j := 0 to |s|
      invariant forall k :: 0 <= k < at ==> a[k] == old(a[k])
      invariant forall k :: 0 <= k < j ==> a[at + k] == s[k]
      invariant forall k :: at + j <= k < a.Length ==> a[k] == old(a[k])
    {
      a[at + j] := s[j];
    }
  }

  /** copy(a[dst:], a[src:src+n]) with dst <= src: the two ranges may overlap. */
  method MoveDown(a: array<Byte>, dst: nat, src: nat, n: nat)
    requires dst <= src && src + n <= a.Length
    modifies a
    ensures a[..dst + n] == old(a[..dst]) + old(a[src..src + n])
    ensures forall k :: dst + n <= k < a.Length ==> a[k] == old(a[k])
  {
    ghost var moved := old(a[src..src + n]);
    for j := 0 to n
      invariant forall k :: 0 <= k < dst ==> a[k] == old(a[k])
      invariant forall k :: dst <= k < dst + j ==> a[k] == moved[k - dst]
      invariant forall k :: dst + j <= k < a.Length ==> a[k] == old(a[k])
    {
      a[dst + j] := a[src + j];
    }
  }
}
