/** io.Pipe: the two-channel handoff between any number of concurrent readers, writers
    and closers, as a transition system. One Proc is one call in flight; a run is any
    interleaving of their atomic steps. Channel operations are rendezvous: one step moves
    the sender and the receiver together. */
module Pipe {

  import opened Basics

  datatype Err = ErrClosedPipe | EOF | Custom(code: int)
  datatype Side = ReadSide | WriteSide

  /** Where a call stands. A session number k identifies a Write that took the lock. */
  datatype Proc =
    // Read(b) with len(b) == len
    | ReadStart(len: nat)                          // first select
    | ReadWait(len: nat)                           // second select
    | ReadAck(chunk: Bytes)                        // copied; about to send nr on rdCh
    | ReadErr1                                     // readCloseError: load rerr
    | ReadErr2(seen: Option<Err>)                  // readCloseError: load werr
    | ReadDone(chunk: Bytes, err: Option<Err>)
    // Write(data): b is the slice left, n the count so far
    | WriteStart(data: Bytes)                      // first select
    | WriteLock(data: Bytes)                       // waiting for wrMu
    | WriteLoop(data: Bytes, b: Bytes, n: nat, once: bool, k: nat)
    | WriteAwait(data: Bytes, b: Bytes, n: nat, k: nat)         // sent b; receiving from rdCh
    | WriteErr1(data: Bytes, n: nat, s: Option<nat>)            // writeCloseError: load werr
    | WriteErr2(data: Bytes, n: nat, s: Option<nat>, seen: Option<Err>)
    | WriteDone(data: Bytes, n: nat, s: Option<nat>, err: Option<Err>)
    // CloseRead(err), CloseWrite(err)
    | CloseStore(side: Side, why: Err)
    | CloseOnce(side: Side)
    | CloseDone

  /** A Write that entered its critical section, in lock order; taken counts the bytes
      handed to readers so far. */
  datatype Session = Session(writer: nat, data: Bytes, taken: nat)

  /** One handoff: which reader got which bytes out of which session. */
  datatype Handoff = Handoff(reader: nat, k: nat, chunk: Bytes)

  datatype State = State(
    procs: seq<Proc>,
    lock: Option<nat>,        // holder of wrMu
    done: bool,               // the done channel is closed
    closes: nat,              // how often close(done) ran
    rerr: Option<Err>,
    werr: Option<Err>,
    sessions: seq<Session>,   // history of lock acquisitions
    log: seq<Handoff>,        // history of handoffs
    late: set<nat>            // calls that began after done was closed
  )

  const INIT := State([], None, false, 0, None, None, [], [], {})

  // ----- steps -----

  datatype Step =
    | Call(p: Proc)
    | ReadSelect(r: nat)
    | Hand(w: nat, r: nat)
    | Ack(r: nat, w: nat)
    | ReadAbort(r: nat)
    | ReadLoadR(r: nat)
    | ReadLoadW(r: nat)
    | WriteSelect(w: nat)
    | Lock(w: nat)
    | WriteFinish(w: nat)
    | WriteAbort(w: nat)
    | WriteLoadW(w: nat)
    | WriteLoadR(w: nat)
    | Store(c: nat)
    | Once(c: nat)

  function Min(a: nat, b: nat): nat { if a < b then a else b }

  predicate In(s: State, i: nat) { i < |s.procs| }

  /** The Write loop runs its select: the first time round, or while bytes are left. */
  predicate Selecting(p: Proc) { p.WriteLoop? && (p.once || |p.b| > 0) }

  predicate Enabled(s: State, e: Step) {
    match e
    case Call(p) => p.ReadStart? || p.WriteStart? || p.CloseStore?
    case ReadSelect(r) => In(s, r) && s.procs[r].ReadStart?
    case Hand(w, r) => In(s, w) && In(s, r) && Selecting(s.procs[w]) && s.procs[r].ReadWait?
    case Ack(r, w) => In(s, r) && In(s, w) && s.procs[r].ReadAck? && s.procs[w].WriteAwait?
                      && |s.procs[r].chunk| <= |s.procs[w].b|
    case ReadAbort(r) => In(s, r) && s.procs[r].ReadWait? && s.done
    case ReadLoadR(r) => In(s, r) && s.procs[r].ReadErr1?
    case ReadLoadW(r) => In(s, r) && s.procs[r].ReadErr2?
    case WriteSelect(w) => In(s, w) && s.procs[w].WriteStart?
    case Lock(w) => In(s, w) && s.procs[w].WriteLock? && s.lock.None?
    case WriteFinish(w) => In(s, w) && s.procs[w].WriteLoop? && !Selecting(s.procs[w])
    case WriteAbort(w) => In(s, w) && Selecting(s.procs[w]) && s.done
    case WriteLoadW(w) => In(s, w) && s.procs[w].WriteErr1?
    case WriteLoadR(w) => In(s, w) && s.procs[w].WriteErr2?
    case Store(c) => In(s, c) && s.procs[c].CloseStore?
    case Once(c) => In(s, c) && s.procs[c].CloseOnce?
  }

  /** The error a Read returns once it has loaded rerr and then werr. */
  function ReadCloseError(rerr: Option<Err>, werr: Option<Err>): Err {
    if rerr.None? && werr.Some? then werr.value else ErrClosedPipe
  }

  function WriteCloseError(werr: Option<Err>, rerr: Option<Err>): Err {
    if werr.None? && rerr.Some? then rerr.value else ErrClosedPipe
  }

  /** onceError.Store */
  function StoreOnce(old_: Option<Err>, err: Err): Option<Err> {
    if old_.Some? then old_ else Some(err)
  }

  function SetProc(s: State, i: nat, p: Proc): State
    requires In(s, i)
  {
    s.(procs := s.procs[i := p])
  }

  function Apply(s: State, e: Step): State
    requires Enabled(s, e)
  {
    match e
    case Call(p) =>
      s.(procs := s.procs + [p], late := if s.done then s.late + {|s.procs|} else s.late)
    case ReadSelect(r) =>
      SetProc(s, r, if s.done then ReadErr1 else ReadWait(s.procs[r].len))
    case Hand(w, r) =>
      var p := s.procs[w];
      var chunk := p.b[..Min(s.procs[r].len, |p.b|)];
      s.(procs := s.procs[w := WriteAwait(p.data, p.b, p.n, p.k)][r := ReadAck(chunk)],
         sessions := if p.k < |s.sessions| then
           s.sessions[p.k := s.sessions[p.k].(taken := s.sessions[p.k].taken + |chunk|)] else s.sessions,
         log := s.log + [Handoff(r, p.k, chunk)])
    case Ack(r, w) =>
      var p, nr := s.procs[w], |s.procs[r].chunk|;
      s.(procs := s.procs[w := WriteLoop(p.data, p.b[nr..], p.n + nr, false, p.k)][r := ReadDone(s.procs[r].chunk, None)])
    case ReadAbort(r) => SetProc(s, r, ReadErr1)
    case ReadLoadR(r) => SetProc(s, r, ReadErr2(s.rerr))
    case ReadLoadW(r) => SetProc(s, r, ReadDone([], Some(ReadCloseError(s.procs[r].seen, s.werr))))
    case WriteSelect(w) =>
      var data := s.procs[w].data;
      SetProc(s, w, if s.done then WriteErr1(data, 0, None) else WriteLock(data))
    case Lock(w) =>
      var data := s.procs[w].data;
      SetProc(s, w, WriteLoop(data, data, 0, true, |s.sessions|))
      .(lock := Some(w), sessions := s.sessions + [Session(w, data, 0)])
    case WriteFinish(w) =>
      var p := s.procs[w];
      SetProc(s, w, WriteDone(p.data, p.n, Some(p.k), None)).(lock := None)
    case WriteAbort(w) =>
      var p := s.procs[w];
      SetProc(s, w, WriteErr1(p.data, p.n, Some(p.k)))
    case WriteLoadW(w) =>
      var p := s.procs[w];
      SetProc(s, w, WriteErr2(p.data, p.n, p.s, s.werr))
    case WriteLoadR(w) =>
      var p := s.procs[w];
      SetProc(s, w, WriteDone(p.data, p.n, p.s, Some(WriteCloseError(p.seen, s.rerr))))
      .(lock := if p.s.Some? then None else s.lock)
    case Store(c) =>
      var p := s.procs[c];
      var s' := SetProc(s, c, CloseOnce(p.side));
      if p.side.ReadSide? then s'.(rerr := StoreOnce(s.rerr, p.why)) else s'.(werr := StoreOnce(s.werr, p.why))
    case Once(c) =>
      var s' := SetProc(s, c, CloseDone);
      if s.done then s' else s'.(done := true, closes := s.closes + 1)
  }

  // ----- runs -----

  ghost predicate ValidRun(s: State, es: seq<Step>)
    decreases |es|
  {
    |es| == 0 || (Enabled(s, es[0]) && ValidRun(Apply(s, es[0]), es[1..]))
  }

  ghost function After(s: State, es: seq<Step>): State
    requires ValidRun(s, es)
    decreases |es|
  {
    if |es| == 0 then s else After(Apply(s, es[0]), es[1..])
  }

  // ----- the bytes -----

  /** All bytes handed over, in handoff order. */
  function Flat(log: seq<Handoff>): Bytes {
    if |log| == 0 then [] else Flat(log[..|log| - 1]) + log[|log| - 1].chunk
  }

  /** The bytes handed out of session k. */
  function FlatOf(log: seq<Handoff>, k: nat): Bytes {
    if |log| == 0 then []
    else FlatOf(log[..|log| - 1], k) + (if log[|log| - 1].k == k then log[|log| - 1].chunk else [])
  }

  /** The consumed prefixes of the writes, in lock order. */
  function Consumed(ss: seq<Session>): Bytes
    requires forall k :: 0 <= k < |ss| ==> ss[k].taken <= |ss[k].data|
  {
    if |ss| == 0 then []
    else Consumed(ss[..|ss| - 1]) + ss[|ss| - 1].data[..ss[|ss| - 1].taken]
  }

  // ----- the invariant -----

  /** The calls that hold the write lock, and the session they run. */
  predicate Holds(p: Proc) {
    p.WriteLoop? || p.WriteAwait? || (p.WriteErr1? && p.s.Some?) || (p.WriteErr2? && p.s.Some?)
  }

  function SessionOf(p: Proc): nat
    requires Holds(p)
  {
    if p.WriteLoop? || p.WriteAwait? then p.k else p.s.value
  }

  ghost predicate LockInv(s: State) {
    && (forall i :: 0 <= i < |s.procs| && Holds(s.procs[i]) ==> s.lock == Some(i))
    && (s.lock.Some? ==> In(s, s.lock.value) && Holds(s.procs[s.lock.value]))
  }

  /** The lock holder runs the newest session, and its b and n describe what is left. */
  ghost predicate HolderInv(s: State, w: nat)
    requires In(s, w) && Holds(s.procs[w])
  {
    var p := s.procs[w];
    && |s.sessions| > 0 && SessionOf(p) == |s.sessions| - 1
    && s.sessions[SessionOf(p)].writer == w && s.sessions[SessionOf(p)].data == p.data
    && p.n <= |p.data|
    && (p.WriteLoop? || p.WriteAwait? ==> p.b == p.data[p.n..])
    && (!p.WriteAwait? ==> s.sessions[SessionOf(p)].taken == p.n)
  }

  /** A reader owing an acknowledgement and the writer awaiting it come in one pair. */
  ghost predicate PairInv(s: State) {
    && (forall r :: 0 <= r < |s.procs| && s.procs[r].ReadAck? ==>
          && s.lock.Some? && In(s, s.lock.value) && s.procs[s.lock.value].WriteAwait?
          && |s.sessions| > 0
          && s.sessions[|s.sessions| - 1].taken == s.procs[s.lock.value].n + |s.procs[r].chunk|
          && |s.log| > 0 && s.log[|s.log| - 1] == Handoff(r, |s.sessions| - 1, s.procs[r].chunk))
    && (s.lock.Some? && In(s, s.lock.value) && s.procs[s.lock.value].WriteAwait? ==>
          |s.log| > 0 && In(s, s.log[|s.log| - 1].reader) && s.procs[s.log[|s.log| - 1].reader].ReadAck?)
  }

  ghost predicate SessionInv(s: State) {
    && (forall k :: 0 <= k < |s.sessions| ==> s.sessions[k].taken <= |s.sessions[k].data|)
    && (forall k :: 0 <= k < |s.sessions| ==> FlatOf(s.log, k) == s.sessions[k].data[..s.sessions[k].taken])
    && (forall i :: 0 <= i < |s.log| ==> s.log[i].k < |s.sessions|)
    && (forall i, j :: 0 <= i < j < |s.log| ==> s.log[i].k <= s.log[j].k)
  }

  /** What a finished call has returned. */
  ghost predicate ResultInv(s: State, i: nat)
    requires In(s, i)
  {
    var p := s.procs[i];
    && (p.WriteDone? && p.s.Some? ==>
          && p.s.value < |s.sessions|
          && s.sessions[p.s.value] == Session(i, p.data, p.n)
          && p.n <= |p.data|)
    && ((p.WriteDone? || p.WriteErr1? || p.WriteErr2?) && p.s.None? ==> p.n == 0)
    && (p.WriteDone? && p.err.None? ==> p.s.Some? && p.n == |p.data|)
    && (p.ReadDone? && p.err.None? ==> exists j :: 0 <= j < |s.log| && s.log[j].reader == i && s.log[j].chunk == p.chunk)
    && (p.ReadDone? && p.err.Some? ==> p.chunk == [])
  }

  /** A reader takes part in at most one handoff, and only on its way to acknowledging it. */
  ghost predicate ReaderInv(s: State) {
    && (forall j :: 0 <= j < |s.log| ==>
          In(s, s.log[j].reader) &&
          (var p := s.procs[s.log[j].reader]; p.ReadAck? || (p.ReadDone? && p.err.None?)))
    && (forall i, j :: 0 <= i < j < |s.log| ==> s.log[i].reader != s.log[j].reader)
  }

  ghost predicate WriterInv(s: State) {
    forall k :: 0 <= k < |s.sessions| ==> WriterAt(s, k)
  }

  /** The writer of session k is running it, or has finished it. */
  ghost predicate WriterAt(s: State, k: nat)
    requires k < |s.sessions|
  {
    && In(s, s.sessions[k].writer)
    && (var p := s.procs[s.sessions[k].writer];
        (Holds(p) && SessionOf(p) == k) || (p.WriteDone? && p.s == Some(k)))
  }

  /** Closing: done is closed at most once, and only after an error was stored. */
  ghost predicate CloseInv(s: State) {
    && s.closes == (if s.done then 1 else 0)
    && (s.done ==> s.rerr.Some? || s.werr.Some?)
    && (forall i :: 0 <= i < |s.procs| && s.procs[i].CloseOnce? ==>
          if s.procs[i].side.ReadSide? then s.rerr.Some? else s.werr.Some?)
    && (forall i :: 0 <= i < |s.procs| ==> ErrorInv(s, i))
  }

  /** Error results are seen only after closing, and are the ones the other end left. */
  ghost predicate ErrorInv(s: State, i: nat)
    requires In(s, i)
  {
    var p := s.procs[i];
    && (p.ReadErr1? || p.ReadErr2? || p.WriteErr1? || p.WriteErr2? ==> s.done)
    && (p.ReadErr2? && p.seen.Some? ==> p.seen == s.rerr)
    && (p.WriteErr2? && p.seen.Some? ==> p.seen == s.werr)
    && (p.ReadDone? && p.err.Some? ==>
          s.done && (p.err == Some(ErrClosedPipe) || p.err == s.werr) && (s.rerr.None? ==> p.err == s.werr))
    && (p.WriteDone? && p.err.Some? ==>
          s.done && (p.err == Some(ErrClosedPipe) || p.err == s.rerr) && (s.werr.None? ==> p.err == s.rerr))
  }

  /** A call that has not been, and will not be, part of a handoff. */
  predicate NoTransfer(p: Proc) {
    && !p.ReadWait? && !p.ReadAck? && !(p.ReadDone? && p.err.None?)
    && !p.WriteLock? && !Holds(p) && !(p.WriteDone? && p.s.Some?)
  }

  /** Calls that begin after closing never transfer data. */
  ghost predicate LateInv(s: State) {
    forall i :: i in s.late ==> In(s, i) && s.done && NoTransfer(s.procs[i])
  }

  ghost predicate Inv(s: State) {
    && LockInv(s)
    && (forall i :: 0 <= i < |s.procs| && Holds(s.procs[i]) ==> HolderInv(s, i))
    && PairInv(s) && SessionInv(s)
    && (forall i :: 0 <= i < |s.procs| ==> ResultInv(s, i))
    && ReaderInv(s) && WriterInv(s) && CloseInv(s) && LateInv(s)
  }

  lemma InitInv()
    ensures Inv(INIT)
  {
  }

  // ----- each part of the invariant is kept by every step -----

  lemma InvStep(s: State, e: Step)
    requires Inv(s) && Enabled(s, e)
    ensures Inv(Apply(s, e))
  {
    hide *;
    InvParts(s);
    LockStep(s, e);
    PairStep(s, e);
    SessionStep(s, e);
    ReaderStep(s, e);
    WriterStep(s, e);
    LateStep(s, e);
    CloseStep(s, e);
    HolderStep(s, e);
    ResultStep(s, e);
    InvWhole(Apply(s, e));
  }

  ghost predicate HoldersInv(s: State) {
    forall i :: 0 <= i < |s.procs| && Holds(s.procs[i]) ==> HolderInv(s, i)
  }

  ghost predicate ResultsInv(s: State) {
    forall i :: 0 <= i < |s.procs| ==> ResultInv(s, i)
  }

  lemma InvParts(s: State)
    requires Inv(s)
    ensures LockInv(s) && HoldersInv(s) && PairInv(s) && SessionInv(s) && ResultsInv(s)
    ensures ReaderInv(s) && WriterInv(s) && CloseInv(s) && LateInv(s)
  {
    hide LockInv, PairInv, SessionInv, ReaderInv, WriterInv, CloseInv, LateInv, HolderInv, ResultInv;
  }

  lemma InvWhole(s: State)
    requires LockInv(s) && HoldersInv(s) && PairInv(s) && SessionInv(s) && ResultsInv(s)
    requires ReaderInv(s) && WriterInv(s) && CloseInv(s) && LateInv(s)
    ensures Inv(s)
  {
    hide LockInv, PairInv, SessionInv, ReaderInv, WriterInv, CloseInv, LateInv, HolderInv, ResultInv;
  }

  lemma LockStep(s: State, e: Step)
    requires LockInv(s) && Enabled(s, e)
    ensures LockInv(Apply(s, e))
  {
    hide FlatOf, Min, Holds, Enabled, Apply;
    var s' := Apply(s, e);
    LockHolder(s, e);
    forall i | 0 <= i < |s'.procs| && Holds(s'.procs[i])
      ensures s'.lock == Some(i)
    {
      LockStepAt(s, e, i);
    }
  }

  lemma LockHolder(s: State, e: Step)
    requires LockInv(s) && Enabled(s, e)
    ensures var s' := Apply(s, e); s'.lock.Some? ==> In(s', s'.lock.value) && Holds(s'.procs[s'.lock.value])
  {
    hide FlatOf, Min;
  }

  lemma LockStepAt(s: State, e: Step, i: nat)
    requires LockInv(s) && Enabled(s, e) && i < |Apply(s, e).procs| && Holds(Apply(s, e).procs[i])
    ensures Apply(s, e).lock == Some(i)
  {
    hide FlatOf, Min;
  }

  lemma HolderStep(s: State, e: Step)
    requires LockInv(s) && HoldersInv(s) && PairInv(s) && Enabled(s, e)
    ensures HoldersInv(Apply(s, e))
  {
    hide FlatOf, Holds, Enabled, Apply, HolderInv, LockInv, PairInv;
    var s' := Apply(s, e);
    forall i | 0 <= i < |s'.procs| && Holds(s'.procs[i])
      ensures HolderInv(s', i)
    {
      HolderStepAt(s, e, i);
    }
  }

  lemma HolderStepAt(s: State, e: Step, i: nat)
    requires LockInv(s) && HoldersInv(s) && PairInv(s) && Enabled(s, e)
    requires i < |Apply(s, e).procs| && Holds(Apply(s, e).procs[i])
    ensures HolderInv(Apply(s, e), i)
  {
    hide FlatOf;
    if i < |s.procs| && Holds(s.procs[i]) { assert HolderInv(s, i); }
    hide HoldersInv;
    if e.Hand? || e.Ack? {
      assert s.lock == Some(e.w);
    } else if e.Lock? {
      hide PairInv;
    } else {
      hide PairInv;
      HolderOther(s, e, i);
    }
  }

  lemma HolderOther(s: State, e: Step, i: nat)
    requires LockInv(s) && Enabled(s, e) && !e.Hand? && !e.Ack? && !e.Lock?
    requires i < |Apply(s, e).procs| && Holds(Apply(s, e).procs[i])
    requires i < |s.procs| && Holds(s.procs[i]) ==> HolderInv(s, i)
    ensures HolderInv(Apply(s, e), i)
  {
    hide FlatOf;
    SessionsKept(s, e);
  }

  lemma PairStep(s: State, e: Step)
    requires LockInv(s) && HoldersInv(s) && PairInv(s) && SessionInv(s) && ReaderInv(s) && Enabled(s, e)
    ensures PairInv(Apply(s, e))
  {
    hide FlatOf, SessionInv;
    if e.Hand? {
      assert HolderInv(s, e.w);
      hide Min, HolderInv;
    } else if e.Ack? {
      hide HolderInv, HoldersInv;
    } else {
      PairOther(s, e);
    }
  }

  /** Steps other than the two rendezvous leave a pending handoff alone. */
  lemma PairOther(s: State, e: Step)
    requires LockInv(s) && HoldersInv(s) && PairInv(s) && ReaderInv(s) && Enabled(s, e) && !e.Hand? && !e.Ack?
    ensures PairInv(Apply(s, e))
  {
    hide FlatOf, SessionInv, HoldersInv, HolderInv, PairInv, ReaderInv, Enabled, Apply;
    var s' := Apply(s, e);
    OtherLog(s, e);
    PendingKept(s, e);
    if s.lock.Some? && s.procs[s.lock.value].WriteAwait? {
      PairAgain(s, s', e);
    } else {
      PairNone(s, s', e);
    }
  }

  lemma OtherLog(s: State, e: Step)
    requires Enabled(s, e) && !e.Hand? && !e.Ack?
    ensures Apply(s, e).log == s.log
    ensures |Apply(s, e).procs| >= |s.procs|
    ensures s.lock.Some? && !e.Lock? ==> Apply(s, e).sessions == s.sessions
    ensures s.lock.Some? ==> !e.Lock?
  {
    hide FlatOf;
  }

  lemma PendingKept(s: State, e: Step)
    requires LockInv(s) && Enabled(s, e) && !e.Hand? && !e.Ack?
    ensures forall i :: 0 <= i < |s.procs| && (s.procs[i].ReadAck? || s.procs[i].WriteAwait?) ==>
              Apply(s, e).procs[i] == s.procs[i]
    ensures forall i :: 0 <= i < |Apply(s, e).procs| && (Apply(s, e).procs[i].ReadAck? || Apply(s, e).procs[i].WriteAwait?) ==>
              i < |s.procs| && Apply(s, e).procs[i] == s.procs[i]
    ensures s.lock.Some? && s.procs[s.lock.value].WriteAwait? ==> Apply(s, e).lock == s.lock
  {
    hide FlatOf;
  }

  lemma PairAgain(s: State, s': State, e: Step)
    requires LockInv(s) && PairInv(s) && s.lock.Some? && s.procs[s.lock.value].WriteAwait?
    requires s'.lock == s.lock && s'.log == s.log && s'.sessions == s.sessions && |s'.procs| >= |s.procs|
    requires forall i :: 0 <= i < |s.procs| && (s.procs[i].ReadAck? || s.procs[i].WriteAwait?) ==> s'.procs[i] == s.procs[i]
    requires forall i :: 0 <= i < |s'.procs| && (s'.procs[i].ReadAck? || s'.procs[i].WriteAwait?) ==>
               i < |s.procs| && s'.procs[i] == s.procs[i]
    ensures PairInv(s')
  {
  }

  lemma PairNone(s: State, s': State, e: Step)
    requires PairInv(s) && LockInv(s) && !(s.lock.Some? && s.procs[s.lock.value].WriteAwait?)
    requires forall i :: 0 <= i < |s'.procs| && (s'.procs[i].ReadAck? || s'.procs[i].WriteAwait?) ==>
               i < |s.procs| && s'.procs[i] == s.procs[i]
    ensures PairInv(s')
  {
    forall i | 0 <= i < |s'.procs|
      ensures !s'.procs[i].ReadAck? && !s'.procs[i].WriteAwait?
    {
      if s'.procs[i].WriteAwait? { assert Holds(s.procs[i]); }
    }
  }

  lemma SessionStep(s: State, e: Step)
    requires LockInv(s) && HoldersInv(s) && PairInv(s) && SessionInv(s) && Enabled(s, e)
    ensures SessionInv(Apply(s, e))
  {
    if e.Hand? {
      SessionHand(s, e.w, e.r);
    } else if e.Lock? {
      SessionNew(s, e.w);
    } else {
      hide FlatOf, SessionInv;
      SessionsKept(s, e);
      SameSessions(s, Apply(s, e));
    }
  }

  lemma SessionsKept(s: State, e: Step)
    requires Enabled(s, e) && !e.Hand? && !e.Lock?
    ensures Apply(s, e).sessions == s.sessions && Apply(s, e).log == s.log
  {
  }

  lemma SameSessions(s: State, s': State)
    requires SessionInv(s) && s'.sessions == s.sessions && s'.log == s.log
    ensures SessionInv(s')
  {
  }

  lemma SessionNew(s: State, w: nat)
    requires SessionInv(s) && Enabled(s, Lock(w))
    ensures SessionInv(Apply(s, Lock(w)))
  {
    FlatOfNew(s.log, |s.sessions|);
  }

  lemma SessionHand(s: State, w: nat, r: nat)
    requires LockInv(s) && HoldersInv(s) && PairInv(s) && SessionInv(s) && Enabled(s, Hand(w, r))
    ensures SessionInv(Apply(s, Hand(w, r)))
  {
    var s' := Apply(s, Hand(w, r));
    assert HolderInv(s, w);
    assert s'.log[..|s.log|] == s.log;
  }

  lemma {:induction false} FlatOfNew(log: seq<Handoff>, k: nat)
    requires forall i :: 0 <= i < |log| ==> log[i].k < k
    ensures FlatOf(log, k) == []
  {
    if |log| > 0 { FlatOfNew(log[..|log| - 1], k); }
  }

  lemma ResultStep(s: State, e: Step)
    requires LockInv(s) && HoldersInv(s) && PairInv(s) && ResultsInv(s) && WriterInv(s) && Enabled(s, e)
    ensures ResultsInv(Apply(s, e))
  {
    hide FlatOf, ResultInv, Enabled, Apply, LockInv, HoldersInv, PairInv, WriterInv;
    var s' := Apply(s, e);
    forall i | 0 <= i < |s'.procs|
      ensures ResultInv(s', i)
    {
      if i >= |s.procs| { ResultNew(s, e, i); }
      else if s'.procs[i] == s.procs[i] { ResultKept(s, e, i); }
      else { ResultMoved(s, e, i); }
    }
  }

  lemma ResultNew(s: State, e: Step, i: nat)
    requires Enabled(s, e) && |s.procs| <= i < |Apply(s, e).procs|
    ensures ResultInv(Apply(s, e), i)
  {
    hide FlatOf, Min;
  }

  lemma ResultKept(s: State, e: Step, i: nat)
    requires LockInv(s) && HoldersInv(s) && ResultsInv(s) && Enabled(s, e)
    requires i < |s.procs| && i < |Apply(s, e).procs| && Apply(s, e).procs[i] == s.procs[i]
    ensures ResultInv(Apply(s, e), i)
  {
    hide FlatOf, Min;
    assert ResultInv(s, i);
    KeepLog(s, Apply(s, e), i);
    if e.Hand? { assert HolderInv(s, e.w); }
  }

  lemma ResultMoved(s: State, e: Step, i: nat)
    requires LockInv(s) && HoldersInv(s) && PairInv(s) && ResultsInv(s) && Enabled(s, e)
    requires i < |s.procs| && i < |Apply(s, e).procs| && Apply(s, e).procs[i] != s.procs[i]
    ensures ResultInv(Apply(s, e), i)
  {
    assert ResultInv(s, i);
    if Holds(s.procs[i]) { assert HolderInv(s, i); }
    hide *;
    if e.Ack? {
      ResultAcked(s, e, i);
    } else {
      ResultElse(s, e, i);
    }
  }

  lemma ResultAcked(s: State, e: Step, i: nat)
    requires PairInv(s) && Enabled(s, e) && e.Ack?
    requires i < |s.procs| && i < |Apply(s, e).procs| && Apply(s, e).procs[i] != s.procs[i]
    requires ResultInv(s, i) && (Holds(s.procs[i]) ==> HolderInv(s, i))
    ensures ResultInv(Apply(s, e), i)
  {
    hide FlatOf, Min;
  }

  lemma ResultElse(s: State, e: Step, i: nat)
    requires Enabled(s, e) && !e.Ack?
    requires i < |s.procs| && i < |Apply(s, e).procs| && Apply(s, e).procs[i] != s.procs[i]
    requires ResultInv(s, i) && (Holds(s.procs[i]) ==> HolderInv(s, i))
    ensures ResultInv(Apply(s, e), i)
  {
    hide FlatOf, Min;
  }

  /** Handoffs stay in the log. */
  lemma KeepLog(s: State, s': State, i: nat)
    requires In(s, i) && s.log <= s'.log
    ensures forall j :: 0 <= j < |s.log| ==> s'.log[j] == s.log[j]
  {
  }

  lemma ReaderStep(s: State, e: Step)
    requires LockInv(s) && PairInv(s) && ReaderInv(s) && Enabled(s, e)
    ensures ReaderInv(Apply(s, e))
  {
    hide FlatOf, Min;
    if e.Hand? {
      hide LockInv, PairInv;
    } else if e.Ack? {
      hide LockInv, PairInv;
    } else {
      hide LockInv, PairInv;
      ReaderOther(s, e);
    }
  }

  lemma ReaderOther(s: State, e: Step)
    requires ReaderInv(s) && Enabled(s, e) && !e.Hand? && !e.Ack?
    ensures ReaderInv(Apply(s, e))
  {
    var s' := Apply(s, e);
    assert s'.log == s.log;
    forall j | 0 <= j < |s.log|
      ensures In(s', s.log[j].reader) && s'.procs[s.log[j].reader] == s.procs[s.log[j].reader]
    {
    }
  }

  lemma WriterStep(s: State, e: Step)
    requires LockInv(s) && HoldersInv(s) && WriterInv(s) && Enabled(s, e)
    ensures WriterInv(Apply(s, e))
  {
    hide FlatOf, Min, WriterAt, LockInv, HoldersInv, Enabled, Apply;
    var s' := Apply(s, e);
    forall k | 0 <= k < |s'.sessions|
      ensures WriterAt(s', k)
    {
      WriterStepAt(s, e, k);
    }
  }

  lemma WriterStepAt(s: State, e: Step, k: nat)
    requires LockInv(s) && HoldersInv(s) && Enabled(s, e) && k < |Apply(s, e).sessions|
    requires k < |s.sessions| ==> WriterAt(s, k)
    ensures WriterAt(Apply(s, e), k)
  {
    hide FlatOf, Min, Apply, Enabled, LockInv;
    if k < |s.sessions| {
      var w := s.sessions[k].writer;
      assert In(s, w) && (Holds(s.procs[w]) ==> HolderInv(s, w));
      hide WriterAt, HolderInv, HoldersInv;
      WriterKept(s, e, k);
    } else {
      WriterNew(s, e, k);
    }
  }

  lemma WriterKept(s: State, e: Step, k: nat)
    requires Enabled(s, e) && k < |s.sessions| && k < |Apply(s, e).sessions| && WriterAt(s, k)
    requires var w := s.sessions[k].writer; In(s, w) && (Holds(s.procs[w]) ==> HolderInv(s, w))
    ensures WriterAt(Apply(s, e), k)
  {
    hide FlatOf, Min;
  }

  lemma WriterNew(s: State, e: Step, k: nat)
    requires LockInv(s) && HoldersInv(s) && Enabled(s, e) && |s.sessions| <= k < |Apply(s, e).sessions|
    ensures WriterAt(Apply(s, e), k)
  {
    hide FlatOf, Min;
  }

  lemma LateStep(s: State, e: Step)
    requires LockInv(s) && PairInv(s) && LateInv(s) && Enabled(s, e)
    ensures LateInv(Apply(s, e))
  {
    hide FlatOf, Min;
  }

  lemma CloseStep(s: State, e: Step)
    requires CloseInv(s) && Enabled(s, e)
    ensures CloseInv(Apply(s, e))
  {
    hide FlatOf, Min, ErrorInv, Enabled, Apply;
    var s' := Apply(s, e);
    CloseFacts(s, e);
    forall i | 0 <= i < |s'.procs|
      ensures ErrorInv(s', i)
      ensures s'.procs[i].CloseOnce? ==> if s'.procs[i].side.ReadSide? then s'.rerr.Some? else s'.werr.Some?
    {
      if i < |s.procs| { assert ErrorInv(s, i); }
      ErrorStepAt(s, e, i);
    }
  }

  lemma CloseFacts(s: State, e: Step)
    requires CloseInv(s) && Enabled(s, e)
    ensures var s' := Apply(s, e);
            s'.closes == (if s'.done then 1 else 0) && (s'.done ==> s'.rerr.Some? || s'.werr.Some?)
  {
    hide FlatOf, Min, ErrorInv;
  }

  lemma ErrorStepAt(s: State, e: Step, i: nat)
    requires Enabled(s, e) && i < |Apply(s, e).procs| && (i < |s.procs| ==> ErrorInv(s, i))
    requires s.done ==> s.rerr.Some? || s.werr.Some?
    requires i < |s.procs| && s.procs[i].CloseOnce? ==>
               if s.procs[i].side.ReadSide? then s.rerr.Some? else s.werr.Some?
    ensures var s' := Apply(s, e);
            && ErrorInv(s', i)
            && (s'.procs[i].CloseOnce? ==> if s'.procs[i].side.ReadSide? then s'.rerr.Some? else s'.werr.Some?)
  {
    hide FlatOf, Min;
    var s' := Apply(s, e);
    ErrorsKept(s, e);
    if i < |s.procs| && s'.procs[i] == s.procs[i] {
      hide Apply, Enabled;
    } else {
      ErrorMoved(s, e, i);
    }
  }

  lemma ErrorMoved(s: State, e: Step, i: nat)
    requires Enabled(s, e) && i < |Apply(s, e).procs| && (i < |s.procs| ==> ErrorInv(s, i))
    requires s.done ==> s.rerr.Some? || s.werr.Some?
    requires i >= |s.procs| || Apply(s, e).procs[i] != s.procs[i]
    ensures var s' := Apply(s, e);
            && ErrorInv(s', i)
            && (s'.procs[i].CloseOnce? ==> if s'.procs[i].side.ReadSide? then s'.rerr.Some? else s'.werr.Some?)
  {
    hide FlatOf, Min;
  }

  // ----- every run -----

  lemma {:induction false} RunInv(s: State, es: seq<Step>)
    requires Inv(s) && ValidRun(s, es)
    ensures Inv(After(s, es))
    decreases |es|
  {
    hide Inv, Enabled, Apply;
    if |es| > 0 {
      InvStep(s, es[0]);
      RunInv(Apply(s, es[0]), es[1..]);
    }
  }

  /** In every reachable state, whatever the interleaving:
      the bytes handed to readers, in handoff order, are the consumed prefixes of the
      writes in lock order; and no two calls are in the critical section. */
  lemma StreamOrder(es: seq<Step>)
    requires ValidRun(INIT, es)
    ensures var s := After(INIT, es);
            && (forall k :: 0 <= k < |s.sessions| ==> s.sessions[k].taken <= |s.sessions[k].data|)
            && Flat(s.log) == Consumed(s.sessions)
            && (forall i, j :: 0 <= i < |s.procs| && 0 <= j < |s.procs| && Holds(s.procs[i]) && Holds(s.procs[j]) ==> i == j)
  {
    InitInv();
    RunInv(INIT, es);
    var s := After(INIT, es);
    hide ValidRun, After;
    InvParts(s);
    FlatIsConsumed(s.log, s.sessions);
  }

  ghost predicate Aligned(log: seq<Handoff>, ss: seq<Session>) {
    && (forall k :: 0 <= k < |ss| ==> ss[k].taken <= |ss[k].data|)
    && (forall k :: 0 <= k < |ss| ==> FlatOf(log, k) == ss[k].data[..ss[k].taken])
    && (forall i :: 0 <= i < |log| ==> log[i].k < |ss|)
    && (forall i, j :: 0 <= i < j < |log| ==> log[i].k <= log[j].k)
  }

  /** A log ordered by session, with the right bytes per session, has the right bytes. */
  lemma {:induction false} FlatIsConsumed(log: seq<Handoff>, ss: seq<Session>)
    requires Aligned(log, ss)
    ensures Flat(log) == Consumed(ss)
    decreases |ss|
  {
    hide FlatOf, Flat, Consumed;
    if |ss| == 0 {
      if |log| > 0 { NoSession(log, ss); }
      EmptyStream();
    } else {
      var k := |ss| - 1;
      var m := SplitLog(log, k);
      AlignedPrefix(log, ss, m);
      FlatIsConsumed(log[..m], ss[..k]);
      FlatSplit(log, m, k);
      ConsumedLast(ss);
    }
  }

  lemma NoSession(log: seq<Handoff>, ss: seq<Session>)
    requires Aligned(log, ss) && |log| > 0
    ensures |ss| > 0
  {
    assert log[0].k < |ss|;
  }

  lemma EmptyStream()
    ensures Flat([]) == [] && Consumed([]) == []
  {
  }

  lemma ConsumedLast(ss: seq<Session>)
    requires |ss| > 0 && forall k :: 0 <= k < |ss| ==> ss[k].taken <= |ss[k].data|
    ensures Consumed(ss) == Consumed(ss[..|ss| - 1]) + ss[|ss| - 1].data[..ss[|ss| - 1].taken]
  {
  }

  lemma AlignedPrefix(log: seq<Handoff>, ss: seq<Session>, m: nat)
    requires Aligned(log, ss) && |ss| > 0 && m <= |log|
    requires forall i :: 0 <= i < m ==> log[i].k < |ss| - 1
    requires forall i :: m <= i < |log| ==> log[i].k == |ss| - 1
    ensures Aligned(log[..m], ss[..|ss| - 1])
  {
    var k := |ss| - 1;
    forall j | 0 <= j < k
      ensures FlatOf(log[..m], j) == ss[..k][j].data[..ss[..k][j].taken]
    {
      FlatOfPrefix(log, m, k, j);
    }
  }

  /** Where the handoffs of the last session begin. */
  lemma {:induction false} SplitLog(log: seq<Handoff>, k: nat) returns (m: nat)
    requires forall i :: 0 <= i < |log| ==> log[i].k <= k
    requires forall i, j :: 0 <= i < j < |log| ==> log[i].k <= log[j].k
    ensures m <= |log|
    ensures forall i :: 0 <= i < m ==> log[i].k < k
    ensures forall i :: m <= i < |log| ==> log[i].k == k
  {
    m := |log|;
    while m > 0 && log[m - 1].k == k
      invariant m <= |log|
      invariant forall i :: m <= i < |log| ==> log[i].k == k
    {
      m := m - 1;
    }
  }

  lemma {:induction false} FlatOfPrefix(log: seq<Handoff>, m: nat, k: nat, j: nat)
    requires m <= |log| && j != k
    requires forall i :: m <= i < |log| ==> log[i].k == k
    ensures FlatOf(log[..m], j) == FlatOf(log, j)
  {
    if m < |log| {
      FlatOfPrefix(log[..|log| - 1], m, k, j);
      assert log[..|log| - 1][..m] == log[..m];
    } else {
      assert log[..m] == log;
    }
  }

  lemma {:induction false} FlatSplit(log: seq<Handoff>, m: nat, k: nat)
    requires m <= |log|
    requires forall i :: 0 <= i < m ==> log[i].k < k
    requires forall i :: m <= i < |log| ==> log[i].k == k
    ensures Flat(log) == Flat(log[..m]) + FlatOf(log, k)
  {
    if m < |log| {
      var init, last := log[..|log| - 1], log[|log| - 1];
      FlatSplit(init, m, k);
      assert init[..m] == log[..m];
      assert Flat(log) == Flat(init) + last.chunk && FlatOf(log, k) == FlatOf(init, k) + last.chunk;
      hide Flat, FlatOf;
      assert (Flat(log[..m]) + FlatOf(init, k)) + last.chunk == Flat(log[..m]) + (FlatOf(init, k) + last.chunk);
    } else {
      FlatOfNew(log, k);
      hide Flat, FlatOf;
      assert log[..m] == log;
      assert Flat(log) + [] == Flat(log);
    }
  }

  /** Each finished Write(data) returned the number n of bytes that readers received from
      it, exactly data[..n], and n < len(data) only with an error; a Write that never took
      the lock delivered nothing. */
  lemma WriteResult(es: seq<Step>, i: nat)
    requires ValidRun(INIT, es)
    requires In(After(INIT, es), i) && After(INIT, es).procs[i].WriteDone?
    ensures var s := After(INIT, es);
            var p := s.procs[i];
            && p.n <= |p.data| && (p.err.None? ==> p.n == |p.data|)
            && (p.s.Some? ==> FlatOf(s.log, p.s.value) == p.data[..p.n])
            && (p.s.None? ==> p.n == 0 && forall k :: 0 <= k < |s.sessions| ==> s.sessions[k].writer != i)
  {
    InitInv();
    RunInv(INIT, es);
    var s := After(INIT, es);
    hide ValidRun, After;
    InvParts(s);
    assert ResultInv(s, i);
    forall k | 0 <= k < |s.sessions| && s.procs[i].s.None?
      ensures s.sessions[k].writer != i
    {
      assert WriterAt(s, k);
    }
  }

  /** Each finished Read without error returned exactly the bytes of one handoff, and
      every handoff goes to a different Read that returns it (or is about to). */
  lemma ReadResult(es: seq<Step>)
    requires ValidRun(INIT, es)
    ensures var s := After(INIT, es);
            && (forall i :: 0 <= i < |s.procs| && s.procs[i].ReadDone? && s.procs[i].err.None? ==>
                  exists j :: 0 <= j < |s.log| && s.log[j].reader == i && s.log[j].chunk == s.procs[i].chunk)
            && (forall i, j :: 0 <= i < j < |s.log| ==> s.log[i].reader != s.log[j].reader)
  {
    InitInv();
    RunInv(INIT, es);
    var s := After(INIT, es);
    hide ValidRun, After;
    InvParts(s);
    forall i | 0 <= i < |s.procs| && s.procs[i].ReadDone? && s.procs[i].err.None?
      ensures exists j :: 0 <= j < |s.log| && s.log[j].reader == i && s.log[j].chunk == s.procs[i].chunk
    {
      assert ResultInv(s, i);
    }
  }

  /** No handoff gets stuck: a reader owes an acknowledgement if and only if the lock
      holder awaits one, and then that rendezvous can happen, without the slice b[nw:]
      going out of range. */
  lemma HandoffNeverStuck(es: seq<Step>)
    requires ValidRun(INIT, es)
    ensures var s := After(INIT, es);
            && (forall r :: 0 <= r < |s.procs| && s.procs[r].ReadAck? ==> s.lock.Some? && Enabled(s, Ack(r, s.lock.value)))
            && (forall w :: 0 <= w < |s.procs| && s.procs[w].WriteAwait? ==>
                  s.lock == Some(w) && exists r :: Enabled(s, Ack(r, w)))
            && (forall r, w :: 0 <= r < |s.procs| && 0 <= w < |s.procs| && s.procs[r].ReadAck? && s.procs[w].WriteAwait? ==>
                  Enabled(s, Ack(r, w)))
  {
    InitInv();
    RunInv(INIT, es);
    var s := After(INIT, es);
    hide ValidRun, After;
    InvParts(s);
    forall r | 0 <= r < |s.procs| && s.procs[r].ReadAck?
      ensures s.lock.Some? && Enabled(s, Ack(r, s.lock.value))
    {
      assert HolderInv(s, s.lock.value);
    }
    forall w | 0 <= w < |s.procs| && s.procs[w].WriteAwait?
      ensures s.lock == Some(w) && exists r :: Enabled(s, Ack(r, w))
    {
      assert Holds(s.procs[w]);
      var r := s.log[|s.log| - 1].reader;
      assert s.procs[r].ReadAck?;
      assert Enabled(s, Ack(r, w));
    }
  }

  /** The done channel is closed at most once, the first error stored on each side is
      kept, errors are returned only after closing, and a Read fails with the error left
      by the write side whenever the read side was never closed (and symmetrically). */
  lemma CloseResult(es: seq<Step>)
    requires ValidRun(INIT, es)
    ensures var s := After(INIT, es);
            && s.closes <= 1 && (s.closes == 1 <==> s.done)
            && (forall i :: 0 <= i < |s.procs| ==> ErrorInv(s, i))
            && (forall i :: i in s.late ==> In(s, i) && NoTransfer(s.procs[i]))
  {
    InitInv();
    RunInv(INIT, es);
    hide ValidRun, After;
    InvParts(After(INIT, es));
  }

  lemma ErrorsKept(s: State, e: Step)
    requires Enabled(s, e)
    ensures var s' := Apply(s, e);
            && (s.rerr.Some? ==> s'.rerr == s.rerr) && (s.werr.Some? ==> s'.werr == s.werr)
            && (s.done ==> s'.done)
  {
  }

  // ----- every call returns -----

  /** How far a call is from returning; a rendezvous is paid for by the reader. */
  function Rank(p: Proc): nat {
    match p
    case ReadStart(_) => 5 case ReadWait(_) => 4 case ReadAck(_) => 3
    case ReadErr1 => 2 case ReadErr2(_) => 1 case ReadDone(_, _) => 0
    case WriteStart(_) => 5 case WriteLock(_) => 4
    case WriteLoop(_, _, _, _, _) => 3 case WriteAwait(_, _, _, _) => 3
    case WriteErr1(_, _, _) => 2 case WriteErr2(_, _, _, _) => 1 case WriteDone(_, _, _, _) => 0
    case CloseStore(_, _) => 2 case CloseOnce(_) => 1 case CloseDone => 0
  }

  function Work(ps: seq<Proc>): nat {
    if |ps| == 0 then 0 else Rank(ps[0]) + Work(ps[1..])
  }

  lemma {:induction false} WorkUpdate(ps: seq<Proc>, i: nat, p: Proc)
    requires i < |ps|
    ensures Work(ps[i := p]) == Work(ps) - Rank(ps[i]) + Rank(p)
  {
    hide Rank;
    if i == 0 {
      assert ps[i := p][1..] == ps[1..];
    } else {
      WorkUpdate(ps[1..], i - 1, p);
      assert ps[i := p][1..] == ps[1..][i - 1 := p];
    }
  }

  /** Every step of a call already in flight uses up work, so without new calls every run
      comes to an end. */
  lemma StepWorks(s: State, e: Step)
    requires Enabled(s, e) && !e.Call?
    ensures Work(Apply(s, e).procs) < Work(s.procs)
  {
    hide Work;
    if e.Hand? {
      var p := s.procs[e.w];
      var q := WriteAwait(p.data, p.b, p.n, p.k);
      WorkUpdate(s.procs, e.w, q);
      WorkUpdate(s.procs[e.w := q], e.r, Apply(s, e).procs[e.r]);
    } else if e.Ack? {
      var p, nr := s.procs[e.w], |s.procs[e.r].chunk|;
      var q := WriteLoop(p.data, p.b[nr..], p.n + nr, false, p.k);
      WorkUpdate(s.procs, e.w, q);
      WorkUpdate(s.procs[e.w := q], e.r, Apply(s, e).procs[e.r]);
    } else {
      ActorMoves(s, e);
      WorkUpdate(s.procs, Actor(e), Apply(s, e).procs[Actor(e)]);
    }
  }

  /** Steps other than the rendezvous move one call, towards its return. */
  lemma ActorMoves(s: State, e: Step)
    requires Enabled(s, e) && !e.Call? && !e.Hand? && !e.Ack?
    ensures var i, s' := Actor(e), Apply(s, e);
            && In(s, i) && |s'.procs| == |s.procs| && s'.procs == s.procs[i := s'.procs[i]]
            && Rank(s'.procs[i]) < Rank(s.procs[i])
  {
  }

  function Actor(e: Step): nat
    requires !e.Call? && !e.Hand? && !e.Ack?
  {
    match e
    case ReadSelect(r) => r case ReadAbort(r) => r case ReadLoadR(r) => r case ReadLoadW(r) => r
    case WriteSelect(w) => w case Lock(w) => w case WriteFinish(w) => w case WriteAbort(w) => w
    case WriteLoadW(w) => w case WriteLoadR(w) => w
    case Store(c) => c case Once(c) => c
  }

  predicate Finished(p: Proc) { p.ReadDone? || p.WriteDone? || p.CloseDone? }

  /** Once the pipe is closed, no call can block for ever: while any call is unfinished,
      some call in flight can take a step. */
  lemma ClosedMeansProgress(es: seq<Step>, i: nat)
    requires ValidRun(INIT, es)
    requires var s := After(INIT, es); s.done && In(s, i) && !Finished(s.procs[i])
    ensures exists e: Step :: !e.Call? && Enabled(After(INIT, es), e)
  {
    HandoffNeverStuck(es);
    InitInv();
    RunInv(INIT, es);
    var s := After(INIT, es);
    hide ValidRun, After;
    InvParts(s);
    hide Inv, HoldersInv, PairInv, SessionInv, ResultsInv, ReaderInv, WriterInv, CloseInv, LateInv;
    CallMoves(s, i);
  }

  lemma CallMoves(s: State, i: nat)
    requires LockInv(s) && s.done && In(s, i) && !Finished(s.procs[i])
    requires forall r :: 0 <= r < |s.procs| && s.procs[r].ReadAck? ==> s.lock.Some? && Enabled(s, Ack(r, s.lock.value))
    requires forall w :: 0 <= w < |s.procs| && s.procs[w].WriteAwait? ==> exists r :: Enabled(s, Ack(r, w))
    ensures exists e: Step :: !e.Call? && Enabled(s, e)
  {
    var p := s.procs[i];
    match p
    case ReadStart(_) => assert Enabled(s, ReadSelect(i));
    case ReadWait(_) => assert Enabled(s, ReadAbort(i));
    case ReadAck(_) => assert Enabled(s, Ack(i, s.lock.value));
    case ReadErr1 => assert Enabled(s, ReadLoadR(i));
    case ReadErr2(_) => assert Enabled(s, ReadLoadW(i));
    case WriteStart(_) => assert Enabled(s, WriteSelect(i));
    case WriteLock(_) =>
      if s.lock.None? { assert Enabled(s, Lock(i)); } else { HolderMoves(s, s.lock.value); }
    case WriteErr1(_, _, _) => assert Enabled(s, WriteLoadW(i));
    case WriteErr2(_, _, _, _) => assert Enabled(s, WriteLoadR(i));
    case CloseStore(_, _) => assert Enabled(s, Store(i));
    case CloseOnce(_) => assert Enabled(s, Once(i));
    case _ => HolderMoves(s, i);
  }

  lemma HolderMoves(s: State, w: nat)
    requires s.done && In(s, w) && Holds(s.procs[w])
    requires s.procs[w].WriteAwait? ==> exists r :: Enabled(s, Ack(r, w))
    ensures exists e: Step :: !e.Call? && Enabled(s, e)
  {
    var p := s.procs[w];
    if p.WriteLoop? {
      if Selecting(p) { assert Enabled(s, WriteAbort(w)); } else { assert Enabled(s, WriteFinish(w)); }
    } else if p.WriteAwait? {
      var r :| Enabled(s, Ack(r, w));
    } else if p.WriteErr1? {
      assert Enabled(s, WriteLoadW(w));
    } else {
      assert Enabled(s, WriteLoadR(w));
    }
  }
}
