/** The cancellation tree of package context as a transition system: any interleaving of
    context creation, cancel calls and timers. A thread is a stack of activation frames;
    one step runs the top frame up to its next lock operation. A critical section that
    takes no further lock is one step, possible only while its lock is free. */
module ContextTree {

  import opened Basics

  datatype Err = Canceled | DeadlineExceeded

  /** cancelCtx.done: nil, a channel of its own, or the shared closed channel. */
  datatype Chan = NilChan | Open | Closed | SharedClosed

  datatype Timer = NoTimer | Armed | Fired

  /** A cancelCtx, or a timerCtx when timed. The last five fields are history. */
  datatype Node = Node(
    parent: Option<nat>,      // nearest enclosing cancelCtx
    timed: bool,
    creator: nat,             // thread running WithCancel or WithDeadline
    lock: Option<nat>,        // holder of mu
    done: Chan,
    children: set<nat>,
    err: Option<Err>,
    timer: Timer,
    closes: nat,              // times done was closed
    joined: set<nat>,         // every child ever registered
    skipped: bool,            // registration gave way to cancelling at once
    published: bool,          // the constructor has returned
    late: bool,               // the deadline had passed at construction
    returned: bool            // a timerCtx.cancel has returned
  )

  datatype Frame =
    // propagateCancel(parent, c)
    | PropDone(c: nat)        // parent.Done()
    | PropSelect(c: nat)      // is it closed already?
    | PropErr(c: nat)         // parent.Err()
    | PropLookup1(c: nat)     // parentCancelCtx: parent.Done()
    | PropLookup2(c: nat)     // parentCancelCtx: p.done == done
    | PropLock(c: nat)        // p.mu.Lock()
    | PropHeld(c: nat)        // p.err != nil?
    | PropUnlock(c: nat)      // p.mu.Unlock()
    | PropFallback(c: nat)    // the goroutine for foreign parents
    // the rest of WithCancel and WithDeadline
    | AfterProp(c: nat)
    | ArmTimer(c: nat)
    | Publish(c: nat, isLate: bool)
    // c.cancel(rm, err)
    | Cancel(c: nat, rm: bool, why: Option<Err>)        // c.mu.Lock()
    | Close(c: nat, rm: bool, why: Option<Err>)         // err is set; close done
    | Visit(c: nat, rm: bool, why: Option<Err>, todo: set<nat>)   // cancel the children
    | Unlocked(c: nat, rm: bool)                        // children cancelled, mu released
    | Remove1(c: nat)         // removeChild: parent.Done()
    | Remove2(c: nat)         // removeChild: p.done == done
    | Remove3(c: nat)         // removeChild: delete(p.children, c)
    | StopTimer(c: nat)       // the end of timerCtx.cancel

  datatype State = State(nodes: seq<Node>, threads: seq<seq<Frame>>)

  const INIT := State([], [])

  datatype Step =
    | Create(p: Option<nat>, timed: bool)
    | CallCancel(n: nat)
    | Fire(n: nat)
    | Run(t: nat, choice: nat, expired: bool)   // choice: next child; expired: dur <= 0

  // ----- one step -----

  predicate IsClosed(d: Chan) { d == Closed || d == SharedClosed }
  predicate IsOwn(d: Chan) { d == Open || d == Closed }

  predicate IsThread(s: State, t: nat) { t < |s.threads| && |s.threads[t]| > 0 }

  function Top(s: State, t: nat): Frame
    requires IsThread(s, t)
  {
    s.threads[t][|s.threads[t]| - 1]
  }

  predicate NodeIn(s: State, n: nat) { n < |s.nodes| }

  predicate HasParent(s: State, c: nat) {
    NodeIn(s, c) && s.nodes[c].parent.Some? && NodeIn(s, s.nodes[c].parent.value)
  }

  function ParentOf(s: State, c: nat): nat
    requires HasParent(s, c)
  {
    s.nodes[c].parent.value
  }

  /** Frames that work on the parent of their context. */
  predicate OnParent(f: Frame) {
    f.PropDone? || f.PropSelect? || f.PropErr? || f.PropLookup1? || f.PropLookup2? || f.PropLock? || f.PropHeld?
    || f.PropUnlock? || f.PropFallback? || f.Remove2? || f.Remove3?
  }

  /** The lock the frame needs free to take its next step. */
  function Awaits(s: State, f: Frame): Option<nat>
    requires NodeIn(s, f.c) && (OnParent(f) ==> HasParent(s, f.c))
  {
    match f
    case PropDone(c) => Some(ParentOf(s, c))
    case PropErr(c) => Some(ParentOf(s, c))
    case PropLookup1(c) => Some(ParentOf(s, c))
    case PropLookup2(c) => Some(ParentOf(s, c))
    case PropLock(c) => Some(ParentOf(s, c))
    case Remove1(c) => if HasParent(s, c) then Some(ParentOf(s, c)) else None
    case Remove2(c) => Some(ParentOf(s, c))
    case Remove3(c) => Some(ParentOf(s, c))
    case Cancel(c, _, _) => Some(c)
    case ArmTimer(c) => Some(c)
    case StopTimer(c) => if s.nodes[c].timed then Some(c) else None
    case _ => None
  }

  /** The lock held while the frame is on the stack. */
  function Holding(s: State, f: Frame): Option<nat>
    requires NodeIn(s, f.c) && (OnParent(f) ==> HasParent(s, f.c))
  {
    if f.Close? || f.Visit? then Some(f.c)
    else if f.PropHeld? || f.PropUnlock? then Some(ParentOf(s, f.c))
    else None
  }

  predicate WellPlaced(s: State, f: Frame) {
    NodeIn(s, f.c) && (OnParent(f) ==> HasParent(s, f.c))
  }

  predicate LockFree(s: State, f: Frame)
    requires WellPlaced(s, f)
  {
    var a := Awaits(s, f);
    a.Some? ==> NodeIn(s, a.value) && s.nodes[a.value].lock.None?
  }

  /** A cancel with a nil error panics, and the goroutine fallback is not modelled:
      frames that reached either would be stuck. */
  predicate Ready(f: Frame, choice: nat) {
    && !f.PropFallback?
    && ((f.Cancel? || f.Close? || f.Visit?) ==> f.why.Some?)
    && (f.Visit? && f.todo != {} ==> choice in f.todo)
  }

  predicate Enabled(s: State, e: Step) {
    match e
    case Create(p, _) => p.Some? ==> NodeIn(s, p.value) && s.nodes[p.value].published
    case CallCancel(n) => NodeIn(s, n) && s.nodes[n].published
    case Fire(n) => NodeIn(s, n) && s.nodes[n].timer == Armed
    case Run(t, choice, _) =>
      IsThread(s, t) && WellPlaced(s, Top(s, t)) && Ready(Top(s, t), choice) && LockFree(s, Top(s, t))
  }

  /** What running a frame does: the frames that replace it and the one node it updates. */
  datatype Effect = Effect(tops: seq<Frame>, n: nat, node: Node)

  /** cancelCtx.Done creates the channel on first use. */
  function WithDone(node: Node): Node {
    if node.done.NilChan? then node.(done := Open) else node
  }

  function Exec(s: State, t: nat, f: Frame, choice: nat, expired: bool): Effect
    requires WellPlaced(s, f)
  {
    var c := f.c;
    var node := s.nodes[c];
    var p := if HasParent(s, c) then ParentOf(s, c) else c;
    var pn := s.nodes[p];
    match f
    case PropDone(_) => Effect([PropSelect(c)], p, WithDone(pn))
    case PropSelect(_) => Effect([if IsClosed(pn.done) then PropErr(c) else PropLookup1(c)], c, node)
    case PropErr(_) => Effect([AfterProp(c), Cancel(c, false, pn.err)], c, node.(skipped := true))
    case PropLookup1(_) =>
      var pn' := WithDone(pn);
      Effect([if pn'.done.SharedClosed? then PropFallback(c) else PropLookup2(c)], p, pn')
    case PropLookup2(_) => Effect([if IsOwn(pn.done) then PropLock(c) else PropFallback(c)], c, node)
    case PropLock(_) => Effect([PropHeld(c)], p, pn.(lock := Some(t)))
    case PropHeld(_) =>
      if pn.err.Some? then Effect([PropUnlock(c), Cancel(c, false, pn.err)], c, node.(skipped := true))
      else Effect([PropUnlock(c)], p, pn.(children := pn.children + {c}, joined := pn.joined + {c}))
    case PropUnlock(_) => Effect([AfterProp(c)], p, pn.(lock := None))
    case PropFallback(_) => Effect([f], c, node)
    case AfterProp(_) =>
      if !node.timed then Effect([Publish(c, false)], c, node)
      else if expired then Effect([Publish(c, true), Cancel(c, true, Some(DeadlineExceeded))], c, node)
      else Effect([ArmTimer(c)], c, node)
    case ArmTimer(_) =>
      Effect([Publish(c, false)], c, if node.err.None? then node.(timer := Armed) else node)
    case Publish(_, late) => Effect([], c, node.(published := true, late := late))
    case Cancel(_, rm, why) =>
      if node.err.Some? then Effect(if node.timed then [Unlocked(c, rm)] else [], c, node)
      else Effect([Close(c, rm, why)], c, node.(lock := Some(t), err := why))
    case Close(_, rm, why) =>
      Effect([Visit(c, rm, why, node.children)], c,
             node.(done := if node.done.NilChan? then SharedClosed else Closed, closes := node.closes + 1))
    case Visit(_, rm, why, todo) =>
      if todo == {} then Effect([Unlocked(c, rm)], c, node.(children := {}, lock := None))
      else Effect([Visit(c, rm, why, todo - {choice}), Cancel(choice, false, why)], c, node)
    case Unlocked(_, rm) => Effect([if rm then Remove1(c) else StopTimer(c)], c, node)
    case Remove1(_) =>
      if !HasParent(s, c) then Effect([StopTimer(c)], c, node)
      else
        var pn' := WithDone(pn);
        Effect([if pn'.done.SharedClosed? then StopTimer(c) else Remove2(c)], p, pn')
    case Remove2(_) => Effect([if IsOwn(pn.done) then Remove3(c) else StopTimer(c)], c, node)
    case Remove3(_) => Effect([StopTimer(c)], p, pn.(children := pn.children - {c}))
    case StopTimer(_) =>
      Effect([], c, if node.timed then node.(timer := NoTimer, returned := true) else node)
  }

  function NewNode(p: Option<nat>, timed: bool, t: nat): Node {
    Node(p, timed, t, None, NilChan, {}, None, NoTimer, 0, {}, false, false, false, false)
  }

  function Apply(s: State, e: Step): State
    requires Enabled(s, e)
  {
    match e
    case Create(p, timed) =>
      var c := |s.nodes|;
      s.(nodes := s.nodes + [NewNode(p, timed, |s.threads|)],
         threads := s.threads + [[if p.Some? then PropDone(c) else AfterProp(c)]])
    case CallCancel(n) =>
      s.(threads := s.threads + [[Cancel(n, !s.nodes[n].late, Some(Canceled))]])
    case Fire(n) =>
      s.(nodes := s.nodes[n := s.nodes[n].(timer := Fired)],
         threads := s.threads + [[Cancel(n, true, Some(DeadlineExceeded))]])
    case Run(t, choice, expired) =>
      var x := Exec(s, t, Top(s, t), choice, expired);
      State(if x.n < |s.nodes| then s.nodes[x.n := x.node] else s.nodes,
            s.threads[t := s.threads[t][..|s.threads[t]| - 1] + x.tops])
  }

  // ----- vocabulary of the invariant -----

  predicate PreFrame(f: Frame) {
    f.PropDone? || f.PropSelect? || f.PropErr? || f.PropLookup1? || f.PropLookup2? || f.PropLock? || f.PropHeld?
  }

  predicate CreateFrame(f: Frame) {
    PreFrame(f) || f.PropUnlock? || f.PropFallback? || f.AfterProp? || f.ArmTimer? || f.Publish?
  }

  predicate CancelFrame(f: Frame) { !CreateFrame(f) }

  /** A cancel that will take its context out of the parent's children. */
  predicate Removing(f: Frame) {
    ((f.Cancel? || f.Close? || f.Visit? || f.Unlocked?) && f.rm) || f.Remove1? || f.Remove2? || f.Remove3?
  }

  /** A cancel that has passed the point where err is set. */
  predicate Past(f: Frame) { CancelFrame(f) && !f.Cancel? }

  /** The context is still to be registered with its parent, or cancelled instead. */
  predicate Pre(s: State, c: nat) {
    HasParent(s, c) && !s.nodes[c].skipped && c !in s.nodes[ParentOf(s, c)].joined
  }

  predicate FrameAt(s: State, t: nat, i: nat) { t < |s.threads| && i < |s.threads[t]| }

  function At(s: State, t: nat, i: nat): Frame
    requires FrameAt(s, t, i)
  {
    s.threads[t][i]
  }

  ghost predicate HasCancel(s: State, c: nat) {
    exists t, i :: FrameAt(s, t, i) && At(s, t, i).Cancel? && At(s, t, i).c == c
  }

  ghost predicate HasClose(s: State, p: nat) {
    exists t, i :: FrameAt(s, t, i) && At(s, t, i).Close? && At(s, t, i).c == p
  }

  ghost predicate InTodo(s: State, p: nat, c: nat) {
    exists t, i :: FrameAt(s, t, i) && At(s, t, i).Visit? && At(s, t, i).c == p && c in At(s, t, i).todo
  }

  ghost predicate Clearing(s: State, p: nat) {
    exists t, i :: FrameAt(s, t, i) && (At(s, t, i).Close? || At(s, t, i).Visit?) && At(s, t, i).c == p
  }

  ghost predicate Remover(s: State, c: nat) {
    exists t, i :: FrameAt(s, t, i) && At(s, t, i).c == c && Past(At(s, t, i)) && Removing(At(s, t, i))
  }

  // ----- the invariant -----

  ghost predicate NodeInv(s: State, n: nat)
    requires NodeIn(s, n)
  {
    TreeInv(s, n) && FieldsInv(s.nodes[n])
  }

  ghost predicate TreeInv(s: State, n: nat)
    requires NodeIn(s, n)
  {
    var node := s.nodes[n];
    && (node.parent.Some? ==> node.parent.value < n)
    && node.children <= node.joined
    && (forall d :: d in node.joined ==> NodeIn(s, d) && s.nodes[d].parent == Some(n) && !s.nodes[d].skipped)
  }

  ghost predicate FieldsInv(node: Node) {
    && node.closes == (if IsClosed(node.done) then 1 else 0)
    && (IsClosed(node.done) ==> node.err.Some?)
    && (node.late ==> node.err.Some?)
    && (node.timer != NoTimer ==> node.timed)
    && (node.returned ==> node.timed && node.timer == NoTimer && node.err.Some?)
  }

  ghost predicate PreInv(s: State, c: nat) {
    Pre(s, c) ==>
      var n := s.nodes[c];
      && n.creator < |s.threads| && |s.threads[n.creator]| == 1
      && PreFrame(s.threads[n.creator][0]) && s.threads[n.creator][0].c == c
      && n.err.None? && n.timer.NoTimer? && !n.published
  }

  ghost predicate FrameInv(s: State, t: nat, i: nat)
    requires FrameAt(s, t, i)
  {
    var f := At(s, t, i);
    var top := i + 1 == |s.threads[t]|;
    && WellPlaced(s, f) && !f.PropFallback?
    && (CreateFrame(f) ==> i == 0 && s.nodes[f.c].creator == t && !s.nodes[f.c].published)
    && (PreFrame(f) <==> Pre(s, f.c))
    && (PreFrame(f) && !f.PropDone? ==> !s.nodes[ParentOf(s, f.c)].done.NilChan?)
    && (f.PropLookup1? || f.PropLookup2? || f.PropLock? || f.PropHeld? || f.Remove2? || f.Remove3? ==>
          IsOwn(s.nodes[ParentOf(s, f.c)].done))
    && (f.PropErr? ==> s.nodes[ParentOf(s, f.c)].err.Some?)
    && (Past(f) ==> s.nodes[f.c].err.Some?)
    && (f.Cancel? || f.Close? || f.Visit? ==> f.why.Some?)
    && (f.Close? ==> !IsClosed(s.nodes[f.c].done))
    && (f.Visit? ==> IsClosed(s.nodes[f.c].done) && f.todo <= s.nodes[f.c].joined)
    && (var h := Holding(s, f); h.Some? ==> NodeIn(s, h.value) && s.nodes[h.value].lock == Some(t))
    && (f.Cancel? && !f.rm && i == 0 ==> s.nodes[f.c].err.Some?)
    && (f.ArmTimer? || (f.Publish? && f.isLate) ==> s.nodes[f.c].timed)
    && (f.Publish? && f.isLate && top ==> s.nodes[f.c].err.Some?)
    && ((f.AfterProp? || f.PropUnlock?) && !top ==> s.nodes[f.c].skipped)
  }

  /** g is the call that f waits for. */
  predicate LinkOk(s: State, f: Frame, g: Frame) {
    && CancelFrame(g)
    && match f
       case Visit(c, _, _, _) => NodeIn(s, g.c) && s.nodes[g.c].parent == Some(c) && !Removing(g)
       case AfterProp(c) => g.c == c && !Removing(g)
       case PropUnlock(c) => g.c == c && !Removing(g)
       case Publish(c, late) => g.c == c && late && ((g.Cancel? || g.Close? || g.Visit? || g.Unlocked?) ==> g.rm)
       case _ => false
  }

  ghost predicate LinkInv(s: State, t: nat, i: nat)
    requires FrameAt(s, t, i)
  {
    i + 1 < |s.threads[t]| ==> LinkOk(s, At(s, t, i), At(s, t, i + 1))
  }

  ghost predicate LockInv(s: State, n: nat)
    requires NodeIn(s, n)
  {
    s.nodes[n].lock.Some? ==> exists i :: HoldsAt(s, s.nodes[n].lock.value, i, n)
  }

  ghost predicate HoldsAt(s: State, t: nat, i: nat, n: nat) {
    FrameAt(s, t, i) && WellPlaced(s, At(s, t, i)) && Holding(s, At(s, t, i)) == Some(n)
  }

  /** Nobody forgets an uncancelled child: it is still being registered, about to be
      cancelled, listed by a live parent, or listed for the parent's running cancel. */
  ghost predicate ChildInv(s: State, c: nat) {
    HasParent(s, c) && s.nodes[c].err.None? ==>
      var p := ParentOf(s, c);
      || Pre(s, c)
      || HasCancel(s, c)
      || (c in s.nodes[p].children && (s.nodes[p].err.None? || HasClose(s, p)))
      || InTodo(s, p, c)
  }

  /** No cancelled child stays listed: somebody is about to remove it. */
  ghost predicate ListedInv(s: State, c: nat) {
    HasParent(s, c) && s.nodes[c].err.Some? && c in s.nodes[ParentOf(s, c)].children ==>
      Remover(s, c) || Clearing(s, ParentOf(s, c))
  }

  ghost predicate ClearInv(s: State, n: nat)
    requires NodeIn(s, n)
  {
    s.nodes[n].err.Some? && s.nodes[n].children != {} ==> Clearing(s, n)
  }

  ghost predicate NodesInv(s: State) {
    forall n :: NodeIn(s, n) ==> NodeInv(s, n) && LockInv(s, n) && ClearInv(s, n)
  }

  ghost predicate ContextsInv(s: State) {
    forall c :: NodeIn(s, c) ==> PreInv(s, c) && ChildInv(s, c) && ListedInv(s, c)
  }

  ghost predicate FramesInv(s: State) {
    forall t, i :: FrameAt(s, t, i) ==> FrameInv(s, t, i) && LinkInv(s, t, i)
  }

  ghost predicate Inv(s: State) {
    NodesInv(s) && ContextsInv(s) && FramesInv(s)
  }

  // ----- what no step takes back -----

  /** Fields only move forward. */
  predicate Grows(a: Node, b: Node) {
    && b.parent == a.parent && b.timed == a.timed && b.creator == a.creator
    && (a.err.Some? ==> b.err == a.err)
    && (a.done != NilChan ==> b.done != NilChan)
    && (IsOwn(a.done) ==> IsOwn(b.done)) && (IsClosed(a.done) ==> b.done == a.done)
    && a.joined <= b.joined && (a.skipped ==> b.skipped) && (a.published ==> b.published)
  }

  lemma StepGrows(s: State, e: Step, n: nat)
    requires Enabled(s, e) && NodeIn(s, n)
    requires e.Run? ==> !(Top(s, e.t).Close? && IsClosed(s.nodes[Top(s, e.t).c].done))
    ensures NodeIn(Apply(s, e), n) && Grows(s.nodes[n], Apply(s, e).nodes[n])
  {
  }

  /** The frame a Run step executes, its effect, and the state it leaves. */
  ghost predicate Running(s: State, s': State, t: nat, m: nat, f: Frame, x: Effect) {
    && FrameAt(s, t, m) && m + 1 == |s.threads[t]| && f == At(s, t, m) && WellPlaced(s, f)
    && x.n < |s.nodes| && s'.nodes == s.nodes[x.n := x.node]
    && |s'.threads| == |s.threads| && s'.threads[t] == s.threads[t][..m] + x.tops
    && (forall t0 :: 0 <= t0 < |s.threads| && t0 != t ==> s'.threads[t0] == s.threads[t0])
  }

  lemma RunShape(s: State, e: Step)
    requires e.Run? && Enabled(s, e)
    ensures var t := e.t;
            Running(s, Apply(s, e), t, |s.threads[t]| - 1, Top(s, t), Exec(s, t, Top(s, t), e.choice, e.expired))
  {
  }

  /** A frame of the new state is an old one below the top, or one of the replacements. */
  lemma WhichFrame(s: State, s': State, t: nat, m: nat, f: Frame, x: Effect, t0: nat, i0: nat)
    requires Running(s, s', t, m, f, x) && FrameAt(s', t0, i0)
    ensures (FrameAt(s, t0, i0) && !(t0 == t && i0 == m) && At(s', t0, i0) == At(s, t0, i0) && (t0 == t ==> i0 < m))
         || (t0 == t && m <= i0 < m + |x.tops| && At(s', t0, i0) == x.tops[i0 - m])
  {
  }

  lemma KeptFrame(s: State, s': State, t: nat, m: nat, f: Frame, x: Effect, t0: nat, i0: nat)
    requires Running(s, s', t, m, f, x) && FrameAt(s, t0, i0) && !(t0 == t && i0 == m)
    ensures FrameAt(s', t0, i0) && At(s', t0, i0) == At(s, t0, i0)
  {
  }

  lemma NewFrame(s: State, s': State, t: nat, m: nat, f: Frame, x: Effect, j: nat)
    requires Running(s, s', t, m, f, x) && j < |x.tops|
    ensures FrameAt(s', t, m + j) && At(s', t, m + j) == x.tops[j]
  {
  }

  // ----- locks along one stack -----

  /** a is a proper ancestor of c. */
  predicate IsAncestor(s: State, a: nat, c: nat)
    decreases c
  {
    HasParent(s, c) && ParentOf(s, c) < c && (ParentOf(s, c) == a || IsAncestor(s, a, ParentOf(s, c)))
  }

  lemma {:induction false} AncestorLess(s: State, a: nat, c: nat)
    requires IsAncestor(s, a, c)
    ensures a < c
    decreases c
  {
    if ParentOf(s, c) != a { AncestorLess(s, a, ParentOf(s, c)); }
  }

  /** Every lock held below a frame belongs to an ancestor of the frame's context. */
  lemma {:induction false} HeldBelow(s: State, t: nat, i: nat, j: nat, n: nat)
    requires Inv(s) && FrameAt(s, t, j) && i < j && HoldsAt(s, t, i, n)
    ensures CancelFrame(At(s, t, j)) && IsAncestor(s, n, At(s, t, j).c) && !Removing(At(s, t, j))
    decreases j
  {
    hide NodesInv, ContextsInv, Pre;
    assert FrameAt(s, t, j - 1) && LinkInv(s, t, j - 1) && FrameInv(s, t, j - 1) && FrameInv(s, t, j);
    if j > i + 1 {
      HeldBelow(s, t, i, j - 1, n);
    }
    LinkedParent(s, t, j);
  }

  lemma LinkedParent(s: State, t: nat, j: nat)
    requires NodesInv(s) && FrameAt(s, t, j) && j >= 1
    requires LinkInv(s, t, j - 1) && FrameInv(s, t, j - 1) && FrameInv(s, t, j)
    ensures CancelFrame(At(s, t, j))
    ensures At(s, t, j - 1).Visit? ==> HasParent(s, At(s, t, j).c) && ParentOf(s, At(s, t, j).c) == At(s, t, j - 1).c
                                       && At(s, t, j - 1).c < At(s, t, j).c && !Removing(At(s, t, j))
    ensures At(s, t, j - 1).PropUnlock? ==> At(s, t, j).c == At(s, t, j - 1).c && HasParent(s, At(s, t, j).c)
                                            && ParentOf(s, At(s, t, j).c) < At(s, t, j).c && !Removing(At(s, t, j))
    ensures CancelFrame(At(s, t, j - 1)) ==> At(s, t, j - 1).Visit?
    ensures At(s, t, j - 1).Visit? || At(s, t, j - 1).AfterProp? || At(s, t, j - 1).PropUnlock? || At(s, t, j - 1).Publish?
  {
    hide ContextsInv, FramesInv, Pre;
    assert NodeInv(s, At(s, t, j).c);
  }

  /** A lock is held by one frame only. */
  lemma OneHolder(s: State, t: nat, i: nat, t': nat, i': nat, n: nat)
    requires Inv(s) && HoldsAt(s, t, i, n) && HoldsAt(s, t', i', n)
    ensures t == t' && i == i'
  {
    assert FrameInv(s, t, i) && FrameInv(s, t', i');
    hide NodesInv, ContextsInv;
    if i < i' {
      HeldBelow(s, t, i, i', n);
      AncestorLess(s, n, At(s, t, i').c);
    } else if i' < i {
      HeldBelow(s, t, i', i, n);
      AncestorLess(s, n, At(s, t, i).c);
    }
  }

  // ----- a Run step keeps each part of the invariant -----

  ghost predicate RunCtx(s: State, s': State, t: nat, m: nat, f: Frame, x: Effect, choice: nat, expired: bool) {
    && Inv(s) && Running(s, s', t, m, f, x) && x == Exec(s, t, f, choice, expired)
    && Ready(f, choice) && LockFree(s, f)
  }

  lemma RunGrows(s: State, s': State, t: nat, m: nat, f: Frame, x: Effect, choice: nat, expired: bool, n: nat)
    requires RunCtx(s, s', t, m, f, x, choice, expired) && NodeIn(s, n)
    ensures NodeIn(s', n) && Grows(s.nodes[n], s'.nodes[n])
  {
    assert FrameInv(s, t, m);
    hide NodesInv, ContextsInv, FramesInv, LockFree, Pre;
  }

  /** The parent relation is fixed. */
  lemma SameParents(s: State, s': State, c: nat)
    requires |s'.nodes| == |s.nodes| && forall n :: 0 <= n < |s.nodes| ==> s'.nodes[n].parent == s.nodes[n].parent
    ensures HasParent(s', c) <==> HasParent(s, c)
    ensures HasParent(s, c) ==> ParentOf(s', c) == ParentOf(s, c)
  {
  }

  lemma RunParents(s: State, s': State, t: nat, m: nat, f: Frame, x: Effect, choice: nat, expired: bool)
    requires RunCtx(s, s', t, m, f, x, choice, expired)
    ensures |s'.nodes| == |s.nodes| && forall n :: 0 <= n < |s.nodes| ==> s'.nodes[n].parent == s.nodes[n].parent
  {
    forall n | 0 <= n < |s.nodes|
      ensures s'.nodes[n].parent == s.nodes[n].parent
    {
      RunGrows(s, s', t, m, f, x, choice, expired, n);
    }
  }

  /** Only the creating thread ends the registration phase of a context, at its first frame. */
  lemma RunPre(s: State, s': State, t: nat, m: nat, f: Frame, x: Effect, choice: nat, expired: bool, c: nat)
    requires RunCtx(s, s', t, m, f, x, choice, expired) && NodeIn(s, c)
    ensures Pre(s', c) ==> Pre(s, c)
    ensures Pre(s, c) && !Pre(s', c) ==> PreFrame(f) && f.c == c && m == 0 && t == s.nodes[c].creator
  {
    RunParents(s, s', t, m, f, x, choice, expired);
    SameParents(s, s', c);
    assert FrameInv(s, t, m) && PreInv(s, c);
    RunGrows(s, s', t, m, f, x, choice, expired, c);
    if HasParent(s, c) { RunGrows(s, s', t, m, f, x, choice, expired, ParentOf(s, c)); }
    hide NodesInv, ContextsInv, FramesInv, LockFree;
  }

  lemma FrameKept(s: State, s': State, t: nat, m: nat, f: Frame, x: Effect, choice: nat, expired: bool, t0: nat, i0: nat)
    requires RunCtx(s, s', t, m, f, x, choice, expired)
    requires FrameAt(s, t0, i0) && !(t0 == t && i0 == m)
    ensures FrameAt(s', t0, i0) && FrameInv(s', t0, i0)
  {
    KeptFrame(s, s', t, m, f, x, t0, i0);
    var g := At(s, t0, i0);
    assert FrameInv(s, t0, i0) && FrameInv(s, t, m);
    RunParents(s, s', t, m, f, x, choice, expired);
    SameParents(s, s', g.c);
    RunGrows(s, s', t, m, f, x, choice, expired, g.c);
    RunPre(s, s', t, m, f, x, choice, expired, g.c);
    if HasParent(s, g.c) { RunGrows(s, s', t, m, f, x, choice, expired, ParentOf(s, g.c)); }
    if CreateFrame(g) { KeptPublished(s, s', t, m, f, x, choice, expired, t0, i0); }
    KeptLock(s, s', t, m, f, x, choice, expired, t0, i0);
    if g.Close? { KeptClose(s, s', t, m, f, x, choice, expired, t0, i0); }
    KeptTop(s, s', t, m, f, x, choice, expired, t0, i0);
    PreIff(s, s', t, m, f, x, choice, expired, t0, i0);
    hide *;
    FrameAgain(s, s', t0, i0);
  }

  lemma PreIff(s: State, s': State, t: nat, m: nat, f: Frame, x: Effect, choice: nat, expired: bool, t0: nat, i0: nat)
    requires RunCtx(s, s', t, m, f, x, choice, expired)
    requires FrameAt(s, t0, i0) && !(t0 == t && i0 == m)
    ensures PreFrame(At(s, t0, i0)) <==> Pre(s', At(s, t0, i0).c)
  {
    var g := At(s, t0, i0);
    assert FrameInv(s, t0, i0) && FrameInv(s, t, m);
    RunPre(s, s', t, m, f, x, choice, expired, g.c);
    hide Inv, Running, Exec, Pre, LockFree, Ready;
    if PreFrame(g) && !Pre(s', g.c) { CreatorOnly(s, t0, i0); }
  }

  lemma CreatorOnly(s: State, t: nat, i: nat)
    requires FrameAt(s, t, i) && FrameInv(s, t, i) && CreateFrame(At(s, t, i))
    ensures i == 0 && s.nodes[At(s, t, i).c].creator == t
  {
  }

  /** A frame that nothing relevant happened to is still in order. */
  lemma FrameAgain(s: State, s': State, t0: nat, i0: nat)
    requires FrameAt(s, t0, i0) && FrameInv(s, t0, i0) && FrameAt(s', t0, i0) && At(s', t0, i0) == At(s, t0, i0)
    requires var g := At(s, t0, i0);
             && NodeIn(s', g.c) && Grows(s.nodes[g.c], s'.nodes[g.c])
             && (HasParent(s', g.c) <==> HasParent(s, g.c))
             && (HasParent(s, g.c) ==> ParentOf(s', g.c) == ParentOf(s, g.c)
                                       && Grows(s.nodes[ParentOf(s, g.c)], s'.nodes[ParentOf(s, g.c)]))
             && (PreFrame(g) <==> Pre(s', g.c))
             && (CreateFrame(g) ==> !s'.nodes[g.c].published)
             && (var h := Holding(s, g); h.Some? ==> NodeIn(s', h.value) && s'.nodes[h.value].lock == Some(t0))
             && (g.Close? ==> !IsClosed(s'.nodes[g.c].done))
             && (var top := i0 + 1 == |s'.threads[t0]|;
                 && (g.Publish? && g.isLate && top ==> s'.nodes[g.c].err.Some?)
                 && ((g.AfterProp? || g.PropUnlock?) && !top ==> s'.nodes[g.c].skipped)
                 && (g.Cancel? && !g.rm && i0 == 0 ==> s'.nodes[g.c].err.Some?))
    ensures FrameInv(s', t0, i0)
  {
    hide Pre;
  }

  lemma KeptPublished(s: State, s': State, t: nat, m: nat, f: Frame, x: Effect, choice: nat, expired: bool, t0: nat, i0: nat)
    requires RunCtx(s, s', t, m, f, x, choice, expired)
    requires FrameAt(s, t0, i0) && !(t0 == t && i0 == m) && CreateFrame(At(s, t0, i0))
    ensures var c := At(s, t0, i0).c; NodeIn(s', c) && !s'.nodes[c].published
  {
    assert FrameInv(s, t0, i0) && FrameInv(s, t, m);
    hide NodesInv, ContextsInv, FramesInv, LockFree, Pre;
  }

  lemma KeptLock(s: State, s': State, t: nat, m: nat, f: Frame, x: Effect, choice: nat, expired: bool, t0: nat, i0: nat)
    requires RunCtx(s, s', t, m, f, x, choice, expired)
    requires FrameAt(s, t0, i0) && !(t0 == t && i0 == m) && WellPlaced(s, At(s, t0, i0))
    ensures var h := Holding(s, At(s, t0, i0)); h.Some? ==> NodeIn(s', h.value) && s'.nodes[h.value].lock == Some(t0)
  {
    var h := Holding(s, At(s, t0, i0));
    if h.Some? {
      assert FrameInv(s, t0, i0) && FrameInv(s, t, m);
      if HoldsAt(s, t, m, h.value) { OneHolder(s, t0, i0, t, m, h.value); }
      hide Inv, Pre;
    }
  }

  lemma KeptClose(s: State, s': State, t: nat, m: nat, f: Frame, x: Effect, choice: nat, expired: bool, t0: nat, i0: nat)
    requires RunCtx(s, s', t, m, f, x, choice, expired)
    requires FrameAt(s, t0, i0) && !(t0 == t && i0 == m) && At(s, t0, i0).Close?
    ensures var c := At(s, t0, i0).c; NodeIn(s', c) && !IsClosed(s'.nodes[c].done)
  {
    assert FrameInv(s, t0, i0) && FrameInv(s, t, m);
    var c := At(s, t0, i0).c;
    if f.Close? && f.c == c { OneHolder(s, t0, i0, t, m, c); }
    hide Inv, Pre;
  }

  /** Facts about frames that wait, or have just been returned to. */
  lemma KeptTop(s: State, s': State, t: nat, m: nat, f: Frame, x: Effect, choice: nat, expired: bool, t0: nat, i0: nat)
    requires RunCtx(s, s', t, m, f, x, choice, expired)
    requires FrameAt(s, t0, i0) && !(t0 == t && i0 == m) && FrameAt(s', t0, i0)
    ensures var g, top := At(s, t0, i0), i0 + 1 == |s'.threads[t0]|;
            && NodeIn(s', g.c)
            && (g.Publish? && g.isLate && top ==> s'.nodes[g.c].err.Some?)
            && ((g.AfterProp? || g.PropUnlock?) && !top ==> s'.nodes[g.c].skipped)
            && (g.Cancel? && !g.rm && i0 == 0 ==> s'.nodes[g.c].err.Some?)
  {
    var g := At(s, t0, i0);
    assert FrameInv(s, t0, i0) && FrameInv(s, t, m) && LinkInv(s, t0, i0);
    RunGrows(s, s', t, m, f, x, choice, expired, g.c);
    hide Inv, Pre, LockFree, Grows;
  }

  lemma RunNode(s: State, s': State, t: nat, m: nat, f: Frame, x: Effect, choice: nat, expired: bool, n: nat)
    requires RunCtx(s, s', t, m, f, x, choice, expired) && NodeIn(s, n)
    ensures NodeInv(s', n)
  {
    assert NodeInv(s, n) && FrameInv(s, t, m);
    RunTree(s, s', t, m, f, x, choice, expired, n);
    RunFields(s, s', t, m, f, x, choice, expired, n);
    hide *;
    NodeParts(s', n);
  }

  lemma NodeParts(s: State, n: nat)
    requires NodeIn(s, n) && TreeInv(s, n) && FieldsInv(s.nodes[n])
    ensures NodeInv(s, n)
  {
  }

  lemma RunFields(s: State, s': State, t: nat, m: nat, f: Frame, x: Effect, choice: nat, expired: bool, n: nat)
    requires RunCtx(s, s', t, m, f, x, choice, expired) && NodeIn(s, n)
    ensures NodeIn(s', n) && FieldsInv(s'.nodes[n])
  {
    assert NodeInv(s, n) && FrameInv(s, t, m);
    hide Inv, LockFree, Pre, TreeInv;
    if n == x.n { } else { hide Exec; }
  }

  lemma RunTree(s: State, s': State, t: nat, m: nat, f: Frame, x: Effect, choice: nat, expired: bool, n: nat)
    requires RunCtx(s, s', t, m, f, x, choice, expired) && NodeIn(s, n)
    ensures NodeIn(s', n) && TreeInv(s', n)
  {
    assert NodeInv(s, n) && FrameInv(s, t, m);
    RunParents(s, s', t, m, f, x, choice, expired);
    RunJoined(s, s', t, m, f, x, choice, expired, n);
    forall d | d in s'.nodes[n].joined
      ensures NodeIn(s', d) && s'.nodes[d].parent == Some(n) && !s'.nodes[d].skipped
    {
      RunMember(s, s', t, m, f, x, choice, expired, n, d);
    }
    hide Inv, LockFree, Exec, Running, Pre;
  }

  lemma RunJoined(s: State, s': State, t: nat, m: nat, f: Frame, x: Effect, choice: nat, expired: bool, n: nat)
    requires RunCtx(s, s', t, m, f, x, choice, expired) && NodeIn(s, n)
    ensures NodeIn(s', n) && s'.nodes[n].children <= s'.nodes[n].joined
  {
    assert NodeInv(s, n);
    hide Inv, LockFree, Pre, FieldsInv;
  }

  lemma RunMember(s: State, s': State, t: nat, m: nat, f: Frame, x: Effect, choice: nat, expired: bool, n: nat, d: nat)
    requires RunCtx(s, s', t, m, f, x, choice, expired) && NodeIn(s, n) && NodeIn(s', n) && d in s'.nodes[n].joined
    ensures NodeIn(s', d) && s'.nodes[d].parent == Some(n) && !s'.nodes[d].skipped
  {
    assert NodeInv(s, n) && FrameInv(s, t, m);
    hide Inv, LockFree, FieldsInv;
  }

  lemma FrameNew(s: State, s': State, t: nat, m: nat, f: Frame, x: Effect, choice: nat, expired: bool, j: nat)
    requires RunCtx(s, s', t, m, f, x, choice, expired) && j < |x.tops|
    ensures FrameAt(s', t, m + j) && FrameInv(s', t, m + j)
  {
    NewFrame(s, s', t, m, f, x, j);
    assert FrameInv(s, t, m) && NodeInv(s, f.c) && PreInv(s, f.c);
    if HasParent(s, f.c) { assert NodeInv(s, ParentOf(s, f.c)); }
    RunParents(s, s', t, m, f, x, choice, expired);
    if f.PropDone? || f.PropSelect? || f.PropLookup1? || f.PropLookup2? {
      FrameNewLook(s, s', t, m, f, x, choice, expired, j);
    } else if f.PropErr? || f.PropHeld? || f.PropFallback? {
      FrameNewGiveUp(s, s', t, m, f, x, choice, expired, j);
    } else if f.PropLock? || f.PropUnlock? {
      FrameNewLock(s, s', t, m, f, x, choice, expired, j);
    } else if f.Remove1? || f.Remove2? || f.Remove3? {
      FrameNewRemove(s, s', t, m, f, x, choice, expired, j);
    } else if CreateFrame(f) {
      FrameNewCreate(s, s', t, m, f, x, choice, expired, j);
    } else if f.Visit? {
      FrameNewVisit(s, s', t, m, f, x, choice, expired, j);
    } else {
      FrameNewCancel(s, s', t, m, f, x, choice, expired, j);
    }
  }

  lemma FrameNewLook(s: State, s': State, t: nat, m: nat, f: Frame, x: Effect, choice: nat, expired: bool, j: nat)
    requires RunCtx(s, s', t, m, f, x, choice, expired) && j < |x.tops|
    requires FrameAt(s', t, m + j) && At(s', t, m + j) == x.tops[j]
    requires FrameInv(s, t, m) && NodeInv(s, f.c) && (HasParent(s, f.c) ==> NodeInv(s, ParentOf(s, f.c))) && PreInv(s, f.c)
    requires f.PropDone? || f.PropSelect? || f.PropLookup1? || f.PropLookup2?
    ensures FrameInv(s', t, m + j)
  {
    RunParents(s, s', t, m, f, x, choice, expired);
    hide Inv;
  }

  lemma FrameNewGiveUp(s: State, s': State, t: nat, m: nat, f: Frame, x: Effect, choice: nat, expired: bool, j: nat)
    requires RunCtx(s, s', t, m, f, x, choice, expired) && j < |x.tops|
    requires FrameAt(s', t, m + j) && At(s', t, m + j) == x.tops[j]
    requires FrameInv(s, t, m) && NodeInv(s, f.c) && (HasParent(s, f.c) ==> NodeInv(s, ParentOf(s, f.c))) && PreInv(s, f.c)
    requires f.PropErr? || f.PropHeld? || f.PropFallback?
    ensures FrameInv(s', t, m + j)
  {
    RunParents(s, s', t, m, f, x, choice, expired);
    hide Inv;
  }

  lemma FrameNewLock(s: State, s': State, t: nat, m: nat, f: Frame, x: Effect, choice: nat, expired: bool, j: nat)
    requires RunCtx(s, s', t, m, f, x, choice, expired) && j < |x.tops|
    requires FrameAt(s', t, m + j) && At(s', t, m + j) == x.tops[j]
    requires FrameInv(s, t, m) && NodeInv(s, f.c) && (HasParent(s, f.c) ==> NodeInv(s, ParentOf(s, f.c))) && PreInv(s, f.c)
    requires f.PropLock? || f.PropUnlock?
    ensures FrameInv(s', t, m + j)
  {
    RunParents(s, s', t, m, f, x, choice, expired);
    hide Inv;
  }

  lemma FrameNewRemove(s: State, s': State, t: nat, m: nat, f: Frame, x: Effect, choice: nat, expired: bool, j: nat)
    requires RunCtx(s, s', t, m, f, x, choice, expired) && j < |x.tops|
    requires FrameAt(s', t, m + j) && At(s', t, m + j) == x.tops[j]
    requires FrameInv(s, t, m) && NodeInv(s, f.c) && (HasParent(s, f.c) ==> NodeInv(s, ParentOf(s, f.c))) && PreInv(s, f.c)
    requires f.Remove1? || f.Remove2? || f.Remove3?
    ensures FrameInv(s', t, m + j)
  {
    RunParents(s, s', t, m, f, x, choice, expired);
    hide Inv;
  }

  lemma FrameNewCreate(s: State, s': State, t: nat, m: nat, f: Frame, x: Effect, choice: nat, expired: bool, j: nat)
    requires RunCtx(s, s', t, m, f, x, choice, expired) && j < |x.tops| && !OnParent(f) && CreateFrame(f)
    requires FrameAt(s', t, m + j) && At(s', t, m + j) == x.tops[j]
    requires FrameInv(s, t, m) && NodeInv(s, f.c)
    ensures FrameInv(s', t, m + j)
  {
    RunParents(s, s', t, m, f, x, choice, expired);
    hide Inv;
  }

  lemma FrameNewVisit(s: State, s': State, t: nat, m: nat, f: Frame, x: Effect, choice: nat, expired: bool, j: nat)
    requires RunCtx(s, s', t, m, f, x, choice, expired) && j < |x.tops| && f.Visit?
    requires FrameAt(s', t, m + j) && At(s', t, m + j) == x.tops[j]
    requires FrameInv(s, t, m) && NodeInv(s, f.c)
    ensures FrameInv(s', t, m + j)
  {
    RunParents(s, s', t, m, f, x, choice, expired);
    hide Inv;
  }

  lemma FrameNewCancel(s: State, s': State, t: nat, m: nat, f: Frame, x: Effect, choice: nat, expired: bool, j: nat)
    requires RunCtx(s, s', t, m, f, x, choice, expired) && j < |x.tops| && CancelFrame(f) && !OnParent(f) && !f.Remove1?
    requires !f.Visit?
    requires FrameAt(s', t, m + j) && At(s', t, m + j) == x.tops[j]
    requires FrameInv(s, t, m) && NodeInv(s, f.c)
    ensures FrameInv(s', t, m + j)
  {
    RunParents(s, s', t, m, f, x, choice, expired);
    hide Inv;
  }

  lemma RunFrame(s: State, s': State, t: nat, m: nat, f: Frame, x: Effect, choice: nat, expired: bool, t0: nat, i0: nat)
    requires RunCtx(s, s', t, m, f, x, choice, expired) && FrameAt(s', t0, i0)
    ensures FrameInv(s', t0, i0)
  {
    hide FrameInv, Inv, Exec, Pre, LockFree;
    WhichFrame(s, s', t, m, f, x, t0, i0);
    if FrameAt(s, t0, i0) && !(t0 == t && i0 == m) && At(s', t0, i0) == At(s, t0, i0) && (t0 == t ==> i0 < m) {
      FrameKept(s, s', t, m, f, x, choice, expired, t0, i0);
    } else {
      FrameNew(s, s', t, m, f, x, choice, expired, i0 - m);
    }
  }

  lemma RunLink(s: State, s': State, t: nat, m: nat, f: Frame, x: Effect, choice: nat, expired: bool, t0: nat, i0: nat)
    requires RunCtx(s, s', t, m, f, x, choice, expired) && FrameAt(s', t0, i0)
    ensures LinkInv(s', t0, i0)
  {
    hide FrameInv, Pre, LockFree;
    RunParents(s, s', t, m, f, x, choice, expired);
    WhichFrame(s, s', t, m, f, x, t0, i0);
    if FrameAt(s, t0, i0) { assert LinkInv(s, t0, i0); }
    assert FrameInv(s, t, m);
    if t0 == t && i0 + 1 == m && i0 + 1 < |s'.threads[t0]| {
      LinkReplaced(s, s', t, m, f, x, choice, expired);
    } else if t0 == t && i0 >= m {
      LinkNew(s, s', t, m, f, x, choice, expired, i0);
    } else if i0 + 1 < |s'.threads[t0]| {
      hide Inv, Exec;
    }
  }

  lemma LinkReplaced(s: State, s': State, t: nat, m: nat, f: Frame, x: Effect, choice: nat, expired: bool)
    requires RunCtx(s, s', t, m, f, x, choice, expired) && m >= 1 && FrameAt(s', t, m)
    ensures FrameAt(s', t, m - 1) && LinkInv(s', t, m - 1)
  {
    assert FrameInv(s, t, m) && FrameAt(s, t, m - 1) && LinkInv(s, t, m - 1);
    RunParents(s, s', t, m, f, x, choice, expired);
    KeptFrame(s, s', t, m, f, x, t, m - 1);
    NewFrame(s, s', t, m, f, x, 0);
    CallGoesOn(s, t, f, choice, expired);
    hide Inv, Pre, LockFree, Exec, FrameInv;
  }

  /** What replaces a cancel frame continues the same call. */
  lemma CallGoesOn(s: State, t: nat, f: Frame, choice: nat, expired: bool)
    requires WellPlaced(s, f) && CancelFrame(f)
    ensures var tops := Exec(s, t, f, choice, expired).tops;
            |tops| > 0 ==>
              var g := tops[0];
              && CancelFrame(g) && g.c == f.c && (Removing(g) ==> Removing(f))
              && ((g.Cancel? || g.Close? || g.Visit? || g.Unlocked?) && !g.rm ==>
                    (f.Cancel? || f.Close? || f.Visit? || f.Unlocked?) && !f.rm)
  {
  }

  lemma LinkNew(s: State, s': State, t: nat, m: nat, f: Frame, x: Effect, choice: nat, expired: bool, i0: nat)
    requires RunCtx(s, s', t, m, f, x, choice, expired) && FrameAt(s', t, i0) && i0 >= m
    ensures LinkInv(s', t, i0)
  {
    assert FrameInv(s, t, m) && NodeInv(s, f.c);
    RunParents(s, s', t, m, f, x, choice, expired);
    if |x.tops| == 2 && i0 == m {
      NewFrame(s, s', t, m, f, x, 0);
      NewFrame(s, s', t, m, f, x, 1);
      NewCall(s, s', t, m, f, x, choice, expired);
    } else {
      AtMostTwo(s, t, f, choice, expired);
    }
    hide Inv, Pre, LockFree, Exec, FrameInv;
  }

  lemma AtMostTwo(s: State, t: nat, f: Frame, choice: nat, expired: bool)
    requires WellPlaced(s, f)
    ensures |Exec(s, t, f, choice, expired).tops| <= 2
  {
  }

  lemma NewCall(s: State, s': State, t: nat, m: nat, f: Frame, x: Effect, choice: nat, expired: bool)
    requires RunCtx(s, s', t, m, f, x, choice, expired) && |x.tops| == 2
    ensures LinkOk(s', x.tops[0], x.tops[1])
  {
    assert FrameInv(s, t, m) && NodeInv(s, f.c);
    RunParents(s, s', t, m, f, x, choice, expired);
    NewCallKinds(s, t, f, choice, expired);
    if f.Visit? {
      NextVisited(s, t, m, choice);
    }
    hide Inv, Pre, LockFree, Exec, Running, NodeInv, FrameInv, FieldsInv, Holding;
  }

  /** A child that a running cancel visits. */
  lemma NextVisited(s: State, t: nat, i: nat, choice: nat)
    requires FrameAt(s, t, i) && FrameInv(s, t, i) && At(s, t, i).Visit? && NodeInv(s, At(s, t, i).c)
    requires Ready(At(s, t, i), choice) && At(s, t, i).todo != {}
    ensures NodeIn(s, choice) && s.nodes[choice].parent == Some(At(s, t, i).c)
  {
    hide Pre;
  }

  lemma NewCallKinds(s: State, t: nat, f: Frame, choice: nat, expired: bool)
    requires WellPlaced(s, f) && |Exec(s, t, f, choice, expired).tops| == 2
    ensures var tops := Exec(s, t, f, choice, expired).tops;
            && tops[1].Cancel?
            && (match f
                case PropErr(c) => tops[0] == AfterProp(c) && tops[1].c == c && !tops[1].rm
                case PropHeld(c) => tops[0] == PropUnlock(c) && tops[1].c == c && !tops[1].rm
                case AfterProp(c) => tops[0] == Publish(c, true) && tops[1].c == c && tops[1].rm
                case Visit(c, _, _, todo) =>
                  tops[0].Visit? && tops[0].c == c && todo != {} && tops[1].c == choice && !tops[1].rm
                case _ => false)
  {
  }

  lemma RunLock(s: State, s': State, t: nat, m: nat, f: Frame, x: Effect, choice: nat, expired: bool, n: nat)
    requires RunCtx(s, s', t, m, f, x, choice, expired) && NodeIn(s, n)
    ensures NodeIn(s', n) && LockInv(s', n)
  {
    assert LockInv(s, n) && FrameInv(s, t, m);
    RunParents(s, s', t, m, f, x, choice, expired);
    if s'.nodes[n].lock.Some? {
      if s'.nodes[n].lock == s.nodes[n].lock {
        var t0 := s.nodes[n].lock.value;
        var i0 :| HoldsAt(s, t0, i0, n);
        if t0 == t && i0 == m {
          LockMoved(s, s', t, m, f, x, choice, expired, n);
        } else {
          KeptFrame(s, s', t, m, f, x, t0, i0);
          SameParents(s, s', At(s, t0, i0).c);
          hide Inv, Exec;
          assert HoldsAt(s', t0, i0, n);
        }
      } else {
        LockTaken(s, s', t, m, f, x, choice, expired, n);
      }
    }
  }

  /** The running frame keeps its lock, through the frame that replaces it. */
  lemma LockMoved(s: State, s': State, t: nat, m: nat, f: Frame, x: Effect, choice: nat, expired: bool, n: nat)
    requires RunCtx(s, s', t, m, f, x, choice, expired) && NodeIn(s, n) && NodeIn(s', n) && HoldsAt(s, t, m, n)
        && s'.nodes[n].lock == Some(t)
    ensures HoldsAt(s', t, m, n)
  {
    RunParents(s, s', t, m, f, x, choice, expired);
    SameParents(s, s', f.c);
    assert FrameInv(s, t, m);
    if |x.tops| > 0 { NewFrame(s, s', t, m, f, x, 0); }
    hide Inv, Pre, LockFree;
  }

  lemma LockTaken(s: State, s': State, t: nat, m: nat, f: Frame, x: Effect, choice: nat, expired: bool, n: nat)
    requires RunCtx(s, s', t, m, f, x, choice, expired) && NodeIn(s, n) && NodeIn(s', n)
    requires s'.nodes[n].lock.Some? && s'.nodes[n].lock != s.nodes[n].lock
    ensures s'.nodes[n].lock == Some(t) && HoldsAt(s', t, m, n)
  {
    RunParents(s, s', t, m, f, x, choice, expired);
    SameParents(s, s', f.c);
    assert FrameInv(s, t, m);
    if |x.tops| > 0 { NewFrame(s, s', t, m, f, x, 0); }
    hide Inv, Pre, LockFree;
  }

  lemma RunPreInv(s: State, s': State, t: nat, m: nat, f: Frame, x: Effect, choice: nat, expired: bool, c: nat)
    requires RunCtx(s, s', t, m, f, x, choice, expired) && NodeIn(s, c)
    ensures PreInv(s', c)
  {
    assert PreInv(s, c) && FrameInv(s, t, m);
    RunPre(s, s', t, m, f, x, choice, expired, c);
    if Pre(s', c) {
      hide Inv, Pre, LockFree;
      if t == s.nodes[c].creator {
        PreMoves(s, s', t, m, f, x, choice, expired, c);
      } else {
        PreElsewhere(s, s', t, m, f, x, choice, expired, c);
      }
    }
  }

  lemma PreMoves(s: State, s': State, t: nat, m: nat, f: Frame, x: Effect, choice: nat, expired: bool, c: nat)
    requires RunCtx(s, s', t, m, f, x, choice, expired) && NodeIn(s, c) && Pre(s, c) && Pre(s', c)
        && t == s.nodes[c].creator && PreInv(s, c)
    ensures PreInv(s', c)
  {
    assert FrameInv(s, t, m);
    RunParents(s, s', t, m, f, x, choice, expired);
    hide Inv, LockFree;
  }

  lemma PreElsewhere(s: State, s': State, t: nat, m: nat, f: Frame, x: Effect, choice: nat, expired: bool, c: nat)
    requires RunCtx(s, s', t, m, f, x, choice, expired) && NodeIn(s, c) && Pre(s, c) && t != s.nodes[c].creator
        && PreInv(s, c)
    ensures PreInv(s', c)
  {
    assert FrameInv(s, t, m);
    hide Inv, LockFree, Pre;
  }

  // ----- no child is forgotten -----

  lemma RunChild(s: State, s': State, t: nat, m: nat, f: Frame, x: Effect, choice: nat, expired: bool, c: nat)
    requires RunCtx(s, s', t, m, f, x, choice, expired) && NodeIn(s, c)
    ensures ChildInv(s', c)
  {
    hide Inv, Exec, Running, LockFree;
    RunParents(s, s', t, m, f, x, choice, expired);
    SameParents(s, s', c);
    if HasParent(s', c) && s'.nodes[c].err.None? {
      RunGrows(s, s', t, m, f, x, choice, expired, c);
      ChildAt(s, s', t, m, f, x, choice, expired, c);
    }
  }

  lemma ChildAt(s: State, s': State, t: nat, m: nat, f: Frame, x: Effect, choice: nat, expired: bool, c: nat)
    requires RunCtx(s, s', t, m, f, x, choice, expired) && HasParent(s, c) && HasParent(s', c)
        && ParentOf(s', c) == ParentOf(s, c)
    requires s.nodes[c].err.None? && s'.nodes[c].err.None?
    ensures ChildInv(s', c)
  {
    assert ChildInv(s, c);
    var p := ParentOf(s, c);
    if Pre(s, c) {
      if !Pre(s', c) { RegistrationEnds(s, s', t, m, f, x, choice, expired, c); }
    } else if HasCancel(s, c) {
      var t0, i0 :| FrameAt(s, t0, i0) && At(s, t0, i0).Cancel? && At(s, t0, i0).c == c;
      if t0 == t && i0 == m { CancelRuns(s, s', t, m, f, x, choice, expired); } else { KeptFrame(s, s', t, m, f, x, t0, i0); }
    } else if c in s.nodes[p].children && (s.nodes[p].err.None? || HasClose(s, p)) {
      ListedChild(s, s', t, m, f, x, choice, expired, c);
    } else {
      TodoChild(s, s', t, m, f, x, choice, expired, c);
    }
  }

  lemma RegistrationEnds(s: State, s': State, t: nat, m: nat, f: Frame, x: Effect, choice: nat, expired: bool, c: nat)
    requires RunCtx(s, s', t, m, f, x, choice, expired) && HasParent(s, c) && HasParent(s', c)
        && ParentOf(s', c) == ParentOf(s, c)
    requires Pre(s, c) && !Pre(s', c)
    ensures HasCancel(s', c) || (c in s'.nodes[ParentOf(s', c)].children && s'.nodes[ParentOf(s', c)].err.None?)
  {
    RunPre(s, s', t, m, f, x, choice, expired, c);
    assert FrameInv(s, t, m);
    if |x.tops| == 2 { NewFrame(s, s', t, m, f, x, 1); }
    hide Inv, LockFree;
  }

  lemma CancelRuns(s: State, s': State, t: nat, m: nat, f: Frame, x: Effect, choice: nat, expired: bool)
    requires RunCtx(s, s', t, m, f, x, choice, expired) && f.Cancel?
    ensures NodeIn(s', f.c) && s'.nodes[f.c].err.Some?
  {
    assert FrameInv(s, t, m);
    hide Inv, LockFree, Pre;
  }

  lemma ListedChild(s: State, s': State, t: nat, m: nat, f: Frame, x: Effect, choice: nat, expired: bool, c: nat)
    requires RunCtx(s, s', t, m, f, x, choice, expired) && HasParent(s, c) && HasParent(s', c)
        && ParentOf(s', c) == ParentOf(s, c)
    requires s.nodes[c].err.None? && s'.nodes[c].err.None?
    requires var p := ParentOf(s, c); c in s.nodes[p].children && (s.nodes[p].err.None? || HasClose(s, p))
    ensures var p := ParentOf(s, c);
            (c in s'.nodes[p].children && (s'.nodes[p].err.None? || HasClose(s', p))) || InTodo(s', p, c)
  {
    var p := ParentOf(s, c);
    assert FrameInv(s, t, m);
    if |x.tops| > 0 { NewFrame(s, s', t, m, f, x, 0); }
    if s.nodes[p].err.None? {
      hide Inv, LockFree, Pre;
    } else {
      var t0, i0 :| FrameAt(s, t0, i0) && At(s, t0, i0).Close? && At(s, t0, i0).c == p;
      assert FrameInv(s, t0, i0);
      if !(t0 == t && i0 == m) { KeptFrame(s, s', t, m, f, x, t0, i0); }
      hide Inv, LockFree, Pre;
    }
  }

  lemma TodoChild(s: State, s': State, t: nat, m: nat, f: Frame, x: Effect, choice: nat, expired: bool, c: nat)
    requires RunCtx(s, s', t, m, f, x, choice, expired) && HasParent(s, c) && InTodo(s, ParentOf(s, c), c)
    ensures InTodo(s', ParentOf(s, c), c) || HasCancel(s', c)
  {
    var p := ParentOf(s, c);
    var t0, i0 :| FrameAt(s, t0, i0) && At(s, t0, i0).Visit? && At(s, t0, i0).c == p && c in At(s, t0, i0).todo;
    if t0 == t && i0 == m {
      VisitNext(s, s', t, m, f, x, choice, expired, c);
    } else {
      KeptFrame(s, s', t, m, f, x, t0, i0);
    }
  }

  lemma VisitNext(s: State, s': State, t: nat, m: nat, f: Frame, x: Effect, choice: nat, expired: bool, c: nat)
    requires RunCtx(s, s', t, m, f, x, choice, expired) && f.Visit? && c in f.todo
    ensures InTodo(s', f.c, c) || HasCancel(s', c)
  {
    hide Inv, LockFree, Pre;
    assert x.tops == [Visit(f.c, f.rm, f.why, f.todo - {choice}), Cancel(choice, false, f.why)];
    NewFrame(s, s', t, m, f, x, 0);
    NewFrame(s, s', t, m, f, x, 1);
    hide Exec, Running;
  }

  // ----- no cancelled child stays listed -----

  lemma RunClear(s: State, s': State, t: nat, m: nat, f: Frame, x: Effect, choice: nat, expired: bool, n: nat)
    requires RunCtx(s, s', t, m, f, x, choice, expired) && NodeIn(s, n)
    ensures NodeIn(s', n) && ClearInv(s', n)
  {
    assert ClearInv(s, n) && FrameInv(s, t, m);
    if s'.nodes[n].err.Some? && s'.nodes[n].children != {} {
      if |x.tops| > 0 { NewFrame(s, s', t, m, f, x, 0); }
      if s.nodes[n].err.Some? && s.nodes[n].children != {} {
        ClearingGoesOn(s, s', t, m, f, x, choice, expired, n);
      } else {
        ClearingStarts(s, s', t, m, f, x, choice, expired, n);
      }
    }
  }

  lemma ClearingGoesOn(s: State, s': State, t: nat, m: nat, f: Frame, x: Effect, choice: nat, expired: bool, n: nat)
    requires RunCtx(s, s', t, m, f, x, choice, expired) && Clearing(s, n) && NodeIn(s', n)
    ensures Clearing(s', n) || s'.nodes[n].children == {}
  {
    var t0, i0 :| FrameAt(s, t0, i0) && (At(s, t0, i0).Close? || At(s, t0, i0).Visit?) && At(s, t0, i0).c == n;
    if t0 == t && i0 == m {
      if |x.tops| > 0 { NewFrame(s, s', t, m, f, x, 0); }
      hide Inv, LockFree, Pre;
    } else {
      KeptFrame(s, s', t, m, f, x, t0, i0);
    }
  }

  lemma ClearingStarts(s: State, s': State, t: nat, m: nat, f: Frame, x: Effect, choice: nat, expired: bool, n: nat)
    requires RunCtx(s, s', t, m, f, x, choice, expired) && NodeIn(s, n) && NodeIn(s', n) && FrameInv(s, t, m)
    requires !(s.nodes[n].err.Some? && s.nodes[n].children != {})
    requires s'.nodes[n].err.Some? && s'.nodes[n].children != {}
    requires |x.tops| > 0 ==> FrameAt(s', t, m) && At(s', t, m) == x.tops[0]
    ensures Clearing(s', n)
  {
    hide Inv, LockFree, Pre;
  }

  lemma RunListed(s: State, s': State, t: nat, m: nat, f: Frame, x: Effect, choice: nat, expired: bool, c: nat)
    requires RunCtx(s, s', t, m, f, x, choice, expired) && NodeIn(s, c)
    ensures ListedInv(s', c)
  {
    assert ListedInv(s, c);
    hide Inv, Exec, Running, LockFree;
    RunParents(s, s', t, m, f, x, choice, expired);
    SameParents(s, s', c);
    if HasParent(s', c) && s'.nodes[c].err.Some? && c in s'.nodes[ParentOf(s', c)].children {
      var p := ParentOf(s, c);
      StillListed(s, s', t, m, f, x, choice, expired, c);
      if s.nodes[c].err.None? {
        BecomesCancelled(s, s', t, m, f, x, choice, expired, c);
      } else {
        if Clearing(s, p) {
          ClearingGoesOn(s, s', t, m, f, x, choice, expired, p);
        } else {
          RemoverGoesOn(s, s', t, m, f, x, choice, expired, c);
        }
      }
    }
  }

  /** A context is listed only while it is not cancelled. */
  lemma StillListed(s: State, s': State, t: nat, m: nat, f: Frame, x: Effect, choice: nat, expired: bool, c: nat)
    requires RunCtx(s, s', t, m, f, x, choice, expired) && HasParent(s, c) && HasParent(s', c)
        && ParentOf(s', c) == ParentOf(s, c)
    requires s'.nodes[c].err.Some? && c in s'.nodes[ParentOf(s, c)].children
    ensures c in s.nodes[ParentOf(s, c)].children
  {
    assert FrameInv(s, t, m) && PreInv(s, c);
    hide Inv, LockFree;
  }

  lemma BecomesCancelled(s: State, s': State, t: nat, m: nat, f: Frame, x: Effect, choice: nat, expired: bool, c: nat)
    requires RunCtx(s, s', t, m, f, x, choice, expired) && HasParent(s, c) && NodeIn(s', c)
    requires s.nodes[c].err.None? && s'.nodes[c].err.Some? && c in s.nodes[ParentOf(s, c)].children
    ensures Remover(s', c) || Clearing(s', ParentOf(s, c))
  {
    var p := ParentOf(s, c);
    assert FrameInv(s, t, m) && NodeInv(s, p);
    WhoCancels(s, s', t, m, f, x, choice, expired, c);
    if f.rm {
      NewFrame(s, s', t, m, f, x, 0);
      hide Inv, LockFree, Pre, Exec, Running, FrameInv, NodeInv;
    } else {
      assert FrameAt(s, t, m - 1) && LinkInv(s, t, m - 1) && FrameInv(s, t, m - 1);
      KeptFrame(s, s', t, m, f, x, t, m - 1);
      hide Inv, LockFree, Pre, Exec, Running;
    }
  }

  lemma WhoCancels(s: State, s': State, t: nat, m: nat, f: Frame, x: Effect, choice: nat, expired: bool, c: nat)
    requires RunCtx(s, s', t, m, f, x, choice, expired) && NodeIn(s, c) && NodeIn(s', c)
        && s.nodes[c].err.None? && s'.nodes[c].err.Some?
    ensures f.Cancel? && f.c == c && x.tops == [Close(c, f.rm, f.why)] && (!f.rm ==> m >= 1)
  {
    assert FrameInv(s, t, m);
    hide Inv, LockFree, Pre;
  }

  lemma RemoverGoesOn(s: State, s': State, t: nat, m: nat, f: Frame, x: Effect, choice: nat, expired: bool, c: nat)
    requires RunCtx(s, s', t, m, f, x, choice, expired) && HasParent(s, c) && HasParent(s', c)
        && ParentOf(s', c) == ParentOf(s, c)
    requires Remover(s, c) && !Clearing(s, ParentOf(s, c))
    requires c in s.nodes[ParentOf(s, c)].children && c in s'.nodes[ParentOf(s, c)].children
    ensures Remover(s', c)
  {
    var p := ParentOf(s, c);
    var t0, i0 :| FrameAt(s, t0, i0) && At(s, t0, i0).c == c && Past(At(s, t0, i0)) && Removing(At(s, t0, i0));
    if t0 == t && i0 == m {
      assert FrameInv(s, t, m) && ClearInv(s, p) && NodeInv(s, p);
      RemoverMoves(s, s', t, m, f, x, choice, expired, c);
      NewFrame(s, s', t, m, f, x, 0);
      hide Inv, LockFree, Pre, Clearing, Exec, Running, Past, Removing;
    } else {
      KeptFrame(s, s', t, m, f, x, t0, i0);
      hide Inv, LockFree, Pre, Clearing, Exec, Running, Past, Removing;
    }
  }

  lemma RemoverMoves(s: State, s': State, t: nat, m: nat, f: Frame, x: Effect, choice: nat, expired: bool, c: nat)
    requires Running(s, s', t, m, f, x) && x == Exec(s, t, f, choice, expired) && FrameInv(s, t, m)
    requires HasParent(s, c) && f.c == c && Past(f) && Removing(f) && s'.nodes == s.nodes[x.n := x.node]
    requires var p := ParentOf(s, c); NodeIn(s, p) && NodeInv(s, p) && ClearInv(s, p) && !Clearing(s, p)
    requires c in s.nodes[ParentOf(s, c)].children && c in s'.nodes[ParentOf(s, c)].children
    ensures |x.tops| > 0 && x.tops[0].c == c && Past(x.tops[0]) && Removing(x.tops[0])
  {
    var p := ParentOf(s, c);
    assert At(s, t, m) == f && !IsClosed(s.nodes[p].done);
    hide Pre, Clearing;
  }

  // ----- steps that start a thread -----

  /** A new thread with one frame; old nodes change at most by a timer firing. */
  ghost predicate Spawned(s: State, s': State, g: Frame) {
    && s'.threads == s.threads + [[g]] && |s.nodes| <= |s'.nodes|
    && (forall n :: 0 <= n < |s.nodes| ==>
          s'.nodes[n] == s.nodes[n] || (s.nodes[n].timer == Armed && s'.nodes[n] == s.nodes[n].(timer := Fired)))
  }

  lemma SpawnFrames(s: State, s': State, g: Frame, t: nat, i: nat)
    requires Spawned(s, s', g)
    ensures FrameAt(s, t, i) ==> FrameAt(s', t, i) && At(s', t, i) == At(s, t, i) && |s'.threads[t]| == |s.threads[t]|
    ensures FrameAt(s', t, i) && !FrameAt(s, t, i) ==> t == |s.threads| && i == 0 && At(s', t, i) == g
  {
  }

  lemma SpawnSame(s: State, s': State, g: Frame, c: nat)
    requires Spawned(s, s', g) && NodesInv(s) && NodeIn(s, c)
    ensures NodeIn(s', c) && (HasParent(s', c) <==> HasParent(s, c))
    ensures HasParent(s, c) ==> ParentOf(s', c) == ParentOf(s, c)
    ensures Pre(s', c) <==> Pre(s, c)
  {
    assert NodeInv(s, c);
  }

  lemma SpawnOldFrame(s: State, s': State, g: Frame, t: nat, i: nat)
    requires Inv(s) && Spawned(s, s', g) && FrameAt(s, t, i)
    ensures FrameAt(s', t, i) && FrameInv(s', t, i) && LinkInv(s', t, i)
  {
    assert FrameInv(s, t, i) && LinkInv(s, t, i);
    SpawnFrames(s, s', g, t, i);
    SpawnFrames(s, s', g, t, i + 1);
    SpawnSame(s, s', g, At(s, t, i).c);
    if i + 1 < |s.threads[t]| {
      assert FrameInv(s, t, i + 1);
      SpawnSame(s, s', g, At(s, t, i + 1).c);
    }
    hide Inv, Pre;
  }

  lemma SpawnOldNode(s: State, s': State, g: Frame, n: nat)
    requires Inv(s) && Spawned(s, s', g) && NodeIn(s, n)
    ensures NodeIn(s', n) && NodeInv(s', n) && LockInv(s', n) && ClearInv(s', n)
  {
    assert NodeInv(s, n) && LockInv(s, n) && ClearInv(s, n);
    if s.nodes[n].lock.Some? {
      var t := s.nodes[n].lock.value;
      var i :| HoldsAt(s, t, i, n);
      SpawnFrames(s, s', g, t, i);
      SpawnSame(s, s', g, At(s, t, i).c);
      assert HoldsAt(s', t, i, n);
    }
    if Clearing(s, n) { SpawnClearing(s, s', g, n); }
    hide Inv;
  }

  lemma SpawnClearing(s: State, s': State, g: Frame, n: nat)
    requires Spawned(s, s', g) && Clearing(s, n)
    ensures Clearing(s', n)
  {
    var t, i :| FrameAt(s, t, i) && (At(s, t, i).Close? || At(s, t, i).Visit?) && At(s, t, i).c == n;
    SpawnFrames(s, s', g, t, i);
  }

  lemma SpawnOldContext(s: State, s': State, g: Frame, c: nat)
    requires Inv(s) && Spawned(s, s', g) && NodeIn(s, c)
    ensures PreInv(s', c) && ChildInv(s', c) && ListedInv(s', c)
  {
    assert PreInv(s, c) && ChildInv(s, c) && ListedInv(s, c);
    SpawnSame(s, s', g, c);
    if HasParent(s, c) {
      var p := ParentOf(s, c);
      if HasCancel(s, c) {
        var t, i :| FrameAt(s, t, i) && At(s, t, i).Cancel? && At(s, t, i).c == c;
        SpawnFrames(s, s', g, t, i);
      }
      if HasClose(s, p) {
        var t, i :| FrameAt(s, t, i) && At(s, t, i).Close? && At(s, t, i).c == p;
        SpawnFrames(s, s', g, t, i);
      }
      if InTodo(s, p, c) {
        var t, i :| FrameAt(s, t, i) && At(s, t, i).Visit? && At(s, t, i).c == p && c in At(s, t, i).todo;
        SpawnFrames(s, s', g, t, i);
      }
      if Clearing(s, p) { SpawnClearing(s, s', g, p); }
      if Remover(s, c) {
        var t, i :| FrameAt(s, t, i) && At(s, t, i).c == c && Past(At(s, t, i)) && Removing(At(s, t, i));
        SpawnFrames(s, s', g, t, i);
      }
    }
    hide Inv, Pre, HasCancel, HasClose, InTodo, Clearing, Remover;
  }

  lemma CreateStep(s: State, p: Option<nat>, timed: bool)
    requires Inv(s) && Enabled(s, Create(p, timed))
    ensures Inv(Apply(s, Create(p, timed)))
  {
    var s' := Apply(s, Create(p, timed));
    var c := |s.nodes|;
    var g := s'.threads[|s.threads|][0];
    assert Spawned(s, s', g);
    NewContext(s, s', g, p, timed);
    hide FrameInv, LinkInv, NodeInv, LockInv, ClearInv, PreInv, ChildInv, ListedInv, Spawned;
    forall n | NodeIn(s', n)
      ensures NodeInv(s', n) && LockInv(s', n) && ClearInv(s', n) && PreInv(s', n) && ChildInv(s', n) && ListedInv(s', n)
    {
      if NodeIn(s, n) { SpawnOldNode(s, s', g, n); SpawnOldContext(s, s', g, n); }
    }
    forall t, i | FrameAt(s', t, i)
      ensures FrameInv(s', t, i) && LinkInv(s', t, i)
    {
      SpawnFrames(s, s', g, t, i);
      if FrameAt(s, t, i) { SpawnOldFrame(s, s', g, t, i); }
    }
  }

  lemma NewContext(s: State, s': State, g: Frame, p: Option<nat>, timed: bool)
    requires Inv(s) && Enabled(s, Create(p, timed)) && s' == Apply(s, Create(p, timed))
    requires Spawned(s, s', g)
    ensures var c, t := |s.nodes|, |s.threads|;
            && NodeInv(s', c) && LockInv(s', c) && ClearInv(s', c)
            && PreInv(s', c) && ChildInv(s', c) && ListedInv(s', c)
            && FrameAt(s', t, 0) && FrameInv(s', t, 0) && LinkInv(s', t, 0)
  {
    if p.Some? { assert NodeInv(s, p.value); }
    hide Inv;
  }

  lemma SpawnCancel(s: State, s': State, g: Frame)
    requires Inv(s) && Spawned(s, s', g) && |s'.nodes| == |s.nodes|
    requires g.Cancel? && NodeIn(s, g.c) && !Pre(s, g.c) && g.why.Some? && (!g.rm ==> s.nodes[g.c].err.Some?)
    ensures Inv(s')
  {
    SpawnSame(s, s', g, g.c);
    assert FrameAt(s', |s.threads|, 0) && FrameInv(s', |s.threads|, 0) && LinkInv(s', |s.threads|, 0) by {
      hide Inv;
    }
    hide FrameInv, LinkInv, NodeInv, LockInv, ClearInv, PreInv, ChildInv, ListedInv, Spawned;
    forall n | NodeIn(s', n)
      ensures NodeInv(s', n) && LockInv(s', n) && ClearInv(s', n) && PreInv(s', n) && ChildInv(s', n) && ListedInv(s', n)
    {
      SpawnOldNode(s, s', g, n);
      SpawnOldContext(s, s', g, n);
    }
    forall t, i | FrameAt(s', t, i)
      ensures FrameInv(s', t, i) && LinkInv(s', t, i)
    {
      SpawnFrames(s, s', g, t, i);
      if FrameAt(s, t, i) { SpawnOldFrame(s, s', g, t, i); }
    }
  }

  lemma RunStep(s: State, e: Step)
    requires Inv(s) && e.Run? && Enabled(s, e)
    ensures Inv(Apply(s, e))
  {
    var s' := Apply(s, e);
    var t := e.t;
    var m, f := |s.threads[t]| - 1, Top(s, t);
    var x := Exec(s, t, f, e.choice, e.expired);
    RunShape(s, e);
    assert RunCtx(s, s', t, m, f, x, e.choice, e.expired);
    hide FrameInv, LinkInv, NodeInv, LockInv, ClearInv, PreInv, ChildInv, ListedInv, Running, Exec, Apply, RunCtx;
    RunSize(s, s', t, m, f, x, e.choice, e.expired);
    forall n | NodeIn(s', n)
      ensures NodeInv(s', n) && LockInv(s', n) && ClearInv(s', n) && PreInv(s', n) && ChildInv(s', n) && ListedInv(s', n)
    {
      RunNode(s, s', t, m, f, x, e.choice, e.expired, n);
      RunLock(s, s', t, m, f, x, e.choice, e.expired, n);
      RunClear(s, s', t, m, f, x, e.choice, e.expired, n);
      RunPreInv(s, s', t, m, f, x, e.choice, e.expired, n);
      RunChild(s, s', t, m, f, x, e.choice, e.expired, n);
      RunListed(s, s', t, m, f, x, e.choice, e.expired, n);
    }
    forall t0, i0 | FrameAt(s', t0, i0)
      ensures FrameInv(s', t0, i0) && LinkInv(s', t0, i0)
    {
      RunFrame(s, s', t, m, f, x, e.choice, e.expired, t0, i0);
      RunLink(s, s', t, m, f, x, e.choice, e.expired, t0, i0);
    }
  }

  lemma RunSize(s: State, s': State, t: nat, m: nat, f: Frame, x: Effect, choice: nat, expired: bool)
    requires RunCtx(s, s', t, m, f, x, choice, expired)
    ensures |s'.nodes| == |s.nodes|
  {
    hide Inv, Exec, LockFree;
  }

  lemma InvStep(s: State, e: Step)
    requires Inv(s) && Enabled(s, e)
    ensures Inv(Apply(s, e))
  {
    match e
    case Create(p, timed) => CreateStep(s, p, timed);
    case CallCancel(n) =>
      assert PreInv(s, n) && NodeInv(s, n);
      var g := Cancel(n, !s.nodes[n].late, Some(Canceled));
      assert Spawned(s, Apply(s, e), g);
      hide Inv, Pre, Apply;
      SpawnCancel(s, Apply(s, e), g);
    case Fire(n) =>
      assert PreInv(s, n) && NodeInv(s, n);
      var g := Cancel(n, true, Some(DeadlineExceeded));
      assert Spawned(s, Apply(s, e), g) && |Apply(s, e).nodes| == |s.nodes|;
      hide Inv, Pre, Apply;
      SpawnCancel(s, Apply(s, e), g);
    case Run(_, _, _) => RunStep(s, e);
  }

  lemma InitInv()
    ensures Inv(INIT)
  {
  }

  // ----- every run -----

  ghost predicate ValidRun(s: State, es: seq<Step>)
    decreases |es|
  {
    |es| == 0 || (Enabled(s, es[0]) && ValidRun(Apply(s, es[0]), es[1..]))
  }

  ghost function After(s: State, es: seq<Step>): State
    requires ValidRun(s, es)
    decreases |es|
  {
    if |es| == 0 then s else After(Apply(s, es[0]), es[1..])
  }

  lemma {:induction false} RunInv(s: State, es: seq<Step>)
    requires Inv(s) && ValidRun(s, es)
    ensures Inv(After(s, es))
    decreases |es|
  {
    hide Inv, Enabled, Apply;
    if |es| > 0 {
      InvStep(s, es[0]);
      RunInv(Apply(s, es[0]), es[1..]);
    }
  }

  /** No call is in progress. */
  predicate Quiet(s: State) { forall t :: 0 <= t < |s.threads| ==> s.threads[t] == [] }

  /** Cancellation reaches everybody: whatever the interleaving of creation, cancel calls
      and timers, once no call is in progress every descendant of a cancelled context is
      cancelled. A child registering while its parent is cancelled is never lost. */
  lemma DescendantsCancelled(es: seq<Step>, a: nat, c: nat)
    requires ValidRun(INIT, es)
    requires var s := After(INIT, es); Quiet(s) && IsAncestor(s, a, c) && NodeIn(s, a) && s.nodes[a].err.Some?
    ensures After(INIT, es).nodes[c].err.Some?
  {
    InitInv();
    RunInv(INIT, es);
    hide ValidRun, After;
    QuietDescendants(After(INIT, es), a, c);
  }

  lemma {:induction false} QuietDescendants(s: State, a: nat, c: nat)
    requires Inv(s) && Quiet(s) && IsAncestor(s, a, c) && NodeIn(s, a) && s.nodes[a].err.Some?
    ensures s.nodes[c].err.Some?
    decreases c
  {
    var p := ParentOf(s, c);
    if p != a { QuietDescendants(s, a, p); }
    QuietChild(s, c);
  }

  lemma QuietChild(s: State, c: nat)
    requires Inv(s) && Quiet(s) && HasParent(s, c)
    ensures c in s.nodes[ParentOf(s, c)].children <==> s.nodes[c].err.None?
    ensures s.nodes[ParentOf(s, c)].err.Some? ==> s.nodes[c].err.Some?
  {
    assert PreInv(s, c) && ChildInv(s, c) && ListedInv(s, c);
    hide Inv, Pre;
    forall t, i
      ensures !FrameAt(s, t, i)
    {
    }
  }

  /** Cancelled contexts are released: once no call is in progress, a parent lists exactly
      its children that are not cancelled. */
  lemma CancelledReleased(es: seq<Step>, c: nat)
    requires ValidRun(INIT, es)
    requires Quiet(After(INIT, es)) && HasParent(After(INIT, es), c)
    ensures var s := After(INIT, es); c in s.nodes[ParentOf(s, c)].children <==> s.nodes[c].err.None?
  {
    InitInv();
    RunInv(INIT, es);
    hide ValidRun, After;
    QuietChild(After(INIT, es), c);
  }

  /** Nested locks are taken strictly parent before child: every lock a thread holds
      belongs to a proper ancestor of the context whose lock it is about to take. In
      particular removeChild never runs with a lock held. */
  lemma LockOrder(es: seq<Step>, t: nat, i: nat, n: nat)
    requires ValidRun(INIT, es)
    requires var s := After(INIT, es); IsThread(s, t) && HoldsAt(s, t, i, n)
    ensures var s := After(INIT, es);
            && WellPlaced(s, Top(s, t))
            && (var a := Awaits(s, Top(s, t)); a.Some? ==> IsAncestor(s, n, a.value) && n < a.value)
            && !InRemoveChild(Top(s, t))
  {
    InitInv();
    RunInv(INIT, es);
    hide ValidRun, After;
    AwaitsBelow(After(INIT, es), t, i, n);
  }

  predicate InRemoveChild(f: Frame) { f.Remove1? || f.Remove2? || f.Remove3? }

  lemma AwaitsBelow(s: State, t: nat, i: nat, n: nat)
    requires Inv(s) && IsThread(s, t) && HoldsAt(s, t, i, n)
    ensures WellPlaced(s, Top(s, t)) && !InRemoveChild(Top(s, t))
    ensures var a := Awaits(s, Top(s, t)); a.Some? ==> IsAncestor(s, n, a.value) && n < a.value
  {
    var top := |s.threads[t]| - 1;
    assert FrameInv(s, t, top);
    if i < top {
      HeldBelow(s, t, i, top, n);
      AncestorLess(s, n, At(s, t, top).c);
    }
    hide Inv, Pre;
  }

  /** There is no deadlock: while any call is in progress, some call can take a step. */
  lemma NoDeadlock(es: seq<Step>, t: nat)
    requires ValidRun(INIT, es) && IsThread(After(INIT, es), t)
    ensures exists e: Step :: e.Run? && Enabled(After(INIT, es), e)
  {
    InitInv();
    RunInv(INIT, es);
    hide ValidRun, After;
    var e := SomeStep(After(INIT, es), t);
  }

  /** Follow the waits-for chain: each holder waits, if at all, for a younger context. */
  lemma {:induction false} SomeStep(s: State, t: nat) returns (e: Step)
    requires Inv(s) && IsThread(s, t)
    ensures e.Run? && Enabled(s, e)
    decreases var f := Top(s, t);
              if WellPlaced(s, f) && Awaits(s, f).Some? then |s.nodes| - Awaits(s, f).value else 0
  {
    var top := |s.threads[t]| - 1;
    var f := Top(s, t);
    assert FrameInv(s, t, top);
    var choice := 0;
    if f.Visit? && f.todo != {} { choice :| choice in f.todo; }
    if LockFree(s, f) {
      e := Run(t, choice, false);
    } else {
      var n := Awaits(s, f).value;
      AwaitedNode(s, f);
      assert LockInv(s, n);
      var u := s.nodes[n].lock.value;
      var i :| HoldsAt(s, u, i, n);
      AwaitsBelow(s, u, i, n);
      AwaitedInRange(s, u);
      hide Inv, Pre;
      e := SomeStep(s, u);
    }
  }

  lemma AwaitedInRange(s: State, u: nat)
    requires Inv(s) && IsThread(s, u) && WellPlaced(s, Top(s, u))
    ensures var a := Awaits(s, Top(s, u)); a.Some? ==> a.value < |s.nodes|
  {
    hide Inv;
  }

  lemma AwaitedNode(s: State, f: Frame)
    requires WellPlaced(s, f) && !LockFree(s, f)
    ensures Awaits(s, f).Some? && NodeIn(s, Awaits(s, f).value) && s.nodes[Awaits(s, f).value].lock.Some?
  {
  }

  // ----- every call returns -----

  /** The steps a frame takes at most, the calls it makes included. */
  function FrameWork(f: Frame): nat {
    match f
    case PropDone(_) => 26
    case PropSelect(_) => 25
    case PropLookup1(_) => 24
    case PropLookup2(_) => 23
    case PropLock(_) => 22
    case PropFallback(_) => 22
    case PropHeld(_) => 21
    case PropErr(_) => 19
    case PropUnlock(_) => 11
    case AfterProp(_) => 10
    case ArmTimer(_) => 2
    case Publish(_, _) => 1
    case Cancel(_, _, _) => 8
    case Close(_, _, _) => 7
    case Visit(_, _, _, todo) => 6 + 9 * |todo|
    case Unlocked(_, _) => 5
    case Remove1(_) => 4
    case Remove2(_) => 3
    case Remove3(_) => 2
    case StopTimer(_) => 1
  }

  /** A context that is not closed yet may still have its children to cancel. */
  function NodeWork(n: Node): nat { if IsClosed(n.done) then 0 else 9 * |n.children| }

  function StackWork(fs: seq<Frame>): nat {
    if fs == [] then 0 else FrameWork(fs[0]) + StackWork(fs[1..])
  }

  function ThreadsWork(ts: seq<seq<Frame>>): nat {
    if ts == [] then 0 else StackWork(ts[0]) + ThreadsWork(ts[1..])
  }

  function NodesWork(ns: seq<Node>): nat {
    if ns == [] then 0 else NodeWork(ns[0]) + NodesWork(ns[1..])
  }

  function Work(s: State): nat { ThreadsWork(s.threads) + NodesWork(s.nodes) }

  lemma {:induction false} StackWorkSum(a: seq<Frame>, b: seq<Frame>)
    ensures StackWork(a + b) == StackWork(a) + StackWork(b)
  {
    hide FrameWork;
    if a == [] {
      assert a + b == b;
    } else {
      StackWorkSum(a[1..], b);
      assert (a + b)[1..] == a[1..] + b;
    }
  }

  lemma {:induction false} ThreadsWorkAt(ts: seq<seq<Frame>>, t: nat, fs: seq<Frame>)
    requires t < |ts|
    ensures ThreadsWork(ts[t := fs]) + StackWork(ts[t]) == ThreadsWork(ts) + StackWork(fs)
  {
    hide StackWork;
    if t == 0 {
      assert ts[0 := fs][1..] == ts[1..];
    } else {
      ThreadsWorkAt(ts[1..], t - 1, fs);
      assert ts[t := fs][1..] == ts[1..][t - 1 := fs];
    }
  }

  lemma {:induction false} NodesWorkAt(ns: seq<Node>, n: nat, node: Node)
    requires n < |ns|
    ensures NodesWork(ns[n := node]) + NodeWork(ns[n]) == NodesWork(ns) + NodeWork(node)
  {
    hide NodeWork;
    if n == 0 {
      assert ns[0 := node][1..] == ns[1..];
    } else {
      NodesWorkAt(ns[1..], n - 1, node);
      assert ns[n := node][1..] == ns[1..][n - 1 := node];
    }
  }

  lemma EffectWorks(s: State, t: nat, f: Frame, choice: nat, expired: bool)
    requires WellPlaced(s, f) && Ready(f, choice)
    requires f.Close? ==> !IsClosed(s.nodes[f.c].done)
    requires f.Visit? ==> IsClosed(s.nodes[f.c].done)
    ensures
      var x := Exec(s, t, f, choice, expired);
      x.n < |s.nodes| && StackWork(x.tops) + NodeWork(x.node) < FrameWork(f) + NodeWork(s.nodes[x.n])
  {
    StackWorkOf(s, t, f, choice, expired);
    if f.PropHeld? || f.Remove3? {
      RegisterWorks(s, t, f, choice, expired);
    } else if f.Visit? || f.Close? {
      ClearWorks(s, t, f, choice, expired);
    } else {
      SameChildren(s, t, f, choice, expired);
      FramesWork(s, t, f, choice, expired);
    }
    hide Exec, StackWork, FrameWork, NodeWork;
  }

  function TopsWork(fs: seq<Frame>): nat {
    if |fs| == 0 then 0 else if |fs| == 1 then FrameWork(fs[0]) else FrameWork(fs[0]) + FrameWork(fs[1])
  }

  lemma RegisterWorks(s: State, t: nat, f: Frame, choice: nat, expired: bool)
    requires WellPlaced(s, f) && (f.PropHeld? || f.Remove3?)
    ensures
      var x := Exec(s, t, f, choice, expired);
      x.n < |s.nodes| && TopsWork(x.tops) + NodeWork(x.node) < FrameWork(f) + NodeWork(s.nodes[x.n])
  {
    ChildrenWork(s.nodes[ParentOf(s, f.c)], f.c);
  }

  lemma ClearWorks(s: State, t: nat, f: Frame, choice: nat, expired: bool)
    requires WellPlaced(s, f) && Ready(f, choice)
    requires (f.Close? && !IsClosed(s.nodes[f.c].done)) || (f.Visit? && IsClosed(s.nodes[f.c].done))
    ensures
      var x := Exec(s, t, f, choice, expired);
      x.n < |s.nodes| && TopsWork(x.tops) + NodeWork(x.node) < FrameWork(f) + NodeWork(s.nodes[x.n])
  {
    if f.Visit? { TodoWork(f, choice); }
  }

  lemma ChildrenWork(n: Node, c: nat)
    ensures |n.children + {c}| <= |n.children| + 1 && |n.children - {c}| <= |n.children|
  {
    assert n.children + {c} == n.children + ({c} - n.children);
    if c in n.children { assert {c} - n.children == {}; }
  }

  lemma TodoWork(f: Frame, choice: nat)
    requires f.Visit? && Ready(f, choice)
    ensures f.todo != {} ==> |f.todo - {choice}| == |f.todo| - 1
  {
  }

  /** The other frames leave the children of a context as they are, and its channel too unless
      it was nil. */
  lemma SameChildren(s: State, t: nat, f: Frame, choice: nat, expired: bool)
    requires WellPlaced(s, f) && Ready(f, choice) && !(f.PropHeld? || f.Remove3? || f.Visit? || f.Close?)
    ensures
      var x := Exec(s, t, f, choice, expired);
      x.n < |s.nodes| && NodeWork(x.node) == NodeWork(s.nodes[x.n])
  {
  }

  lemma FramesWork(s: State, t: nat, f: Frame, choice: nat, expired: bool)
    requires WellPlaced(s, f) && Ready(f, choice) && !(f.PropHeld? || f.Remove3? || f.Visit? || f.Close?)
    ensures TopsWork(Exec(s, t, f, choice, expired).tops) < FrameWork(f)
  {
  }

  lemma StackWorkOf(s: State, t: nat, f: Frame, choice: nat, expired: bool)
    requires WellPlaced(s, f)
    ensures
      var fs := Exec(s, t, f, choice, expired).tops;
      |fs| <= 2 && StackWork(fs) == TopsWork(fs)
  {
    hide FrameWork;
    var fs := Exec(s, t, f, choice, expired).tops;
    FewFrames(s, t, f, choice, expired);
    hide Exec;
    if |fs| == 1 {
      assert fs[1..] == [];
    } else if |fs| == 2 {
      assert fs[1..] == [fs[1]] && StackWork([fs[1]]) == FrameWork(fs[1]) + StackWork([fs[1]][1..]);
    }
  }

  lemma FewFrames(s: State, t: nat, f: Frame, choice: nat, expired: bool)
    requires WellPlaced(s, f)
    ensures |Exec(s, t, f, choice, expired).tops| <= 2
  {
  }

  /** Every step of a call in progress uses up work, whatever the other calls do. */
  lemma StepWorks(s: State, e: Step)
    requires Inv(s) && Enabled(s, e) && e.Run?
    ensures Work(Apply(s, e)) < Work(s)
  {
    var t, m, f := e.t, |s.threads[e.t]| - 1, Top(s, e.t);
    assert FrameInv(s, t, m);
    var x := Exec(s, t, f, e.choice, e.expired);
    EffectWorks(s, t, f, e.choice, e.expired);
    var s' := Apply(s, e);
    assert s' == State(s.nodes[x.n := x.node], s.threads[t := s.threads[t][..m] + x.tops]);
    hide Inv, Exec, Apply, Enabled, FrameInv, Ready, WellPlaced, NodeWork, FrameWork;
    NodesWorkAt(s.nodes, x.n, x.node);
    ThreadsWorkAt(s.threads, t, s.threads[t][..m] + x.tops);
    StackWorkSum(s.threads[t][..m], x.tops);
    StackWorkSum(s.threads[t][..m], [f]);
    assert s.threads[t] == s.threads[t][..m] + [f] && [f][1..] == [];
    assert StackWork([f]) == FrameWork(f);
  }

  predicate OnlyRuns(es: seq<Step>) { forall i :: 0 <= i < |es| ==> es[i].Run? }

  /** No call runs for ever: after any run, without new calls, timers or contexts the calls in
      progress take a bounded number of steps, and where no step is left all have returned. */
  lemma CallsReturn(es: seq<Step>, more: seq<Step>)
    requires ValidRun(INIT, es) && ValidRun(After(INIT, es), more) && OnlyRuns(more)
    ensures |more| <= Work(After(INIT, es))
    ensures var s := After(After(INIT, es), more);
            Quiet(s) <==> forall e: Step :: e.Run? ==> !Enabled(s, e)
  {
    InitInv();
    RunInv(INIT, es);
    var s := After(INIT, es);
    hide Inv, Enabled, Work, OnlyRuns;
    RunsEnd(s, more);
    RunInv(s, more);
    hide ValidRun, After;
    QuietOrStep(After(s, more));
  }

  lemma {:induction false} RunsEnd(s: State, es: seq<Step>)
    requires Inv(s) && ValidRun(s, es) && OnlyRuns(es)
    ensures Work(After(s, es)) + |es| <= Work(s)
    decreases |es|
  {
    hide Inv, Enabled, Apply, Work;
    if |es| > 0 {
      assert es[0].Run? && OnlyRuns(es[1..]);
      StepWorks(s, es[0]);
      InvStep(s, es[0]);
      RunsEnd(Apply(s, es[0]), es[1..]);
    }
  }

  lemma QuietOrStep(s: State)
    requires Inv(s)
    ensures Quiet(s) <==> forall e: Step :: e.Run? ==> !Enabled(s, e)
  {
    hide Inv;
    if !Quiet(s) {
      var t :| 0 <= t < |s.threads| && s.threads[t] != [];
      var e := SomeStep(s, t);
    }
  }

  /** In every reachable state: done was closed at most once, and only after err was set;
      after a timerCtx.cancel has returned its timer is nil; no cancel was called with a
      nil error; and the goroutine fallback was not taken. */
  lemma ClosedOnce(es: seq<Step>)
    requires ValidRun(INIT, es)
    ensures var s := After(INIT, es);
            && (forall n: nat :: NodeIn(s, n) ==> FieldsInv(s.nodes[n]))
            && (forall t, i :: FrameAt(s, t, i) ==>
                  !At(s, t, i).PropFallback? && (At(s, t, i).Cancel? ==> At(s, t, i).why.Some?))
  {
    InitInv();
    RunInv(INIT, es);
    var s := After(INIT, es);
    hide ValidRun, After;
    forall n: nat | NodeIn(s, n)
      ensures FieldsInv(s.nodes[n])
    {
      assert NodeInv(s, n);
    }
    forall t, i | FrameAt(s, t, i)
      ensures !At(s, t, i).PropFallback? && (At(s, t, i).Cancel? ==> At(s, t, i).why.Some?)
    {
      assert FrameInv(s, t, i);
    }
  }

  /** err is written once, and after that the timer is never set again. */
  lemma WrittenOnce(es: seq<Step>, e: Step, n: nat)
    requires ValidRun(INIT, es)
    requires var s := After(INIT, es); Enabled(s, e) && NodeIn(s, n) && s.nodes[n].err.Some?
    ensures var s, s' := After(INIT, es), Apply(After(INIT, es), e);
            && NodeIn(s', n) && s'.nodes[n].err == s.nodes[n].err
            && (s.nodes[n].timer != Armed ==> s'.nodes[n].timer != Armed)
            && (s.nodes[n].returned ==> s'.nodes[n].returned && s'.nodes[n].timer == NoTimer)
  {
    InitInv();
    RunInv(INIT, es);
    var s := After(INIT, es);
    hide ValidRun, After;
    assert NodeInv(s, n);
    if e.Run? { assert FrameInv(s, e.t, |s.threads[e.t]| - 1); }
    hide Inv, Pre, LockFree;
    StepGrows(s, e, n);
  }
}
