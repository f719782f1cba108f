/** expvar.Map: a concurrent map m with a separately locked, sorted list of its keys,
    under any interleaving of Set, Add, AddFloat, Delete and Do. */
module Expvar {

  import opened Basics
  import opened KeyOrder

  /** A variable stored in the map; only its presence matters to the key list. */
  datatype Var = IntVar(id: nat) | FloatVar(id: nat) | OtherVar(id: nat)

  predicate Found(keys: seq<Key>, k: Key) {
    var i := Search(keys, k);
    i < |keys| && keys[i] == k
  }

  function Remove(keys: seq<Key>, k: Key): seq<Key> {
    var i := Search(keys, k);
    if Found(keys, k) then keys[..i] + keys[i + 1..] else keys
  }

  lemma FoundIffIn(keys: seq<Key>, k: Key)
    requires Sorted(keys)
    ensures Found(keys, k) <==> k in keys
  {
    var i := Search(keys, k);
    if k in keys {
      var j :| 0 <= j < |keys| && keys[j] == k;
      LessIrreflexive(k);
    }
  }

  lemma RemoveKeeps(keys: seq<Key>, k: Key)
    requires Sorted(keys)
    ensures Sorted(Remove(keys, k)) && KeySet(Remove(keys, k)) == KeySet(keys) - {k}
  {
    FoundIffIn(keys, k);
    if Found(keys, k) {
      var i := Search(keys, k);
      RemoveAt(keys, i);
      hide Found, Search;
    }
  }

  lemma RemoveAt(keys: seq<Key>, i: nat)
    requires Sorted(keys) && i < |keys|
    ensures Sorted(keys[..i] + keys[i + 1..]) && KeySet(keys[..i] + keys[i + 1..]) == KeySet(keys) - {keys[i]}
  {
    var k, r := keys[i], keys[..i] + keys[i + 1..];
    LessIrreflexive(k);
    hide Less;
    forall x
      ensures x in r <==> x in keys && x != k
    {
      if x in keys && x != k {
        var j :| 0 <= j < |keys| && keys[j] == x;
        assert r[if j < i then j else j - 1] == x;
      }
      if x in r {
        var j :| 0 <= j < |r| && r[j] == x;
        assert x == keys[if j < i then j else j + 1];
      }
    }
  }

  // ----- the transition system -----

  /** A call in flight. */
  datatype Proc =
    | SetLoad(k: Key, v: Var)            // m.Load(key)
    | SetLoadOrStore(k: Key, v: Var)     // m.LoadOrStore(key, av)
    | SetStore(k: Key, v: Var)           // m.Store(key, av)
    | AddLoad(k: Key, v: Var)            // Add, AddFloat: m.Load(key); v is the new variable
    | AddLoadOrStore(k: Key, v: Var)     // m.LoadOrStore(key, new(...))
    | AddKey(k: Key)                     // addKey waits for keysMu
    | DelLock(k: Key)                    // Delete waits for keysMu
    | DelHeld(k: Key, found: bool)       // keys updated, mutex held; m.Delete(key) if found
    | DoLock                             // Do waits for keysMu.RLock
    | DoIter(i: nat, seen: seq<(Key, Option<Var>)>)   // m.Load(keys[i])
    | Finished

  datatype State = State(
    m: map<Key, Var>,
    keys: seq<Key>,
    writer: Option<nat>,      // holder of keysMu
    readers: set<nat>,        // holders of keysMu.RLock
    procs: seq<Proc>,
    orphans: set<Key>         // history: keys stored by Set.Store while absent from m
  )

  const INIT := State(map[], [], None, {}, [], {})

  datatype Step = Call(p: Proc) | Run(i: nat)

  predicate Starts(p: Proc) { p.SetLoad? || p.AddLoad? || p.DelLock? || p.DoLock? }

  predicate Enabled(s: State, e: Step) {
    match e
    case Call(p) => Starts(p)
    case Run(i) =>
      && i < |s.procs| && !s.procs[i].Finished?
      && (s.procs[i].AddKey? || s.procs[i].DelLock? ==> s.writer.None? && s.readers == {})
      && (s.procs[i].DoLock? ==> s.writer.None?)
  }

  function SetProc(s: State, i: nat, p: Proc): State
    requires i < |s.procs|
  {
    s.(procs := s.procs[i := p])
  }

  function Lookup(m: map<Key, Var>, k: Key): Option<Var> { if k in m then Some(m[k]) else None }

  function Apply(s: State, e: Step): State
    requires Enabled(s, e)
  {
    match e
    case Call(p) => s.(procs := s.procs + [p])
    case Run(i) =>
      match s.procs[i]
      case SetLoad(k, v) => SetProc(s, i, if k in s.m then SetStore(k, v) else SetLoadOrStore(k, v))
      case SetLoadOrStore(k, v) =>
        if k in s.m then SetProc(s, i, SetStore(k, v))
        else SetProc(s, i, AddKey(k)).(m := s.m[k := v])
      case SetStore(k, v) =>
        SetProc(s, i, Finished).(m := s.m[k := v], orphans := if k in s.m then s.orphans else s.orphans + {k})
      case AddLoad(k, v) => SetProc(s, i, if k in s.m then Finished else AddLoadOrStore(k, v))
      case AddLoadOrStore(k, v) =>
        if k in s.m then SetProc(s, i, Finished)
        else SetProc(s, i, AddKey(k)).(m := s.m[k := v])
      case AddKey(k) => SetProc(s, i, Finished).(keys := Insert(s.keys, k))
      case DelLock(k) =>
        SetProc(s, i, DelHeld(k, Found(s.keys, k))).(keys := Remove(s.keys, k), writer := Some(i))
      case DelHeld(k, found) =>
        SetProc(s, i, Finished).(m := if found then s.m - {k} else s.m, writer := None)
      case DoLock => SetProc(s, i, DoIter(0, [])).(readers := s.readers + {i})
      case DoIter(j, seen) =>
        if j < |s.keys| then SetProc(s, i, DoIter(j + 1, seen + [(s.keys[j], Lookup(s.m, s.keys[j]))]))
        else SetProc(s, i, Finished).(readers := s.readers - {i})
      case Finished => s
  }

  // ----- the invariant -----

  /** The mutex: one Delete or any number of Do calls. */
  ghost predicate LockInv(s: State) {
    && (forall i :: 0 <= i < |s.procs| && s.procs[i].DelHeld? ==> s.writer == Some(i))
    && (forall i :: 0 <= i < |s.procs| && s.procs[i].DoIter? ==> i in s.readers)
    && (s.writer.Some? ==> s.readers == {} && s.writer.value < |s.procs| && s.procs[s.writer.value].DelHeld?)
    && (forall i :: i in s.readers ==> i < |s.procs| && s.procs[i].DoIter?)
  }

  /** A stored key whose addKey has not run yet is in m and not in keys; one such call per key. */
  ghost predicate PendingInv(s: State) {
    && (forall i :: 0 <= i < |s.procs| && s.procs[i].AddKey? ==>
          s.procs[i].k in s.m && s.procs[i].k !in s.keys && s.procs[i].k !in s.orphans)
    && (forall i, j :: 0 <= i < j < |s.procs| && s.procs[i].AddKey? && s.procs[j].AddKey? ==>
          s.procs[i].k != s.procs[j].k)
  }

  /** The part of DeleteInv about call i. */
  ghost predicate DeleteAt(s: State, i: nat)
    requires i < |s.procs| && s.procs[i].DelHeld?
  {
    && s.procs[i].k !in s.keys
    && (s.procs[i].found ==> s.procs[i].k in s.m && s.procs[i].k !in s.orphans
                             && forall j :: 0 <= j < |s.procs| && s.procs[j].AddKey? ==> s.procs[j].k != s.procs[i].k)
  }

  ghost predicate DeleteInv(s: State) {
    forall i :: 0 <= i < |s.procs| && s.procs[i].DelHeld? ==> DeleteAt(s, i)
  }

  /** Everything a Do call has visited was present, and it visits the listed keys in order. */
  ghost predicate DoInv(s: State) {
    forall i :: 0 <= i < |s.procs| && s.procs[i].DoIter? ==>
      && s.procs[i].i == |s.procs[i].seen| <= |s.keys|
      && (forall j :: 0 <= j < |s.procs[i].seen| ==> s.procs[i].seen[j].0 == s.keys[j] && s.procs[i].seen[j].1.Some?)
  }

  ghost predicate ListInv(s: State) {
    && Sorted(s.keys)
    && (forall k :: k in s.keys ==> k in s.m && k !in s.orphans)
    && (forall k :: k in s.orphans ==> k in s.m)
    && (forall k :: k in s.m ==> k in s.keys || k in s.orphans || Awaited(s, k))
  }

  /** k is on its way into the list, or on its way out of the map. */
  ghost predicate Awaited(s: State, k: Key) {
    exists i :: 0 <= i < |s.procs| && Holds(s.procs[i], k)
  }

  predicate Holds(p: Proc, k: Key) {
    (p.AddKey? && p.k == k) || (p.DelHeld? && p.k == k && p.found)
  }

  ghost predicate Inv(s: State) {
    LockInv(s) && PendingInv(s) && DeleteInv(s) && DoInv(s) && ListInv(s)
  }

  lemma InitInv()
    ensures Inv(INIT)
  {
  }

  lemma InvStep(s: State, e: Step)
    requires Inv(s) && Enabled(s, e)
    ensures Inv(Apply(s, e))
  {
    LockStep(s, e);
    PendingStep(s, e);
    DeleteStep(s, e);
    DoStep(s, e);
    ListStep(s, e);
  }

  lemma LockStep(s: State, e: Step)
    requires LockInv(s) && Enabled(s, e)
    ensures LockInv(Apply(s, e))
  {
    LockParts(s, e);
    hide Apply, Enabled;
  }

  /** What a step does to the mutex and to the calls that hold it. */
  lemma LockParts(s: State, e: Step)
    requires Enabled(s, e)
    ensures e.Call? ==>
      var s' := Apply(s, e);
      && s'.procs == s.procs + [e.p] && !e.p.DelHeld? && !e.p.DoIter?
      && s'.writer == s.writer && s'.readers == s.readers
    ensures e.Run? ==>
      var s', i, p := Apply(s, e), e.i, s.procs[e.i];
      && |s'.procs| == |s.procs| && (forall j :: 0 <= j < |s.procs| && j != i ==> s'.procs[j] == s.procs[j])
      && (s'.procs[i].DelHeld? <==> p.DelLock?) && (s'.procs[i].DoIter? ==> p.DoLock? || p.DoIter?)
      && (p.DelLock? ==> s.writer.None? && s.readers == {}) && (p.DoLock? ==> s.writer.None? && s'.procs[i].DoIter?)
      && s'.writer == (if p.DelLock? then Some(i) else if p.DelHeld? then None else s.writer)
      && s'.readers == (if p.DoLock? then s.readers + {i}
                        else if p.DoIter? && !s'.procs[i].DoIter? then s.readers - {i} else s.readers)
  {
    hide Insert, Remove, Search, Found;
  }

  /** What a step does to the key list. */
  lemma KeysAfter(s: State, e: Step)
    requires Sorted(s.keys) && Enabled(s, e)
    ensures var s' := Apply(s, e);
            && Sorted(s'.keys)
            && (e.Run? && s.procs[e.i].AddKey? ==> KeySet(s'.keys) == KeySet(s.keys) + {s.procs[e.i].k})
            && (e.Run? && s.procs[e.i].DelLock? ==>
                  KeySet(s'.keys) == KeySet(s.keys) - {s.procs[e.i].k}
                  && s'.procs[e.i] == DelHeld(s.procs[e.i].k, s.procs[e.i].k in s.keys))
            && (e.Call? || !(s.procs[e.i].AddKey? || s.procs[e.i].DelLock?) ==> s'.keys == s.keys)
  {
    if e.Run? && s.procs[e.i].AddKey? { InsertKeeps(s.keys, s.procs[e.i].k); }
    if e.Run? && s.procs[e.i].DelLock? {
      RemoveKeeps(s.keys, s.procs[e.i].k);
      FoundIffIn(s.keys, s.procs[e.i].k);
    }
    hide Insert, Remove, Found, Sorted;
  }

  lemma KeySetIn(keys: seq<Key>)
    ensures forall k :: k in KeySet(keys) <==> k in keys
  {
  }

  lemma PendingStep(s: State, e: Step)
    requires Inv(s) && Enabled(s, e)
    ensures PendingInv(Apply(s, e))
  {
    var s' := Apply(s, e);
    hide Apply, Enabled, Inv;
    forall i | 0 <= i < |s'.procs| && s'.procs[i].AddKey?
      ensures s'.procs[i].k in s'.m && s'.procs[i].k !in s'.keys && s'.procs[i].k !in s'.orphans
    {
      PendingOne(s, e, i);
    }
    forall i, j | 0 <= i < j < |s'.procs| && s'.procs[i].AddKey? && s'.procs[j].AddKey?
      ensures s'.procs[i].k != s'.procs[j].k
    {
      PendingTwo(s, e, i, j);
    }
  }

  lemma PendingOne(s: State, e: Step, i: nat)
    requires Inv(s) && Enabled(s, e) && i < |Apply(s, e).procs| && Apply(s, e).procs[i].AddKey?
    ensures var s' := Apply(s, e);
            s'.procs[i].k in s'.m && s'.procs[i].k !in s'.keys && s'.procs[i].k !in s'.orphans
  {
    hide Insert, Remove, Found, Search, Less, Sorted;
    KeysAfter(s, e);
    KeySetIn(s.keys);
    KeySetIn(Apply(s, e).keys);
    hide Insert, Remove, Found, Sorted, KeySet, DoInv, LockInv, Awaited;
  }

  lemma PendingTwo(s: State, e: Step, i: nat, j: nat)
    requires Inv(s) && Enabled(s, e) && i < j < |Apply(s, e).procs|
    requires Apply(s, e).procs[i].AddKey? && Apply(s, e).procs[j].AddKey?
    ensures Apply(s, e).procs[i].k != Apply(s, e).procs[j].k
  {
    hide Insert, Remove, Found, Sorted, KeySet, DoInv, LockInv, DeleteInv, ListInv, Awaited;
  }

  lemma DeleteStep(s: State, e: Step)
    requires Inv(s) && Enabled(s, e)
    ensures DeleteInv(Apply(s, e))
  {
    var s' := Apply(s, e);
    hide Apply, Enabled, Inv;
    forall i | 0 <= i < |s'.procs| && s'.procs[i].DelHeld?
      ensures DeleteAt(s', i)
    {
      DeleteOne(s, e, i);
    }
  }

  lemma DeleteOne(s: State, e: Step, i: nat)
    requires Inv(s) && Enabled(s, e) && i < |Apply(s, e).procs| && Apply(s, e).procs[i].DelHeld?
    ensures DeleteAt(Apply(s, e), i)
  {
    hide Insert, Remove, Found, Search, Less, Sorted;
    KeysAfter(s, e);
    KeySetIn(s.keys);
    KeySetIn(Apply(s, e).keys);
    if i < |s.procs| && s.procs[i].DelHeld? { assert DeleteAt(s, i); }
    hide Insert, Remove, Found, Sorted, KeySet, DoInv, Awaited;
  }

  lemma DoStep(s: State, e: Step)
    requires Inv(s) && Enabled(s, e)
    ensures DoInv(Apply(s, e))
  {
    hide Insert, Remove, Found, Sorted, PendingInv, DeleteInv, Awaited;
  }

  lemma ListStep(s: State, e: Step)
    requires Inv(s) && Enabled(s, e)
    ensures ListInv(Apply(s, e))
  {
    hide Insert, Remove, Found, Search, Less, Sorted;
    KeysAfter(s, e);
    KeySetIn(s.keys);
    KeySetIn(Apply(s, e).keys);
    var s' := Apply(s, e);
    hide Insert, Remove, Found, Sorted, KeySet, DoInv, LockInv, Apply, Enabled, PendingInv, DeleteInv, Awaited;
    forall k | k in s'.m
      ensures k in s'.keys || k in s'.orphans || Awaited(s', k)
    {
      AccountedFor(s, e, k);
    }
  }

  lemma AccountedFor(s: State, e: Step, k: Key)
    requires Inv(s) && Enabled(s, e) && k in Apply(s, e).m
    ensures var s' := Apply(s, e); k in s'.keys || k in s'.orphans || Awaited(s', k)
  {
    hide Insert, Remove, Found, Search, Less, Sorted;
    KeysAfter(s, e);
    KeySetIn(s.keys);
    KeySetIn(Apply(s, e).keys);
    var s' := Apply(s, e);
    hide Insert, Remove, Found, Sorted, KeySet, DoInv;
    if e.Run? { assert s'.procs[e.i] == s'.procs[e.i]; }
    if k in s.m && Awaited(s, k) {
      var j :| 0 <= j < |s.procs| && Holds(s.procs[j], k);
      if !(e.Run? && e.i == j) { assert Holds(s'.procs[j], k); }
    } else if e.Run? {
      if Holds(s'.procs[e.i], k) { }
    }
  }

  // ----- every run -----

  ghost predicate ValidRun(s: State, es: seq<Step>)
    decreases |es|
  {
    |es| == 0 || (Enabled(s, es[0]) && ValidRun(Apply(s, es[0]), es[1..]))
  }

  ghost function After(s: State, es: seq<Step>): State
    requires ValidRun(s, es)
    decreases |es|
  {
    if |es| == 0 then s else After(Apply(s, es[0]), es[1..])
  }

  lemma {:induction false} RunInv(s: State, es: seq<Step>)
    requires Inv(s) && ValidRun(s, es)
    ensures Inv(After(s, es))
    decreases |es|
  {
    hide Inv, Enabled, Apply;
    if |es| > 0 {
      InvStep(s, es[0]);
      RunInv(Apply(s, es[0]), es[1..]);
    }
  }

  /** In every reachable state the key list is strictly sorted, every listed key is in the
      map, every key a Do call has visited was present (so its type assertion on the loaded
      value succeeds), and a pending addKey names a stored key that is not listed. */
  lemma ListedKeysPresent(es: seq<Step>)
    requires ValidRun(INIT, es)
    ensures var s := After(INIT, es);
            && Sorted(s.keys) && (forall k :: k in s.keys ==> k in s.m)
            && (forall i, j :: 0 <= i < |s.procs| && s.procs[i].DoIter? && 0 <= j < |s.procs[i].seen| ==>
                  s.procs[i].seen[j].1.Some?)
            && (forall i :: 0 <= i < |s.procs| && s.procs[i].AddKey? ==> s.procs[i].k in s.m && s.procs[i].k !in s.keys)
  {
    InitInv();
    RunInv(INIT, es);
    hide ValidRun, After;
  }

  predicate Quiet(s: State) { forall i :: 0 <= i < |s.procs| ==> s.procs[i].Finished? }

  /** A Store step of Set writes a key that a Delete has taken out of the map after the
      Set found it there. */
  predicate StoresAbsent(s: State, e: Step) {
    e.Run? && e.i < |s.procs| && s.procs[e.i].SetStore? && s.procs[e.i].k !in s.m
  }

  ghost predicate RunStoresAbsent(s: State, es: seq<Step>)
    requires ValidRun(s, es)
    decreases |es|
  {
    |es| > 0 && (StoresAbsent(s, es[0]) || RunStoresAbsent(Apply(s, es[0]), es[1..]))
  }

  /** Once all calls have returned, the list names exactly the keys of the map if and only
      if no Set stored a key that a concurrent Delete had just removed. */
  lemma ListMatchesMap(es: seq<Step>)
    requires ValidRun(INIT, es) && Quiet(After(INIT, es))
    ensures KeySet(After(INIT, es).keys) == After(INIT, es).m.Keys <==> !RunStoresAbsent(INIT, es)
  {
    InitInv();
    RunInv(INIT, es);
    OrphansOfRun(INIT, es);
    var s := After(INIT, es);
    hide ValidRun, After, RunStoresAbsent;
    KeySetIn(s.keys);
    hide KeySet;
    if s.orphans == {} {
      assert forall k :: k in s.m.Keys <==> k in KeySet(s.keys);
    } else {
      var k :| k in s.orphans;
      assert k in s.m && k !in s.keys;
    }
  }

  // ----- what a caller can keep to -----

  /** A Set that has loaded its key and not yet stored it. */
  predicate Setting(p: Proc, k: Key) {
    (p.SetLoadOrStore? || p.SetStore?) && p.k == k
  }

  predicate Deleting(p: Proc, k: Key) {
    (p.DelLock? || p.DelHeld?) && p.k == k
  }

  /** A Delete of the same key is in flight between the Load and the Store of a Set. */
  ghost predicate Overlap(s: State) {
    exists i, j, k :: 0 <= i < |s.procs| && 0 <= j < |s.procs| && Setting(s.procs[i], k) && Deleting(s.procs[j], k)
  }

  ghost predicate NeverOverlaps(s: State, es: seq<Step>)
    requires ValidRun(s, es)
    decreases |es|
  {
    !Overlap(s) && (|es| > 0 ==> NeverOverlaps(Apply(s, es[0]), es[1..]))
  }

  /** What a Set is about to overwrite is still there. */
  ghost predicate StoresKnown(s: State) {
    forall i :: 0 <= i < |s.procs| && s.procs[i].SetStore? ==> s.procs[i].k in s.m
  }

  lemma StoresKnownStep(s: State, e: Step)
    requires StoresKnown(s) && Enabled(s, e) && !Overlap(s)
    ensures StoresKnown(Apply(s, e)) && !StoresAbsent(s, e)
  {
    hide Insert, Remove, Found, Search;
    if e.Run? && s.procs[e.i].DelHeld? {
      assert Deleting(s.procs[e.i], s.procs[e.i].k);
    }
  }

  lemma {:induction false} NoneAbsent(s: State, es: seq<Step>)
    requires StoresKnown(s) && ValidRun(s, es) && NeverOverlaps(s, es)
    ensures !RunStoresAbsent(s, es)
    decreases |es|
  {
    if |es| > 0 {
      StoresKnownStep(s, es[0]);
      hide Apply, Enabled, StoresAbsent, Overlap, StoresKnown;
      NoneAbsent(Apply(s, es[0]), es[1..]);
    }
  }

  /** If no Delete of a key is in flight while a Set of it is between its Load and its Store,
      the list names exactly the stored keys once all calls have returned. */
  lemma KeptApart(es: seq<Step>)
    requires ValidRun(INIT, es) && NeverOverlaps(INIT, es) && Quiet(After(INIT, es))
    ensures !RunStoresAbsent(INIT, es) && KeySet(After(INIT, es).keys) == After(INIT, es).m.Keys
  {
    assert StoresKnown(INIT);
    NoneAbsent(INIT, es);
    ListMatchesMap(es);
    hide ValidRun, After, NeverOverlaps, RunStoresAbsent;
  }

  lemma {:induction false} OrphansOfRun(s: State, es: seq<Step>)
    requires ValidRun(s, es)
    ensures s.orphans <= After(s, es).orphans
    ensures After(s, es).orphans != {} <==> s.orphans != {} || RunStoresAbsent(s, es)
    decreases |es|
  {
    if |es| > 0 {
      OrphanStep(s, es[0]);
      hide Apply, Enabled, StoresAbsent;
      OrphansOfRun(Apply(s, es[0]), es[1..]);
    }
  }

  lemma OrphanStep(s: State, e: Step)
    requires Enabled(s, e)
    ensures s.orphans <= Apply(s, e).orphans
    ensures Apply(s, e).orphans != {} <==> s.orphans != {} || StoresAbsent(s, e)
  {
    hide Insert, Remove, Search;
  }

  /** Such a key stays in the map and out of the list for ever: later Set, Add and Delete
      calls leave it unlisted. */
  lemma OrphansStay(es: seq<Step>, more: seq<Step>, k: Key)
    requires ValidRun(INIT, es) && ValidRun(After(INIT, es), more) && k in After(INIT, es).orphans
    ensures var s := After(After(INIT, es), more); k in s.m && k !in s.keys
  {
    InitInv();
    RunInv(INIT, es);
    RunInv(After(INIT, es), more);
    OrphansOfRun(After(INIT, es), more);
    hide ValidRun, After;
  }

  /** Such a run: a Set finds A, Delete removes it, and Set stores it again. */
  function FirstSet(v: Var): seq<Step> {
    [Call(SetLoad(A, v))] + ([Run(0)] + ([Run(0)] + ([Run(0)] + [])))
  }

  function RacingSet(v: Var): seq<Step> {
    [Call(SetLoad(A, v))] + ([Run(1)] + ([Call(DelLock(A))] + ([Run(2)] + ([Run(2)] + ([Run(1)] + [])))))
  }

  const A: Key := [97]

  lemma LostKey(v: Var)
    ensures ValidRun(INIT, FirstSet(v)) && ValidRun(After(INIT, FirstSet(v)), RacingSet(v))
    ensures var s := After(After(INIT, FirstSet(v)), RacingSet(v));
            Quiet(s) && A in s.m && s.keys == []
  {
    AfterFirst(v);
    AfterRacing(v);
    hide ValidRun, After, FirstSet, RacingSet;
  }

  lemma AfterFirst(v: Var)
    ensures ValidRun(INIT, FirstSet(v)) && After(INIT, FirstSet(v)) == State(map[A := v], [A], None, {}, [Finished], {})
  {
    var s1 := Apply(INIT, Call(SetLoad(A, v)));
    assert s1 == State(map[], [], None, {}, [SetLoad(A, v)], {});
    var s2 := Apply(s1, Run(0));
    assert s2 == State(map[], [], None, {}, [SetLoadOrStore(A, v)], {});
    var s3 := Apply(s2, Run(0));
    assert s3 == State(map[A := v], [], None, {}, [AddKey(A)], {});
    assert Insert([], A) == [A];
    var s4 := Apply(s3, Run(0));
    assert s4 == State(map[A := v], [A], None, {}, [Finished], {});
    hide Apply, Enabled, ValidRun, After;
    RunOf(s4, []);
    RunCons(s3, Run(0), []);
    RunCons(s2, Run(0), [Run(0)] + []);
    RunCons(s1, Run(0), [Run(0)] + ([Run(0)] + []));
    RunCons(INIT, Call(SetLoad(A, v)), [Run(0)] + ([Run(0)] + ([Run(0)] + [])));
  }

  lemma AfterRacing(v: Var)
    ensures var s := State(map[A := v], [A], None, {}, [Finished], {});
            && ValidRun(s, RacingSet(v))
            && After(s, RacingSet(v)) == State(map[A := v], [], None, {}, [Finished, Finished, Finished], {A})
  {
    var s0 := State(map[A := v], [A], None, {}, [Finished], {});
    var s1 := Apply(s0, Call(SetLoad(A, v)));
    assert s1 == State(map[A := v], [A], None, {}, [Finished, SetLoad(A, v)], {});
    var s2 := Apply(s1, Run(1));
    assert s2 == State(map[A := v], [A], None, {}, [Finished, SetStore(A, v)], {});
    var s3 := Apply(s2, Call(DelLock(A)));
    assert s3 == State(map[A := v], [A], None, {}, [Finished, SetStore(A, v), DelLock(A)], {});
    RemoveOnly();
    var s4 := Apply(s3, Run(2));
    assert s4 == State(map[A := v], [], Some(2), {}, [Finished, SetStore(A, v), DelHeld(A, true)], {});
    var s5 := Apply(s4, Run(2));
    assert s5 == State(map[], [], None, {}, [Finished, SetStore(A, v), Finished], {});
    var s6 := Apply(s5, Run(1));
    assert s6 == State(map[A := v], [], None, {}, [Finished, Finished, Finished], {A});
    hide Apply, Enabled, ValidRun, After;
    RunOf(s6, []);
    RunCons(s5, Run(1), []);
    RunCons(s4, Run(2), [Run(1)] + []);
    RunCons(s3, Run(2), [Run(2)] + ([Run(1)] + []));
    RunCons(s2, Call(DelLock(A)), [Run(2)] + ([Run(2)] + ([Run(1)] + [])));
    RunCons(s1, Run(1), [Call(DelLock(A))] + ([Run(2)] + ([Run(2)] + ([Run(1)] + []))));
    RunCons(s0, Call(SetLoad(A, v)), [Run(1)] + ([Call(DelLock(A))] + ([Run(2)] + ([Run(2)] + ([Run(1)] + [])))));
  }

  lemma RemoveOnly()
    ensures Remove([A], A) == [] && Found([A], A)
  {
    LessIrreflexive(A);
    assert Search([A], A) == 0;
  }

  lemma RunOf(s: State, es: seq<Step>)
    requires es == []
    ensures ValidRun(s, es) && After(s, es) == s
  {
  }

  lemma RunCons(s: State, e: Step, es: seq<Step>)
    requires Enabled(s, e) && ValidRun(Apply(s, e), es)
    ensures ValidRun(s, [e] + es) && After(s, [e] + es) == After(Apply(s, e), es)
  {
    assert ([e] + es)[0] == e && ([e] + es)[1..] == es;
  }
}
