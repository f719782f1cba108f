/** wasm_exec.js: the reference-counted table of the JavaScript values that Go holds. */
module JsValues {

  import opened Basics
  import opened Words

  /** JavaScript values; a number is given by its IEEE 754 bits, what has an identity by a name. */
  datatype JsValue =
    | Undefined
    | Null
    | Bool(b: bool)
    | Number(bits: u64)
    | BigInt(n: int)
    | Str(s: string)
    | Symbol(name: nat)
    | Object(name: nat)
    | Function(name: nat)

  const PLUS_ZERO: u64 := 0
  const MINUS_ZERO: u64 := 0x8000_0000_0000_0000
  const NAN_HEAD: u32 := 0x7FF80000
  const NAN: u64 := 0x7FF8_0000_0000_0000
  const TWO32: nat := 0x1_0000_0000

  predicate IsNaN(bits: u64) {
    bits / 0x10_0000_0000_0000 % 0x800 == 0x7FF && bits % 0x10_0000_0000_0000 != 0
  }

  predicate IsZero(bits: u64) { bits == PLUS_ZERO || bits == MINUS_ZERO }

  /** Undefined and numbers other than 0 travel as their own bits. */
  predicate Direct(v: JsValue) {
    v.Undefined? || (v.Number? && !IsZero(v.bits))
  }

  /** The key under which a Map finds v: both zeros are one key. */
  function Key(v: JsValue): JsValue {
    if v.Number? && IsZero(v.bits) then Number(PLUS_ZERO) else v
  }

  /** What is left of a value after the trip: one zero and one NaN. */
  function Canonical(v: JsValue): JsValue {
    if v.Number? && IsNaN(v.bits) then Number(NAN) else Key(v)
  }

  function TypeFlag(v: JsValue): nat {
    match v
    case Object(_) => 1
    case Str(_) => 2
    case Symbol(_) => 3
    case Function(_) => 4
    case _ => 0
  }

  /** The eight bytes of a reference: NAN_HEAD | flag above the id. */
  function MakeRef(flag: nat, id: nat): u64
    requires flag <= 4
  {
    (NAN_HEAD + flag) * TWO32 + id % TWO32
  }

  function IdOf(ref: u64): u32 { ref % TWO32 }

  lemma RefParts(flag: nat, id: nat)
    requires flag <= 4
    ensures IsNaN(MakeRef(flag, id)) && !IsZero(MakeRef(flag, id))
    ensures IdOf(MakeRef(flag, id)) == id % TWO32 && MakeRef(flag, id) / TWO32 == NAN_HEAD + flag
  {
    var low := 0x8_0000_0000_0000 + flag * TWO32 + id % TWO32;
    assert MakeRef(flag, id) == 0x7FF * 0x10_0000_0000_0000 + low;
  }

  datatype Count = Infinite | Finite(n: int)

  function Down(c: Count): Count {
    if c.Infinite? then c else Finite(c.n - 1)
  }

  function Up(c: Count): Count {
    if c.Infinite? then c else Finite(c.n + 1)
  }

  const GLOBAL: JsValue := Object(0)
  const GO: JsValue := Object(1)

  const PREDEFINED: seq<JsValue> :=
    [Number(NAN), Number(PLUS_ZERO), Null, Bool(true), Bool(false), GLOBAL, GO]

  const PREDEFINED_IDS: map<JsValue, nat> :=
    map[Number(PLUS_ZERO) := 1, Null := 2, Bool(true) := 3, Bool(false) := 4, GLOBAL := 5, GO := 6]

  // ----- the state of the table -----

  /** The four collections, and the references Go holds: one for each store that no finalizer
      has answered yet. */
  datatype State = State(values: seq<JsValue>, refCounts: seq<Count>, ids: map<JsValue, nat>,
                         idPool: seq<nat>, held: multiset<JsValue>)

  ghost predicate Shape(t: State) {
    && |t.refCounts| == |t.values| >= 7 && t.values[..7] == PREDEFINED
    && (forall v <- PREDEFINED_IDS.Keys :: v in t.ids && t.ids[v] == PREDEFINED_IDS[v])
    && (forall id: nat :: id < |t.values| ==> (t.refCounts[id].Infinite? <==> id < 7))
  }

  ghost predicate Live(t: State, id: nat)
    requires id < |t.refCounts|
  {
    t.refCounts[id].Infinite? || t.refCounts[id].n > 0
  }

  /** An id in the map is the slot of its value, and its count is the references held. */
  ghost predicate Mapped(t: State, v: JsValue)
    requires v in t.ids && |t.refCounts| == |t.values|
  {
    var id := t.ids[v];
    && !Direct(v) && Key(v) == v && id < |t.values| && t.values[id] == v
    && (id >= 7 ==> t.refCounts[id] == Finite(t.held[v]) && t.held[v] > 0)
  }

  /** A slot is in use and in the map, or cleared and in the pool. */
  ghost predicate Slot(t: State, id: nat)
    requires id < |t.values| == |t.refCounts|
  {
    if Live(t, id) then t.values[id] in t.ids && t.ids[t.values[id]] == id
    else id in t.idPool && t.values[id] == Null
  }

  ghost predicate Pool(t: State)
    requires |t.refCounts| == |t.values|
  {
    && (forall i :: 0 <= i < |t.idPool| ==> 7 <= t.idPool[i] < |t.values| && !Live(t, t.idPool[i]))
    && (forall i, j :: 0 <= i < j < |t.idPool| ==> t.idPool[i] != t.idPool[j])
  }

  ghost predicate Valid(t: State) {
    && Shape(t)
    && (forall v <- t.ids.Keys :: Mapped(t, v))
    && (forall id: nat :: 7 <= id < |t.values| ==> Slot(t, id))
    && Pool(t)
    && HeldListed(t)
  }

  ghost predicate HeldListed(t: State) {
    forall v <- t.held :: v in t.ids && t.ids[v] >= 7
  }

  /** ids and values are inverse on the live slots that were allocated. */
  lemma Inverse(t: State, v: JsValue, id: nat)
    requires Valid(t) && 7 <= id < |t.values|
    ensures v in t.ids && t.ids[v] == id <==> Live(t, id) && t.values[id] == v
  {
    assert Slot(t, id);
    if v in t.ids { assert Mapped(t, v); }
  }

  // ----- stores -----

  function Counted(t: State, v: JsValue): multiset<JsValue> {
    if Key(v) in PREDEFINED_IDS then t.held else t.held + multiset{v}
  }

  /** A value that has an id. */
  function StoredOld(t: State, v: JsValue): State
    requires Key(v) in t.ids && t.ids[Key(v)] < |t.refCounts|
  {
    var id := t.ids[Key(v)];
    t.(refCounts := t.refCounts[id := Up(t.refCounts[id])], held := Counted(t, v))
  }

  /** A value that gets an id: the last one given back, or the next new one. */
  function StoredNew(t: State, v: JsValue): State
    requires |t.refCounts| == |t.values|
    requires |t.idPool| > 0 ==> t.idPool[|t.idPool| - 1] < |t.values|
  {
    if |t.idPool| > 0 then
      var id := t.idPool[|t.idPool| - 1];
      State(t.values[id := v], t.refCounts[id := Finite(1)], t.ids[v := id],
            t.idPool[..|t.idPool| - 1], t.held + multiset{v})
    else
      State(t.values + [v], t.refCounts + [Finite(1)], t.ids[v := |t.values|], [], t.held + multiset{v})
  }

  lemma StoredOldValid(t: State, v: JsValue)
    requires Valid(t) && !Direct(v) && Key(v) in t.ids
    ensures t.ids[Key(v)] < |t.refCounts| && Valid(StoredOld(t, v))
  {
    hide Direct, Key, Slot, Pool, HeldListed, Mapped;
    OldLive(t, v);
    var u := StoredOld(t, v);
    OldShape(t, v);
    forall w <- u.ids.Keys
      ensures Mapped(u, w)
    {
      OldMapped(t, v, w);
    }
    forall id: nat | 7 <= id < |u.values|
      ensures Slot(u, id)
    {
      OldSlot(t, v, id);
    }
  }

  lemma OldShape(t: State, v: JsValue)
    requires Valid(t) && !Direct(v) && Key(v) in t.ids && t.ids[Key(v)] < |t.refCounts|
    ensures Shape(StoredOld(t, v)) && Pool(StoredOld(t, v)) && HeldListed(StoredOld(t, v))
  {
    OldKey(t, v);
    hide Direct, Key, Mapped;
    var id := t.ids[Key(v)];
    assert Mapped(t, Key(v));
    OldLive(t, v);
    if id >= 7 {
      assert Slot(t, id);
    }
  }

  lemma OldLive(t: State, v: JsValue)
    requires Valid(t) && Key(v) in t.ids
    ensures t.ids[Key(v)] < |t.refCounts| && Live(t, t.ids[Key(v)])
  {
    hide Direct, Key;
    assert Mapped(t, Key(v));
  }

  lemma OldMapped(t: State, v: JsValue, w: JsValue)
    requires Valid(t) && !Direct(v) && Key(v) in t.ids && t.ids[Key(v)] < |t.refCounts| && w in t.ids
    ensures Mapped(StoredOld(t, v), w)
  {
    OldKey(t, v);
    hide Direct, Key, Pool;
    assert Mapped(t, Key(v));
    assert Mapped(t, w);
  }

  lemma OldSlot(t: State, v: JsValue, id: nat)
    requires Valid(t) && !Direct(v) && Key(v) in t.ids && t.ids[Key(v)] < |t.refCounts| && 7 <= id < |t.values|
    ensures Slot(StoredOld(t, v), id)
  {
    hide Direct, Key, Mapped, Pool;
    OldLive(t, v);
    assert Slot(t, id);
  }

  /** Of the values with an id only the predefined ones are not counted. */
  lemma OldKey(t: State, v: JsValue)
    requires Valid(t) && !Direct(v) && Key(v) in t.ids
    ensures Key(v) in PREDEFINED_IDS <==> t.ids[Key(v)] < 7
    ensures Key(v) !in PREDEFINED_IDS ==> Key(v) == v
  {
    assert Mapped(t, Key(v));
    var id := t.ids[Key(v)];
    if id < 7 {
      assert t.values[..7][id] == t.values[id];
    }
  }

  lemma StoredNewValid(t: State, v: JsValue)
    requires Valid(t) && !Direct(v) && Key(v) !in t.ids
    ensures |t.idPool| > 0 ==> t.idPool[|t.idPool| - 1] < |t.values|
    ensures Valid(StoredNew(t, v)) && Key(v) == v && v !in PREDEFINED_IDS
  {
    NewKey(t, v);
    hide Direct, Key, Mapped, Slot, Pool, Shape, HeldListed;
    var u := StoredNew(t, v);
    NewShape(t, v);
    NewPool(t, v);
    forall w <- u.ids.Keys
      ensures Mapped(u, w)
    {
      NewMapped(t, v, w);
    }
    forall k: nat | 7 <= k < |u.values|
      ensures Slot(u, k)
    {
      NewSlot(t, v, k);
    }
  }

  lemma NewShape(t: State, v: JsValue)
    requires Valid(t) && v !in t.ids
    ensures |t.idPool| > 0 ==> 7 <= t.idPool[|t.idPool| - 1] < |t.values|
    ensures Shape(StoredNew(t, v)) && HeldListed(StoredNew(t, v))
  {
    hide Direct, Key, Mapped, Slot;
    assert StoredNew(t, v).values[..7] == t.values[..7];
  }

  lemma NewPool(t: State, v: JsValue)
    requires Valid(t) && v !in t.ids
    ensures |t.idPool| > 0 ==> 7 <= t.idPool[|t.idPool| - 1] < |t.values|
    ensures |StoredNew(t, v).refCounts| == |StoredNew(t, v).values| && Pool(StoredNew(t, v))
  {
    hide Direct, Key, Mapped, Slot;
  }

  lemma NewMapped(t: State, v: JsValue, w: JsValue)
    requires Valid(t) && !Direct(v) && Key(v) == v && v !in t.ids && (w in t.ids || w == v)
    ensures |t.idPool| > 0 ==> t.idPool[|t.idPool| - 1] < |t.values|
    ensures |StoredNew(t, v).refCounts| == |StoredNew(t, v).values| && Mapped(StoredNew(t, v), w)
  {
    hide Direct, Key, Slot;
    var id := StoredNew(t, v).ids[v];
    assert t.held[v] == 0;
    if w != v {
      assert Mapped(t, w);
      NotThatSlot(t, w, id);
    }
  }

  lemma NewSlot(t: State, v: JsValue, k: nat)
    requires Valid(t) && !Direct(v) && Key(v) == v && v !in t.ids
    ensures |t.idPool| > 0 ==> t.idPool[|t.idPool| - 1] < |t.values|
    ensures 7 <= k < |StoredNew(t, v).values| ==> Slot(StoredNew(t, v), k)
  {
    hide Direct, Key, Mapped;
    var u := StoredNew(t, v);
    if 7 <= k < |u.values| && k != u.ids[v] { StaysSlot(t, v, k); }
  }

  lemma NewKey(t: State, v: JsValue)
    requires Valid(t) && !Direct(v) && Key(v) !in t.ids
    ensures Key(v) == v && v !in PREDEFINED_IDS
  {
    assert Number(PLUS_ZERO) in PREDEFINED_IDS;
  }

  lemma NotThatSlot(t: State, w: JsValue, id: nat)
    requires Valid(t) && w in t.ids && (id < |t.values| ==> !Live(t, id))
    ensures t.ids[w] != id
  {
    assert Mapped(t, w);
  }

  lemma StaysSlot(t: State, v: JsValue, k: nat)
    requires Valid(t) && !Direct(v) && Key(v) == v && v !in t.ids && 7 <= k < |t.values|
    requires |t.idPool| > 0 ==> k != t.idPool[|t.idPool| - 1]
    ensures |t.idPool| > 0 ==> t.idPool[|t.idPool| - 1] < |t.values|
    ensures Slot(StoredNew(t, v), k)
  {
    hide Direct, Key;
    assert Slot(t, k);
    if !Live(t, k) {
      var i :| 0 <= i < |t.idPool| && t.idPool[i] == k;
      assert StoredNew(t, v).idPool[i] == k;
    }
  }

  // ----- finalizers -----

  function Finalized(t: State, id: nat): State
    requires id < |t.values| == |t.refCounts|
  {
    var v := t.values[id];
    var c := Down(t.refCounts[id]);
    if c.Infinite? then t
    else if c.n != 0 then
      t.(refCounts := t.refCounts[id := c], held := t.held - multiset{v})
    else
      State(t.values[id := Null], t.refCounts[id := c], t.ids - {v}, t.idPool + [id], t.held - multiset{v})
  }

  lemma FinalizedValid(t: State, id: nat)
    requires Valid(t) && id < |t.values| && Live(t, id)
    ensures Valid(Finalized(t, id))
  {
    hide Direct, Key, Mapped, Slot, Pool;
    if id >= 7 {
      var u := Finalized(t, id);
      FinalizedPool(t, id);
      forall w <- u.ids.Keys
        ensures Mapped(u, w)
      {
        FinalizedMapped(t, id, w);
      }
      forall k: nat | 7 <= k < |u.values|
        ensures Slot(u, k)
      {
        FinalizedSlot(t, id, k);
      }
      assert u.values[..7] == t.values[..7];
      FinalizedHeld(t, id);
    }
  }

  /** The last reference to a value goes when its count reaches zero. */
  lemma FinalizedHeld(t: State, id: nat)
    requires Valid(t) && 7 <= id < |t.values| && Live(t, id)
    ensures HeldListed(Finalized(t, id))
    ensures t.values[id] in t.held && t.refCounts[id] == Finite(t.held[t.values[id]])
    ensures t.values[id] !in PREDEFINED_IDS
  {
    hide Direct, Key, Pool;
    assert Slot(t, id);
    assert Mapped(t, t.values[id]);
  }

  lemma FinalizedPool(t: State, id: nat)
    requires Valid(t) && 7 <= id < |t.values| && Live(t, id)
    ensures Pool(Finalized(t, id))
  {
    hide Direct, Key, Mapped, Slot, HeldListed;
    var u := Finalized(t, id);
    assert forall i :: 0 <= i < |t.idPool| ==> t.idPool[i] != id && u.idPool[i] == t.idPool[i];
    forall i | 0 <= i < |u.idPool|
      ensures 7 <= u.idPool[i] < |u.values| && !Live(u, u.idPool[i])
    {
      if i < |t.idPool| { assert !Live(t, t.idPool[i]); }
    }
  }

  lemma FinalizedMapped(t: State, id: nat, w: JsValue)
    requires Valid(t) && 7 <= id < |t.values| && Live(t, id) && w in Finalized(t, id).ids
    ensures Mapped(Finalized(t, id), w)
  {
    hide Direct, Key, Pool;
    assert Mapped(t, w);
    assert Slot(t, id);
    assert Mapped(t, t.values[id]);
  }

  lemma FinalizedSlot(t: State, id: nat, k: nat)
    requires Valid(t) && 7 <= id < |t.values| && Live(t, id) && 7 <= k < |t.values|
    ensures Slot(Finalized(t, id), k)
  {
    hide Direct, Key, Mapped;
    var u := Finalized(t, id);
    assert Slot(t, k);
    assert Slot(t, id);
    if k == id {
      assert !Live(u, id) ==> u.idPool[|t.idPool|] == id;
    } else if !Live(t, k) {
      var i :| 0 <= i < |t.idPool| && t.idPool[i] == k;
      assert u.idPool[i] == k;
    }
  }

  // ----- references -----

  /** The eight bytes that stand for v. */
  ghost predicate Encodes(t: State, ref: u64, v: JsValue) {
    if v.Undefined? then ref == 0
    else if v.Number? && !IsZero(v.bits) then ref == if IsNaN(v.bits) then NAN else v.bits
    else Key(v) in t.ids && ref == MakeRef(TypeFlag(v), t.ids[Key(v)])
  }

  function Load(t: State, ref: u64): JsValue {
    if IsZero(ref) then Undefined
    else if !IsNaN(ref) then Number(ref)
    else if IdOf(ref) < |t.values| then t.values[IdOf(ref)]
    else Undefined
  }

  lemma LoadDirect(t: State, v: JsValue)
    requires Shape(t) && v.Number? && !IsZero(v.bits)
    ensures Load(t, if IsNaN(v.bits) then NAN else v.bits) == Canonical(v)
  {
    assert IsNaN(NAN) && IdOf(NAN) == 0;
    assert t.values[..7][0] == t.values[0];
  }

  lemma LoadSlot(t: State, v: JsValue)
    requires |t.refCounts| == |t.values| <= TWO32 && v in t.ids && Mapped(t, v)
    ensures forall flag: nat :: flag <= 4 ==> Load(t, MakeRef(flag, t.ids[v])) == v
  {
    hide Direct, Key, IsNaN, IsZero, MakeRef;
    forall flag: nat | flag <= 4
      ensures Load(t, MakeRef(flag, t.ids[v])) == v
    {
      RefParts(flag, t.ids[v]);
    }
  }

  /** As long as ids fit in 32 bits, loadValue returns what was stored. */
  lemma LoadEncoded(t: State, ref: u64, v: JsValue)
    requires Valid(t) && |t.values| <= TWO32 && Encodes(t, ref, v)
    ensures Load(t, ref) == Canonical(v)
  {
    if v.Number? && !IsZero(v.bits) {
      LoadDirect(t, v);
    } else if !v.Undefined? {
      hide Load, MakeRef;
      assert Mapped(t, Key(v));
      LoadSlot(t, Key(v));
    }
  }

  /** References are equal exactly when the values are: Go compares the references. */
  lemma EqualRefs(t: State, ref: u64, v: JsValue, ref': u64, v': JsValue)
    requires Valid(t) && |t.values| <= TWO32 && Encodes(t, ref, v) && Encodes(t, ref', v')
    ensures ref == ref' <==> Canonical(v) == Canonical(v')
  {
    LoadEncoded(t, ref, v);
    LoadEncoded(t, ref', v');
    if Canonical(v) == Canonical(v') {
      SameKind(v, v');
    }
  }

  lemma SameKind(v: JsValue, v': JsValue)
    requires Canonical(v) == Canonical(v')
    ensures Direct(v) == Direct(v') && (!Direct(v) ==> Key(v) == Key(v') && TypeFlag(v) == TypeFlag(v'))
    ensures v.Undefined? == v'.Undefined? && v.Number? == v'.Number?
    ensures Direct(v) && v.Number? ==> IsNaN(v.bits) == IsNaN(v'.bits) && (!IsNaN(v.bits) ==> v == v')
  {
    assert IsNaN(NAN) && !IsNaN(PLUS_ZERO) && !IsNaN(MINUS_ZERO);
  }

  /** The value needs a counted reference. */
  predicate Dynamic(v: JsValue) {
    !Direct(v) && Key(v) !in PREDEFINED_IDS
  }

  function Stored(t: State, v: JsValue): State
    requires |t.refCounts| == |t.values|
    requires Key(v) in t.ids ==> t.ids[Key(v)] < |t.refCounts|
    requires |t.idPool| > 0 ==> t.idPool[|t.idPool| - 1] < |t.values|
  {
    if Key(v) in t.ids then StoredOld(t, v) else StoredNew(t, v)
  }

  /** All that a store does to the table and to the references. */
  lemma StoreStep(t: State, v: JsValue)
    requires Valid(t) && !Direct(v)
    ensures |t.refCounts| == |t.values| && (|t.idPool| > 0 ==> t.idPool[|t.idPool| - 1] < |t.values|)
    ensures Key(v) in t.ids ==> t.ids[Key(v)] < |t.refCounts| && Stored(t, v) == StoredOld(t, v)
    ensures Key(v) in t.ids ==>
      Stored(t, v) == t.(refCounts := t.refCounts[t.ids[Key(v)] := Up(t.refCounts[t.ids[Key(v)]])],
                         held := Counted(t, v))
    ensures Valid(Stored(t, v)) && Key(v) in Stored(t, v).ids
    ensures Encodes(Stored(t, v), MakeRef(TypeFlag(v), Stored(t, v).ids[Key(v)]), v)
    ensures Counted(t, v) == if Dynamic(v) then t.held + multiset{v} else t.held
    ensures forall r: u64, w: JsValue :: Encodes(t, r, w) ==> Encodes(Stored(t, v), r, w)
    ensures |t.values| <= |Stored(t, v).values| <= |t.values| + 1
  {
    if Key(v) in t.ids { StoredOldValid(t, v); } else { StoredNewValid(t, v); }
    hide Valid;
    forall r: u64, w: JsValue | Encodes(t, r, w)
      ensures Encodes(Stored(t, v), r, w)
    {
      StoreKeepsRefs(t, v, r, w);
    }
  }

  lemma StoreKeepsRefs(t: State, v: JsValue, ref: u64, w: JsValue)
    requires Valid(t) && !Direct(v) && Encodes(t, ref, w)
    ensures
      if Key(v) in t.ids then
        t.ids[Key(v)] < |t.refCounts| && Encodes(StoredOld(t, v), ref, w)
      else
        && (|t.idPool| > 0 ==> t.idPool[|t.idPool| - 1] < |t.values|)
        && Encodes(StoredNew(t, v), ref, w)
  {
    if Key(v) in t.ids { assert Mapped(t, Key(v)); } else { NewKey(t, v); }
  }

  /** A finalizer harms no other reference: not even one to the same value. */
  lemma FinalizeKeepsRefs(t: State, id: nat, ref: u64, w: JsValue)
    requires Valid(t) && id < |t.values| && Live(t, id) && Encodes(t, ref, w)
    requires Dynamic(w) ==> w in Finalized(t, id).held
    ensures Encodes(Finalized(t, id), ref, w)
  {
    if id >= 7 {
      FinalizedValid(t, id);
      FinalizedHeld(t, id);
      if Dynamic(w) { OldKey(t, w); }
    }
  }

  // ----- the table -----

  class Table {
    var values: seq<JsValue>
    var refCounts: seq<Count>
    var ids: map<JsValue, nat>
    var idPool: seq<nat>
    ghost var held: multiset<JsValue>

    ghost function Now(): State
      reads this
    {
      State(values, refCounts, ids, idPool, held)
    }

    /** The initial tables of run. */
    constructor ()
      ensures Valid(Now()) && held == multiset{}
    {
      values := PREDEFINED;
      refCounts := seq(7, i => Infinite);
      ids := PREDEFINED_IDS;
      idPool := [];
      held := multiset{};
    }

    method StoreValue(v: JsValue) returns (ref: u64)
      requires Valid(Now())
      modifies this
      ensures Valid(Now()) && Encodes(Now(), ref, v)
      ensures held == if Dynamic(v) then old(held) + multiset{v} else old(held)
      ensures forall r: u64, w: JsValue :: Encodes(old(Now()), r, w) ==> Encodes(Now(), r, w)
      ensures old(|values|) <= |values| <= old(|values|) + 1
    {
      hide Valid, Key, StoredOld, StoredNew, MakeRef;
      if v.Number? && v.bits != PLUS_ZERO && v.bits != MINUS_ZERO {
        if IsNaN(v.bits) {
          return NAN_HEAD * TWO32;
        }
        return v.bits;
      }
      if v.Undefined? {
        return 0;
      }
      StoreStep(Now(), v);
      hide Encodes, Dynamic, Counted, IsNaN;
      ghost var t := Now();
      var id: nat;
      if Key(v) in ids {
        id := ids[Key(v)];
      } else {
        id := Allot(v);
      }
      refCounts := refCounts[id := Up(refCounts[id])];
      held := Counted(t, v);
      assert Now() == Stored(t, v);
      ref := MakeRef(TypeFlag(v), id);
    }

    /** An id for a value that has none: its count is still zero. */
    method Allot(v: JsValue) returns (id: nat)
      requires Valid(Now()) && !Direct(v) && Key(v) !in ids
      modifies this`values, this`refCounts, this`ids, this`idPool
      ensures Key(v) in Stored(old(Now()), v).ids && id == Stored(old(Now()), v).ids[Key(v)] < |refCounts|
      ensures refCounts[id] == Finite(0)
      ensures Now().(refCounts := refCounts[id := Finite(1)], held := Counted(old(Now()), v)) == Stored(old(Now()), v)
    {
      StoredNewValid(Now(), v);
      ghost var t := Now();
      hide Valid, Shape, Direct;
      if |idPool| > 0 {
        id := idPool[|idPool| - 1];
        idPool := idPool[..|idPool| - 1];
        values, refCounts := values[id := v], refCounts[id := Finite(0)];
      } else {
        id := |values|;
        values, refCounts := values + [v], refCounts + [Finite(0)];
      }
      ids := ids[v := id];
      ghost var u := StoredNew(t, v);
      assert u == Stored(t, v) && ids == u.ids && id == u.ids[v];
      assert values == u.values && idPool == u.idPool;
      assert refCounts[id := Finite(1)] == u.refCounts;
      hide StoredNew, Stored;
    }

    /** A reference that stands for a value gives that value, with one zero and one NaN. */
    method LoadValue(ref: u64) returns (v: JsValue)
      ensures v == Load(Now(), ref)
      ensures Valid(Now()) && |values| <= TWO32 ==>
                forall w: JsValue :: Encodes(Now(), ref, w) ==> v == Canonical(w)
    {
      if Valid(Now()) && |values| <= TWO32 {
        forall w: JsValue | Encodes(Now(), ref, w)
          ensures Load(Now(), ref) == Canonical(w)
        {
          LoadEncoded(Now(), ref, w);
        }
      }
      hide Valid, Encodes, Canonical;
      if IsZero(ref) {
        return Undefined;
      }
      if !IsNaN(ref) {
        return Number(ref);
      }
      var id := IdOf(ref);
      v := if id < |values| then values[id] else Undefined;
    }

    /** finalizeRef for a reference that Go holds. */
    method FinalizeRef(ref: u64)
      requires Valid(Now()) && IdOf(ref) < |values| && Live(Now(), IdOf(ref))
      modifies this
      ensures Valid(Now()) && |values| == old(|values|)
      ensures IdOf(ref) >= 7 ==> held == old(held) - multiset{old(values[IdOf(ref)])}
      ensures IdOf(ref) < 7 ==> held == old(held)
      ensures forall r: u64, w: JsValue :: Encodes(old(Now()), r, w) && (Dynamic(w) ==> w in held) ==>
                Encodes(Now(), r, w)
    {
      var id := IdOf(ref);
      ghost var t := Now();
      FinalizedValid(t, id);
      forall r: u64, w: JsValue | Encodes(t, r, w) && (Dynamic(w) ==> w in Finalized(t, id).held)
        ensures Encodes(Finalized(t, id), r, w)
      {
        FinalizeKeepsRefs(t, id, r, w);
      }
      if refCounts[id].Finite? {
        held := held - multiset{values[id]};
      }
      refCounts := refCounts[id := Down(refCounts[id])];
      if refCounts[id] == Finite(0) {
        var v := values[id];
        values := values[id := Null];
        ids := ids - {v};
        idPool := idPool + [id];
      }
      assert Now() == Finalized(t, id);
    }
  }

  // ----- any run -----

  /** Go stores a value, or its finalizer gives the k-th reference it holds back. Only
      references with a type flag have finalizers. */
  datatype Op = Store(v: JsValue) | Finalize(k: nat)

  function Once(v: JsValue): multiset<JsValue> {
    if Dynamic(v) then multiset{v} else multiset{}
  }

  function Total(vals: seq<JsValue>): multiset<JsValue> {
    if |vals| == 0 then multiset{} else Once(vals[0]) + Total(vals[1..])
  }

  function Without<T>(s: seq<T>, k: nat): seq<T>
    requires k < |s|
  {
    s[..k] + s[k + 1..]
  }

  lemma {:induction false} TotalWithout(vals: seq<JsValue>, k: nat)
    requires k < |vals|
    ensures Total(vals) == Total(Without(vals, k)) + Once(vals[k])
  {
    if k > 0 {
      TotalWithout(vals[1..], k - 1);
      assert Without(vals, k)[1..] == Without(vals[1..], k - 1);
    } else {
      assert Without(vals, 0) == vals[1..];
    }
  }

  lemma {:induction false} TotalHas(vals: seq<JsValue>, k: nat)
    requires k < |vals|
    ensures Once(vals[k]) <= Total(vals)
  {
    TotalWithout(vals, k);
  }

  lemma {:induction false} TotalSnoc(vals: seq<JsValue>, v: JsValue)
    ensures Total(vals + [v]) == Total(vals) + Once(v)
  {
    TotalWithout(vals + [v], |vals|);
    assert Without(vals + [v], |vals|) == vals;
  }

  /** The references Go holds stand for their values, and are all that the table counts. */
  ghost predicate Tracked(t: State, refs: seq<u64>, vals: seq<JsValue>) {
    && |refs| == |vals| && t.held == Total(vals)
    && (forall i :: 0 <= i < |refs| ==> Encodes(t, refs[i], vals[i]))
  }

  /** Through any run of stores and matching finalizers, the count of every allocated slot is
      the number of references still held to its value, and each of them still loads that
      value. */
  method Run(g: Table, ops: seq<Op>) returns (refs: seq<u64>, vals: seq<JsValue>)
    requires Valid(g.Now()) && g.held == multiset{} && |g.values| + |ops| <= TWO32
    modifies g
    ensures Valid(g.Now()) && Tracked(g.Now(), refs, vals)
    ensures forall i :: 0 <= i < |refs| == |vals| ==> Load(g.Now(), refs[i]) == Canonical(vals[i])
    ensures forall i, j :: 0 <= i < |refs| == |vals| && 0 <= j < |refs| ==>
      (refs[i] == refs[j] <==> Canonical(vals[i]) == Canonical(vals[j]))
  {
    hide Valid, Encodes, Load, Tracked, TypeFlag, Dynamic, Canonical;
    refs, vals := [], [];
    ghost var start := |g.values|;
    NoneHeld(g.Now());
    for n := 0 to |ops|
      invariant Valid(g.Now()) && |refs| == |vals| && Tracked(g.Now(), refs, vals) && |g.values| <= start + n
    {
      match ops[n]
      case Store(v) =>
        ghost var t := g.Now();
        var ref := g.StoreValue(v);
        Taken(t, g.Now(), refs, vals, ref, v);
        refs, vals := refs + [ref], vals + [v];
      case Finalize(k) =>
        if k < |refs| && TypeFlag(vals[k]) != 0 {
          refs, vals := GiveBack(g, refs, vals, k);
        }
    }
    AllLoad(g.Now(), refs, vals);
  }

  lemma NoneHeld(t: State)
    requires t.held == multiset{}
    ensures Tracked(t, [], [])
  {
  }

  lemma AllLoad(t: State, refs: seq<u64>, vals: seq<JsValue>)
    requires Valid(t) && |t.values| <= TWO32 && Tracked(t, refs, vals)
    ensures forall i :: 0 <= i < |refs| ==> Load(t, refs[i]) == Canonical(vals[i])
    ensures forall i, j :: 0 <= i < |refs| && 0 <= j < |refs| ==>
      (refs[i] == refs[j] <==> Canonical(vals[i]) == Canonical(vals[j]))
  {
    hide Valid, Encodes, Load, Canonical;
    forall i | 0 <= i < |refs|
      ensures Load(t, refs[i]) == Canonical(vals[i])
    {
      LoadEncoded(t, refs[i], vals[i]);
    }
    forall i, j | 0 <= i < |refs| && 0 <= j < |refs|
      ensures refs[i] == refs[j] <==> Canonical(vals[i]) == Canonical(vals[j])
    {
      EqualRefs(t, refs[i], vals[i], refs[j], vals[j]);
    }
  }

  method GiveBack(g: Table, refs: seq<u64>, vals: seq<JsValue>, k: nat)
    returns (refs': seq<u64>, vals': seq<JsValue>)
    requires Valid(g.Now()) && Tracked(g.Now(), refs, vals) && |g.values| <= TWO32
    requires k < |refs| && TypeFlag(vals[k]) != 0
    modifies g
    ensures Valid(g.Now()) && Tracked(g.Now(), refs', vals') && |g.values| == old(|g.values|)
    ensures refs' == Without(refs, k) && vals' == Without(vals, k)
  {
    hide Valid, Encodes, Total, Without, TypeFlag, Dynamic, IdOf;
    ghost var t := g.Now();
    TotalHas(vals, k);
    HeldIsLive(t, refs[k], vals[k]);
    g.FinalizeRef(refs[k]);
    GivenBack(t, g.Now(), refs, vals, k);
    refs', vals' := Without(refs, k), Without(vals, k);
  }

  lemma GivenBack(t: State, u: State, refs: seq<u64>, vals: seq<JsValue>, k: nat)
    requires Tracked(t, refs, vals) && k < |refs| && u.held == t.held - Once(vals[k])
    requires forall r: u64, w: JsValue :: Encodes(t, r, w) && (Dynamic(w) ==> w in u.held) ==> Encodes(u, r, w)
    ensures Tracked(u, Without(refs, k), Without(vals, k))
  {
    hide Encodes, Dynamic, Total;
    TotalWithout(vals, k);
    var refs', vals' := Without(refs, k), Without(vals, k);
    forall i | 0 <= i < |refs'|
      ensures Encodes(u, refs'[i], vals'[i])
    {
      TotalHas(vals', i);
      var j := if i < k then i else i + 1;
      assert Encodes(t, refs[j], vals[j]);
    }
  }

  lemma Taken(t: State, u: State, refs: seq<u64>, vals: seq<JsValue>, ref: u64, v: JsValue)
    requires Tracked(t, refs, vals) && u.held == t.held + Once(v) && Encodes(u, ref, v)
    requires forall r: u64, w: JsValue :: Encodes(t, r, w) ==> Encodes(u, r, w)
    ensures Tracked(u, refs + [ref], vals + [v])
  {
    hide Encodes, Dynamic, Total;
    TotalSnoc(vals, v);
  }

  /** A held reference with a type flag names a live slot that holds its value. */
  lemma HeldIsLive(t: State, ref: u64, v: JsValue)
    requires Valid(t) && |t.values| <= TWO32 && Encodes(t, ref, v) && TypeFlag(v) != 0
    requires Once(v) <= t.held
    ensures IdOf(ref) < |t.values| == |t.refCounts| && Live(t, IdOf(ref)) && t.values[IdOf(ref)] == v
    ensures IdOf(ref) >= 7 <==> Dynamic(v)
  {
    assert Mapped(t, Key(v));
    OldLive(t, v);
    OldKey(t, v);
    RefParts(TypeFlag(v), t.ids[Key(v)]);
  }
}
