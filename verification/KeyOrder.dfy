/** Go's order on strings, and lists sorted by it. */
module KeyOrder {
  import opened Basics

  type Key = Bytes

  /** Byte-wise lexicographic order, Go's < on strings. */
  predicate Less(a: Key, b: Key) {
    |b| > 0 && (|a| == 0 || a[0] < b[0] || (a[0] == b[0] && Less(a[1..], b[1..])))
  }

  lemma {:induction false} LessIrreflexive(a: Key)
    ensures !Less(a, a)
  {
    if |a| > 0 { LessIrreflexive(a[1..]); }
  }

  lemma {:induction false} LessTransitive(a: Key, b: Key, c: Key)
    requires Less(a, b) && Less(b, c)
    ensures Less(a, c)
  {
    if |a| > 0 && a[0] == b[0] && b[0] == c[0] { LessTransitive(a[1..], b[1..], c[1..]); }
  }

  lemma {:induction false} LessTotal(a: Key, b: Key)
    ensures Less(a, b) || a == b || Less(b, a)
  {
    if |a| > 0 && |b| > 0 && a[0] == b[0] {
      LessTotal(a[1..], b[1..]);
      if a[1..] == b[1..] { assert a == [a[0]] + a[1..] && b == [b[0]] + b[1..]; }
    }
  }

  ghost predicate Sorted(keys: seq<Key>) {
    forall i, j :: 0 <= i < j < |keys| ==> Less(keys[i], keys[j])
  }

  /** sort.SearchStrings: the first index whose key is not below k. */
  function Search(keys: seq<Key>, k: Key): (i: nat)
    ensures i <= |keys|
    ensures forall j :: 0 <= j < i ==> Less(keys[j], k)
    ensures i < |keys| ==> !Less(keys[i], k)
  {
    if |keys| == 0 || !Less(keys[0], k) then 0 else 1 + Search(keys[1..], k)
  }

  /** Insertion into a sorted list, unless the key is there. */
  function Insert(keys: seq<Key>, k: Key): seq<Key> {
    var i := Search(keys, k);
    if i >= |keys| then keys + [k]
    else if keys[i] != k then keys[..i] + [k] + keys[i..]
    else keys
  }

  function KeySet(keys: seq<Key>): set<Key> { set k | k in keys }

  lemma InsertKeeps(keys: seq<Key>, k: Key)
    requires Sorted(keys)
    ensures Sorted(Insert(keys, k)) && KeySet(Insert(keys, k)) == KeySet(keys) + {k}
  {
    var i := Search(keys, k);
    var r := Insert(keys, k);
    if i < |keys| && keys[i] != k {
      LessTotal(keys[i], k);
      forall a, b | 0 <= a < b < |r|
        ensures Less(r[a], r[b])
      {
        if b == i { } else if a == i && b > i + 1 { LessTransitive(k, keys[i], keys[b - 1]); }
      }
    }
    assert forall x :: x in r <==> x in keys || x == k by {
      if i < |keys| && keys[i] != k { assert keys == keys[..i] + keys[i..]; }
    }
  }
}
