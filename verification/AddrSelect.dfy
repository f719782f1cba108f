/** net's destination address selection after RFC 6724. */
module AddrSelect {
  import opened Basics
  import opened Words

  /** An IP address: 4 or 16 bytes; nil is the empty one. */
  type IP = Bytes

  function To4(ip: IP): IP {
    if |ip| == 4 then ip
    else if |ip| == 16 && (forall k :: 0 <= k < 10 ==> ip[k] == 0) && ip[10] == 0xFF && ip[11] == 0xFF then ip[12..]
    else []
  }

  predicate IsV4(ip: IP) { To4(ip) != [] }

  // ----- the policy table -----

  /** tag is the label of RFC 6724. */
  datatype Entry = Entry(prefix: IP, ones: nat, precedence: nat, tag: nat)

  function Padded(head: Bytes): IP
    requires |head| <= 16
  {
    head + seq(16 - |head|, _ => 0)
  }

  const V4_IN_V6: Bytes := [0, 0, 0, 0, 0, 0, 0, 0, 0, 0, 0xFF, 0xFF]
  const LOOPBACK: IP := [0, 0, 0, 0, 0, 0, 0, 0, 0, 0, 0, 0, 0, 0, 0, 1]

  /** RFC 6724 section 2.1, longest masks first. */
  const POLICY_TABLE: seq<Entry> := [
    Entry(LOOPBACK, 128, 50, 0),
    Entry(Padded(V4_IN_V6), 96, 35, 4),
    Entry(Padded([]), 96, 1, 3),
    Entry(Padded([0x20, 0x01]), 32, 5, 5),
    Entry(Padded([0x20, 0x02]), 16, 30, 2),
    Entry(Padded([0x3F, 0xFE]), 16, 1, 12),
    Entry(Padded([0xFE, 0xC0]), 10, 1, 11),
    Entry(Padded([0xFC]), 7, 3, 13),
    Entry(Padded([]), 0, 40, 1)]

  function Quotient(a: nat, d: nat): nat
    requires d >= 1
  {
    DivBound(a, d);
    a / d
  }

  /** The n most significant bits of a byte. */
  function Top(b: Byte, n: nat): nat
    requires n <= 8
  {
    Quotient(b, Pow2(8 - n))
  }

  /** a and b agree on their first n bits. */
  predicate SharesBits(a: Bytes, b: Bytes, n: nat)
    requires |a| == |b| && n <= 8 * |a|
  {
    && (forall k :: 0 <= k < n / 8 ==> a[k] == b[k])
    && (n % 8 > 0 ==> Top(a[n / 8], n % 8) == Top(b[n / 8], n % 8))
  }

  predicate GoodEntry(e: Entry) {
    |e.prefix| == 16 && e.ones <= 128 && (IsV4(e.prefix) ==> e.ones >= 96)
  }

  /** IPNet.Contains: an IPv4 address is compared with the last four bytes of an
      IPv4-mapped prefix only, and with no other prefix. */
  predicate Contains(e: Entry, ip: IP)
    requires GoodEntry(e)
  {
    var nn := if IsV4(e.prefix) then To4(e.prefix) else e.prefix;
    var ones: nat := if IsV4(e.prefix) then e.ones - 96 else e.ones;
    var x := if IsV4(ip) then To4(ip) else ip;
    |x| == |nn| && SharesBits(nn, x, ones)
  }

  const NO_ENTRY: Entry := Entry([], 0, 0, 0)

  function Classify(t: seq<Entry>, ip: IP): Entry
    requires forall k :: 0 <= k < |t| ==> GoodEntry(t[k])
  {
    if t == [] then NO_ENTRY
    else if Contains(t[0], ip) then t[0]
    else Classify(t[1..], ip)
  }

  // ----- attributes -----

  datatype Attr = Attr(scope: nat, precedence: nat, tag: nat)

  function ClassifyScope(ip: IP): nat {
    var ip4 := To4(ip);
    if ip4 != [] then
      if ip4[0] == 127 || (ip4[0] == 169 && ip4[1] == 254) then 2 else 0xE
    else if ip == LOOPBACK then 2
    else if |ip| != 16 then 0xE
    else if ip[0] == 0xFE && 0x80 <= ip[1] < 0xC0 then 2
    else if ip[0] == 0xFF then ip[1] % 16
    else if ip[0] == 0xFE && ip[1] >= 0xC0 then 5
    else 0xE
  }

  lemma TableGood()
    ensures forall k :: 0 <= k < |POLICY_TABLE| ==> GoodEntry(POLICY_TABLE[k])
  {
  }

  function AttrOf(ip: IP): Attr {
    TableGood();
    if ip == [] then Attr(0, 0, 0)
    else
      var m := Classify(POLICY_TABLE, ip);
      Attr(ClassifyScope(ip), m.precedence, m.tag)
  }

  /** One row of byRFC6724: a destination and the source to reach it, with their attributes. */
  datatype Dest = Dest(addr: IP, addrAttr: Attr, src: IP, srcAttr: Attr)

  function DestOf(addr: IP, src: IP): Dest {
    Dest(addr, AttrOf(addr), src, AttrOf(src))
  }

  /** The longest common prefix, by its meaning: the greatest number of shared leading bits. */
  ghost predicate IsCommonPrefix(a: Bytes, b: Bytes, n: nat)
    requires |a| == |b|
  {
    n <= 8 * |a| && SharesBits(a, b, n) && forall m: nat :: n < m <= 8 * |a| ==> !SharesBits(a, b, m)
  }

  /** What commonPrefixLen compares: IPv4 as four bytes, IPv6 up to its first 64 bits. */
  function Compared(ip: IP): Bytes {
    var x := if IsV4(ip) then To4(ip) else ip;
    if |x| > 8 then x[..8] else x
  }

  function CommonByte(a: Byte, b: Byte, n: nat): nat
    requires n <= 8
  {
    if n == 0 || Top(a, n) == Top(b, n) then n else CommonByte(a, b, n - 1)
  }

  function CommonBits(a: Bytes, b: Bytes): nat
    requires |a| == |b|
  {
    if a == [] then 0
    else if a[0] == b[0] then 8 + CommonBits(a[1..], b[1..])
    else CommonByte(a[0], b[0], 8)
  }

  function SameFamily(a: IP, b: IP): bool {
    |if IsV4(a) then To4(a) else a| == |if IsV4(b) then To4(b) else b|
  }

  function CommonPrefixLen(a: IP, b: IP): nat {
    if !SameFamily(a, b) then 0 else CommonBits(Compared(a), Compared(b))
  }

  // ----- the comparison -----

  predicate Less(a: Dest, b: Dest) {
    // Rule 1: avoid unusable destinations.
    if a.src == [] && b.src == [] then false
    else if b.src == [] then true
    else if a.src == [] then false
    // Rule 2: prefer matching scope.
    else if a.addrAttr.scope == a.srcAttr.scope && b.addrAttr.scope != b.srcAttr.scope then true
    else if a.addrAttr.scope != a.srcAttr.scope && b.addrAttr.scope == b.srcAttr.scope then false
    // Rule 5: prefer matching label.
    else if a.srcAttr.tag == a.addrAttr.tag && b.srcAttr.tag != b.addrAttr.tag then true
    else if a.srcAttr.tag != a.addrAttr.tag && b.srcAttr.tag == b.addrAttr.tag then false
    // Rule 6: prefer higher precedence.
    else if a.addrAttr.precedence > b.addrAttr.precedence then true
    else if a.addrAttr.precedence < b.addrAttr.precedence then false
    // Rule 8: prefer smaller scope.
    else if a.addrAttr.scope < b.addrAttr.scope then true
    else if a.addrAttr.scope > b.addrAttr.scope then false
    // Rule 9: use longest matching prefix, for IPv6 only.
    else if !IsV4(a.addr) && !IsV4(b.addr) then
      CommonPrefixLen(a.src, a.addr) > CommonPrefixLen(b.src, b.addr)
    // Rule 10: otherwise, leave the order unchanged.
    else false
  }

  // ----- the table -----

  /** Classify finds the first entry that contains ip, or nothing when none does. */
  lemma {:induction false} FirstEntry(t: seq<Entry>, ip: IP) returns (i: nat)
    requires forall k :: 0 <= k < |t| ==> GoodEntry(t[k])
    ensures i <= |t| && (forall k :: 0 <= k < i ==> !Contains(t[k], ip))
    ensures if i < |t| then Contains(t[i], ip) && Classify(t, ip) == t[i] else Classify(t, ip) == NO_ENTRY
  {
    hide Contains, GoodEntry;
    if t == [] || Contains(t[0], ip) {
      i := 0;
    } else {
      var j := FirstEntry(t[1..], ip);
      assert forall k :: 1 <= k < |t| ==> t[k] == t[1..][k - 1];
      i := j + 1;
    }
  }

  /** In a table sorted by mask length that entry has the longest matching prefix. */
  lemma LongestMatch(t: seq<Entry>, ip: IP, k: nat)
    requires forall k :: 0 <= k < |t| ==> GoodEntry(t[k])
    requires forall i, j :: 0 <= i < j < |t| ==> t[i].ones >= t[j].ones
    requires k < |t| && Contains(t[k], ip)
    ensures Classify(t, ip) in t && Contains(Classify(t, ip), ip) && t[k].ones <= Classify(t, ip).ones
  {
    hide Contains, GoodEntry;
    var i := FirstEntry(t, ip);
  }

  lemma TableSorted()
    ensures forall i, j :: 0 <= i < j < |POLICY_TABLE| ==> POLICY_TABLE[i].ones >= POLICY_TABLE[j].ones
  {
  }

  /** Only the second entry is IPv4-mapped, and only it has precedence 35. */
  lemma MappedEntry(k: nat)
    requires k < |POLICY_TABLE|
    ensures IsV4(POLICY_TABLE[k].prefix) <==> k == 1
    ensures POLICY_TABLE[k].precedence == 35 <==> k == 1
    ensures POLICY_TABLE[1].ones == 96
  {
  }

  lemma ContainsFamily(e: Entry, ip: IP)
    requires GoodEntry(e)
    ensures Contains(e, ip) ==> (IsV4(e.prefix) <==> IsV4(ip))
    ensures IsV4(e.prefix) && e.ones == 96 && IsV4(ip) ==> Contains(e, ip)
  {
  }

  /** The table gives precedence 35 to the IPv4 addresses and to no others. */
  lemma FamilyOfPrecedence(ip: IP)
    ensures IsV4(ip) <==> AttrOf(ip).precedence == 35
  {
    TableGood();
    var i := FirstEntry(POLICY_TABLE, ip);
    MappedEntry(1);
    ContainsFamily(POLICY_TABLE[1], ip);
    if i < |POLICY_TABLE| {
      MappedEntry(i);
      ContainsFamily(POLICY_TABLE[i], ip);
    }
    hide IsV4, Classify, Contains, POLICY_TABLE, ClassifyScope;
    NilFamily();
  }

  lemma NilFamily()
    ensures !IsV4([])
  {
  }

  // ----- the order -----

  /** What makes a destination better, most important first. */
  ghost function Rank(d: Dest): (r: seq<int>)
    ensures |r| == 6
  {
    if d.src == [] then [0, 0, 0, 0, 0, 0]
    else [1,
          if d.addrAttr.scope == d.srcAttr.scope then 1 else 0,
          if d.addrAttr.tag == d.srcAttr.tag then 1 else 0,
          d.addrAttr.precedence,
          0 - d.addrAttr.scope,
          if IsV4(d.addr) then 0 else CommonPrefixLen(d.src, d.addr)]
  }

  /** Lexicographic order. */
  ghost predicate Above(x: seq<int>, y: seq<int>)
    requires |x| == |y|
  {
    x != [] && (x[0] > y[0] || (x[0] == y[0] && Above(x[1..], y[1..])))
  }

  lemma {:induction false} AboveIrreflexive(x: seq<int>)
    ensures !Above(x, x)
  {
    if x != [] { AboveIrreflexive(x[1..]); }
  }

  lemma {:induction false} AboveTotal(x: seq<int>, y: seq<int>)
    requires |x| == |y| && !Above(x, y) && !Above(y, x)
    ensures x == y
  {
    if x != [] {
      AboveTotal(x[1..], y[1..]);
      assert x == [x[0]] + x[1..] && y == [y[0]] + y[1..];
    }
  }

  lemma {:induction false} AboveTransitive(x: seq<int>, y: seq<int>, z: seq<int>)
    requires |x| == |y| == |z| && Above(x, y) && Above(y, z)
    ensures Above(x, z)
  {
    if x[0] == y[0] == z[0] { AboveTransitive(x[1..], y[1..], z[1..]); }
  }

  /** The first difference of two ranks decides. */
  lemma AboveSix(x: seq<int>, y: seq<int>)
    requires |x| == |y| == 6
    ensures Above(x, y) <==>
      || x[0] > y[0]
      || (x[0] == y[0] && (x[1] > y[1]
      || (x[1] == y[1] && (x[2] > y[2]
      || (x[2] == y[2] && (x[3] > y[3]
      || (x[3] == y[3] && (x[4] > y[4]
      || (x[4] == y[4] && x[5] > y[5])))))))))
  {
    var x1, x2, x3, x4, x5 := x[1..], x[2..], x[3..], x[4..], x[5..];
    var y1, y2, y3, y4, y5 := y[1..], y[2..], y[3..], y[4..], y[5..];
    assert x1[1..] == x2 && x2[1..] == x3 && x3[1..] == x4 && x4[1..] == x5 && x5[1..] == [];
    assert y1[1..] == y2 && y2[1..] == y3 && y3[1..] == y4 && y4[1..] == y5 && y5[1..] == [];
    assert Above(x5, y5) <==> x[5] > y[5];
    assert Above(x4, y4) <==> x[4] > y[4] || (x[4] == y[4] && Above(x5, y5));
    assert Above(x3, y3) <==> x[3] > y[3] || (x[3] == y[3] && Above(x4, y4));
    assert Above(x2, y2) <==> x[2] > y[2] || (x[2] == y[2] && Above(x3, y3));
    assert Above(x1, y1) <==> x[1] > y[1] || (x[1] == y[1] && Above(x2, y2));
  }

  /** Rule 9 looks at prefixes only between IPv6 addresses, yet Less compares ranks: after a
      tie on precedence both addresses are of one family. */
  lemma LessIsRank(da: IP, sa: IP, db: IP, sb: IP)
    ensures Less(DestOf(da, sa), DestOf(db, sb)) <==> Above(Rank(DestOf(da, sa)), Rank(DestOf(db, sb)))
  {
    FamilyOfPrecedence(da);
    FamilyOfPrecedence(db);
    hide AttrOf, IsV4, CommonPrefixLen, Above;
    AboveSix(Rank(DestOf(da, sa)), Rank(DestOf(db, sb)));
  }

  /** Less is a strict weak order on all lists of addresses and sources, as sort.Stable needs. */
  lemma StrictWeakOrder(da: IP, sa: IP, db: IP, sb: IP, dc: IP, sc: IP)
    ensures
      var a, b, c := DestOf(da, sa), DestOf(db, sb), DestOf(dc, sc);
      && !Less(a, a)
      && (Less(a, b) && Less(b, c) ==> Less(a, c))
      && (!Less(a, b) && !Less(b, a) && !Less(b, c) && !Less(c, b) ==> !Less(a, c) && !Less(c, a))
  {
    var x, y, z := Rank(DestOf(da, sa)), Rank(DestOf(db, sb)), Rank(DestOf(dc, sc));
    LessIsRank(da, sa, da, sa);
    LessIsRank(da, sa, db, sb);
    LessIsRank(db, sb, da, sa);
    LessIsRank(db, sb, dc, sc);
    LessIsRank(dc, sc, db, sb);
    LessIsRank(da, sa, dc, sc);
    LessIsRank(dc, sc, da, sa);
    hide Less, Rank, DestOf, Above;
    AboveIrreflexive(x);
    if Above(x, y) && Above(y, z) { AboveTransitive(x, y, z); }
    if !Above(x, y) && !Above(y, x) && !Above(y, z) && !Above(z, y) {
      AboveTotal(x, y);
      AboveTotal(y, z);
    }
  }

  /** Without the table it is none: with equal attributes an IPv4 address ties with two IPv6
      addresses that do not tie with each other. */
  lemma OnlyByTheTable()
    ensures exists a: Dest, b: Dest, c: Dest ::
      && !Less(a, b) && !Less(b, a) && !Less(b, c) && !Less(c, b)
      && Less(a, c)
  {
    var attr := Attr(14, 1, 1);
    var one: IP := Padded([0x20]);
    var two: IP := Padded([0x30]);
    var four: IP := [10, 0, 0, 1];
    var a, b, c := Dest(one, attr, one, attr), Dest(four, attr, four, attr), Dest(one, attr, two, attr);
    assert !IsV4(one) && !IsV4(two) && IsV4(four);
    assert CommonPrefixLen(one, one) >= 8 by {
      assert Compared(one)[0] == 0x20;
    }
    assert CommonPrefixLen(two, one) < 8 by {
      assert Compared(one)[0] == 0x20 && Compared(two)[0] == 0x30;
      assert Top(0x20, 8) == 0x20 && Top(0x30, 8) == 0x30;
      CommonByteBelow(0x30, 0x20, 7);
    }
    assert !Less(a, b) && !Less(b, a) && !Less(b, c) && !Less(c, b) && Less(a, c);
  }

  // ----- common prefixes -----

  lemma {:induction false} CommonByteBelow(a: Byte, b: Byte, n: nat)
    requires n <= 8
    ensures CommonByte(a, b, n) <= n && Top(a, CommonByte(a, b, n)) == Top(b, CommonByte(a, b, n))
    ensures forall m :: CommonByte(a, b, n) < m <= n ==> Top(a, m) != Top(b, m)
  {
    if n == 0 {
      assert Pow2(8) == 256 by { assert Pow2(4) == 16; assert Pow2(6) == 64; }
    } else if Top(a, n) != Top(b, n) {
      CommonByteBelow(a, b, n - 1);
    }
  }

  /** Behind an equal byte the bits are counted from eight. */
  lemma SharesBehind(a: Bytes, b: Bytes, n: nat)
    requires |a| == |b| && a != [] && a[0] == b[0] && n <= 8 * |a|
    ensures SharesBits(a, b, n) <==> n < 8 || SharesBits(a[1..], b[1..], n - 8)
  {
    hide Top;
    if n >= 8 {
      assert (n - 8) / 8 == n / 8 - 1 && (n - 8) % 8 == n % 8;
      assert forall k :: 1 <= k < |a| ==> a[k] == a[1..][k - 1] && b[k] == b[1..][k - 1];
      assert (forall k :: 0 <= k < n / 8 ==> a[k] == b[k]) <==>
             (forall k :: 0 <= k < (n - 8) / 8 ==> a[1..][k] == b[1..][k]) by {
        assert forall k :: 0 <= k < (n - 8) / 8 ==> a[1..][k] == a[k + 1] && b[1..][k] == b[k + 1];
      }
    } else {
      assert n / 8 == 0 && n % 8 == n;
    }
  }

  /** In a byte that differs, the bits in front of the difference are shared. */
  lemma SharesDifferent(a: Bytes, b: Bytes, n: nat)
    requires |a| == |b| && a != [] && a[0] != b[0] && n <= 8 * |a|
    ensures SharesBits(a, b, n) <==> n < 8 && Top(a[0], n) == Top(b[0], n)
  {
    if n >= 8 {
      assert n / 8 >= 1;
    } else {
      assert n / 8 == 0 && n % 8 == n;
      TopZero(a[0]);
      TopZero(b[0]);
    }
  }

  lemma TopZero(b: Byte)
    ensures Top(b, 0) == 0 && Top(b, 8) == b
  {
    assert Pow2(8) == 256 by { assert Pow2(4) == 16; assert Pow2(6) == 64; }
  }

  /** The count is the longest common prefix. */
  lemma {:induction false} CommonBitsLongest(a: Bytes, b: Bytes)
    requires |a| == |b|
    ensures IsCommonPrefix(a, b, CommonBits(a, b))
  {
    hide SharesBits, Top, CommonByte;
    if a == [] {
      SharesNothing(a, b);
    } else if a[0] == b[0] {
      CommonBitsLongest(a[1..], b[1..]);
      forall m: nat | m <= 8 * |a|
        ensures SharesBits(a, b, m) <==> m < 8 || SharesBits(a[1..], b[1..], m - 8)
      {
        SharesBehind(a, b, m);
      }
    } else {
      CommonByteBelow(a[0], b[0], 8);
      TopZero(a[0]);
      TopZero(b[0]);
      forall m: nat | m <= 8 * |a|
        ensures SharesBits(a, b, m) <==> m < 8 && Top(a[0], m) == Top(b[0], m)
      {
        SharesDifferent(a, b, m);
      }
    }
  }

  lemma SharesNothing(a: Bytes, b: Bytes)
    requires |a| == |b|
    ensures SharesBits(a, b, 0)
  {
  }

  /** The loops of commonPrefixLen: whole bytes, then shifts until the rest agrees. */
  method CommonPrefixLength(a: IP, b: IP) returns (cpl: nat)
    ensures cpl == CommonPrefixLen(a, b)
    ensures SameFamily(a, b) ==> IsCommonPrefix(Compared(a), Compared(b), cpl)
  {
    hide To4, CommonBits, CommonByte, IsCommonPrefix;
    if SameFamily(a, b) {
      CommonBitsLongest(Compared(a), Compared(b));
    }
    var x, y := if IsV4(a) then To4(a) else a, if IsV4(b) then To4(b) else b;
    cpl := 0;
    if |x| != |y| {
      return;
    }
    if |x| > 8 {
      x, y := x[..8], y[..8];
    }
    while |x| > 0
      invariant |x| == |y| && cpl + CommonBits(x, y) == CommonBits(Compared(a), Compared(b))
      decreases |x|
    {
      BitsStep(x, y);
      if x[0] == y[0] {
        cpl := cpl + 8;
        x, y := x[1..], y[1..];
        continue;
      }
      var bits := ShiftUntilEqual(x[0], y[0]);
      cpl := cpl + bits;
      return;
    }
    NoBits(x, y);
  }

  lemma BitsStep(x: Bytes, y: Bytes)
    requires |x| == |y| > 0
    ensures CommonBits(x, y) == if x[0] == y[0] then 8 + CommonBits(x[1..], y[1..]) else CommonByte(x[0], y[0], 8)
  {
    hide CommonByte;
  }

  lemma NoBits(x: Bytes, y: Bytes)
    requires |x| == |y| == 0
    ensures CommonBits(x, y) == 0
  {
  }

  method ShiftUntilEqual(a: Byte, b: Byte) returns (bits: nat)
    requires a != b
    ensures bits == CommonByte(a, b, 8)
  {
    var ab: Byte, bb: Byte := a, b;
    bits := 8;
    TopZero(a);
    TopZero(b);
    while true
      invariant 0 < bits <= 8 && ab == Top(a, bits) && bb == Top(b, bits) && ab != bb
      invariant CommonByte(a, b, bits) == CommonByte(a, b, 8)
      decreases bits
    {
      TopShift(a, bits);
      TopShift(b, bits);
      ab := ab / 2;
      bb := bb / 2;
      bits := bits - 1;
      if ab == bb {
        return;
      }
      TopZero(a);
      TopZero(b);
    }
  }

  lemma TopShift(a: Byte, n: nat)
    requires 0 < n <= 8
    ensures Top(a, n) / 2 == Top(a, n - 1)
  {
    assert Pow2(8 - n + 1) == 2 * Pow2(8 - n);
    HalfQuotient(a, Pow2(8 - n));
  }

  lemma HalfQuotient(a: nat, d: nat)
    requires d >= 1
    ensures a / d / 2 == a / (2 * d)
  {
    var q, r := a / d, a % d;
    assert a == q * d + r;
    var h, e := q / 2, q % 2;
    assert q * d == h * (2 * d) + e * d by { assert q == 2 * h + e; }
    DivModUnique(a, 2 * d, h, e * d + r);
  }
}
