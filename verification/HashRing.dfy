/** utils/consistenthash/consistenthash.go: the consistent-hash ring from strings to shards. */
module HashRing {
  import opened Wrappers
  import opened ByteOrder
  import Sorting

  type uint32 = n: int | 0 <= n < 0x1_0000_0000
  type int64 = n: int | -0x8000_0000_0000_0000 <= n < 0x8000_0000_0000_0000
  type Hash = Bytes -> uint32

  // ---- labels ----

  function Digits(n: nat): (s: Bytes)
    ensures s != [] && s[0] != 45
  {
    if n < 10 then [48 + n] else Digits(n / 10) + [48 + n % 10]
  }

  /** strconv.Itoa */
  function Itoa(n: int64): Bytes {
    if n < 0 then [45] + Digits(-(n as int)) else Digits(n)
  }

  // What a decimal numeral is, read from the left.

  predicate IsDigit(b: byte) { 48 <= b <= 57 }

  /** The number that a string of digits stands for. */
  function Value(s: Bytes): int {
    if s == [] then 0 else 10 * Value(s[..|s| - 1]) + (s[|s| - 1] as int - 48)
  }

  /** s is the decimal numeral of n: digits only, no needless zero in front, and a minus sign before if n < 0. */
  predicate Numeral(s: Bytes, n: int) {
    if n < 0 then |s| > 1 && s[0] == 45 && s[1] != 48 && (forall b | b in s[1..] :: IsDigit(b)) && Value(s[1..]) == -n
    else s != [] && (s[0] == 48 ==> s == [48]) && (forall b | b in s :: IsDigit(b)) && Value(s) == n
  }

  lemma {:induction false} DigitsAreNumeral(n: nat)
    ensures Numeral(Digits(n), n) && (n > 0 ==> Digits(n)[0] != 48)
  {
    if n >= 10 {
      DigitsAreNumeral(n / 10);
      assert Digits(n)[..|Digits(n)| - 1] == Digits(n / 10);
    }
  }

  /** The label of a number is its decimal numeral. */
  lemma ItoaIsNumeral(n: int64)
    ensures Numeral(Itoa(n), n)
  {
    if n < 0 {
      DigitsAreNumeral(-(n as int));
      assert Itoa(n)[1..] == Digits(-(n as int));
    } else {
      DigitsAreNumeral(n);
    }
  }

  lemma {:induction false} DigitsInjective(a: nat, b: nat)
    requires Digits(a) == Digits(b)
    ensures a == b
  {
    var s, t := Digits(a), Digits(b);
    assert s[|s| - 1] == 48 + a % 10 && t[|t| - 1] == 48 + b % 10;
    if a >= 10 && b >= 10 {
      assert s[..|s| - 1] == Digits(a / 10) && t[..|t| - 1] == Digits(b / 10);
      DigitsInjective(a / 10, b / 10);
    }
  }

  /** Different numbers have different decimal labels. */
  lemma ItoaInjective(a: int64, b: int64)
    requires Itoa(a) == Itoa(b)
    ensures a == b
  {
    if a < 0 && b < 0 {
      assert Itoa(a)[1..] == Digits(-(a as int)) && Itoa(b)[1..] == Digits(-(b as int));
      DigitsInjective(-(a as int), -(b as int));
    } else if a >= 0 && b >= 0 {
      DigitsInjective(a, b);
    }
  }

  /** Go's int arithmetic wraps around at 64 bits. */
  function Wrap64(x: int): int64 {
    (x + 0x8000_0000_0000_0000) % 0x1_0000_0000_0000_0000 - 0x8000_0000_0000_0000
  }

  function Label(key: int64, i: nat): int64 {
    Wrap64(key * 10 + i)
  }

  /** The ring point of replica i of a key. */
  function Point(h: Hash, key: int64, i: nat): int {
    h(Itoa(Label(key, i)))
  }

  /**
   Replica i of a key sits at the hash of the decimal numeral of key * 10 + i, which wraps around at
   64 bits. No other bytes are hashed.
   */
  lemma PointIs(h: Hash, key: int64, i: nat, n: int64, s: Bytes)
    requires (n - (key * 10 + i)) % 0x1_0000_0000_0000_0000 == 0 && Numeral(s, n)
    ensures Point(h, key, i) == h(s)
  {
    WrapIs(key * 10 + i, n);
    ItoaIsNumeral(n);
    NumeralUnique(s, Itoa(n), n);
  }

  lemma WrapIs(x: int, n: int64)
    requires (n - x) % 0x1_0000_0000_0000_0000 == 0
    ensures Wrap64(x) == n
  {
    var d := (n - x) / 0x1_0000_0000_0000_0000;
    assert x + 0x8000_0000_0000_0000 == n + 0x8000_0000_0000_0000 - d * 0x1_0000_0000_0000_0000;
  }

  lemma NumeralUnique(s: Bytes, t: Bytes, n: int)
    requires Numeral(s, n) && Numeral(t, n)
    ensures s == t
  {
    if n < 0 {
      ValueInjective(s[1..], t[1..]);
      assert s == [45] + s[1..] && t == [45] + t[1..];
    } else if s[0] == 48 || t[0] == 48 {
      ZeroFirst(s);
      ZeroFirst(t);
    } else {
      ValueInjective(s, t);
    }
  }

  lemma {:induction false} Positive(s: Bytes)
    requires forall b | b in s :: IsDigit(b)
    ensures Value(s) >= 0 && (s != [] && s[0] != 48 ==> Value(s) > 0)
  {
    if s != [] {
      assert s[|s| - 1] in s && s[0] in s;
      Positive(s[..|s| - 1]);
    }
  }

  lemma ZeroFirst(s: Bytes)
    requires s != [] && (forall b | b in s :: IsDigit(b)) && (s[0] == 48 ==> s == [48])
    ensures Value(s) == 0 <==> s == [48]
  {
    Positive(s);
    assert Value([48]) == 10 * Value([]) + 0;
  }

  lemma {:induction false} ValueInjective(s: Bytes, t: Bytes)
    requires (forall b | b in s :: IsDigit(b)) && (forall b | b in t :: IsDigit(b))
    requires (s != [] ==> s[0] != 48) && (t != [] ==> t[0] != 48) && Value(s) == Value(t)
    ensures s == t
  {
    Positive(s);
    Positive(t);
    if s != [] && t != [] {
      var s', t' := s[..|s| - 1], t[..|t| - 1];
      assert IsDigit(s[|s| - 1]) && IsDigit(t[|t| - 1]) by { assert s[|s| - 1] in s && t[|t| - 1] in t; }
      SameTens(Value(s'), Value(t'), s[|s| - 1] - 48, t[|t| - 1] - 48);
      ValueInjective(s', t');
      assert s == s' + [s[|s| - 1]] && t == t' + [t[|t| - 1]];
    }
  }

  lemma SameTens(a: int, b: int, c: int, d: int)
    requires 10 * a + c == 10 * b + d && 0 <= c < 10 && 0 <= d < 10
    ensures a == b && c == d
  {
  }

  // ---- the ring as a value ----

  type Owners = map<int, int64>

  function Own(o: Owners, h: Hash, key: int64, n: nat): Owners {
    if n == 0 then o else Own(o, h, key, n - 1)[Point(h, key, n - 1) := key]
  }

  function OwnAll(o: Owners, h: Hash, replicas: nat, ks: seq<int64>): Owners {
    if ks == [] then o
    else Own(OwnAll(o, h, replicas, ks[..|ks| - 1]), h, ks[|ks| - 1], replicas)
  }

  /** The points of one key, replica by replica. */
  function OwnPoints(h: Hash, key: int64, n: nat): (ps: seq<int>)
    ensures |ps| == n
  {
    seq(n, i requires i >= 0 => Point(h, key, i))
  }

  lemma NextPoint(ps: seq<int>, h: Hash, key: int64, n: nat)
    ensures ps + OwnPoints(h, key, n) + [Point(h, key, n)] == ps + OwnPoints(h, key, n + 1)
  {
    assert OwnPoints(h, key, n + 1) == OwnPoints(h, key, n) + [Point(h, key, n)];
  }

  function PointList(h: Hash, replicas: nat, ks: seq<int64>): seq<int> {
    if ks == [] then []
    else PointList(h, replicas, ks[..|ks| - 1]) + OwnPoints(h, ks[|ks| - 1], replicas)
  }

  ghost predicate HasPoint(h: Hash, replicas: nat, key: int64, p: int) {
    exists i: nat | i < replicas :: Point(h, key, i) == p
  }

  /** The last key of ks with a replica at p. */
  ghost function LastAt(h: Hash, replicas: nat, ks: seq<int64>, p: int): Option<int64> {
    if ks == [] then None
    else if HasPoint(h, replicas, ks[|ks| - 1], p) then Some(ks[|ks| - 1])
    else LastAt(h, replicas, ks[..|ks| - 1], p)
  }

  lemma {:induction false} OwnAt(o: Owners, h: Hash, key: int64, n: nat, p: int)
    ensures Lookup(Own(o, h, key, n), p) == if HasPoint(h, n, key, p) then Some(key) else Lookup(o, p)
  {
    if n > 0 {
      OwnAt(o, h, key, n - 1, p);
      if HasPoint(h, n, key, p) {
        var i: nat :| i < n && Point(h, key, i) == p;
        assert i == n - 1 || HasPoint(h, n - 1, key, p);
      }
    }
  }

  lemma {:induction false} OwnAllAt(o: Owners, h: Hash, replicas: nat, ks: seq<int64>, p: int)
    ensures Lookup(OwnAll(o, h, replicas, ks), p) ==
            if LastAt(h, replicas, ks, p).Some? then LastAt(h, replicas, ks, p) else Lookup(o, p)
  {
    if ks != [] {
      OwnAllAt(o, h, replicas, ks[..|ks| - 1], p);
      OwnAt(OwnAll(o, h, replicas, ks[..|ks| - 1]), h, ks[|ks| - 1], replicas, p);
    }
  }

  lemma {:induction false} LastAtMember(h: Hash, replicas: nat, ks: seq<int64>, p: int)
    ensures LastAt(h, replicas, ks, p).Some? ==>
              LastAt(h, replicas, ks, p).value in ks && HasPoint(h, replicas, LastAt(h, replicas, ks, p).value, p)
    ensures LastAt(h, replicas, ks, p).None? ==> forall k | k in ks :: !HasPoint(h, replicas, k, p)
    ensures LastAt(h, replicas, ks, p).Some? ==>
              exists j | 0 <= j < |ks| && ks[j] == LastAt(h, replicas, ks, p).value ::
                forall l | j < l < |ks| :: !HasPoint(h, replicas, ks[l], p)
  {
    if ks != [] {
      LastAtMember(h, replicas, ks[..|ks| - 1], p);
      assert ks == ks[..|ks| - 1] + [ks[|ks| - 1]];
    }
  }

  lemma {:induction false} OwnAllConcat(o: Owners, h: Hash, replicas: nat, a: seq<int64>, b: seq<int64>)
    ensures OwnAll(o, h, replicas, a + b) == OwnAll(OwnAll(o, h, replicas, a), h, replicas, b)
  {
    if b == [] {
      assert a + b == a;
    } else {
      assert (a + b)[..|a + b| - 1] == a + b[..|b| - 1];
      OwnAllConcat(o, h, replicas, a, b[..|b| - 1]);
    }
  }

  lemma {:induction false} PointListConcat(h: Hash, replicas: nat, a: seq<int64>, b: seq<int64>)
    ensures PointList(h, replicas, a + b) == PointList(h, replicas, a) + PointList(h, replicas, b)
  {
    if b == [] {
      assert a + b == a;
    } else {
      assert (a + b)[..|a + b| - 1] == a + b[..|b| - 1];
      PointListConcat(h, replicas, a, b[..|b| - 1]);
      Associative(PointList(h, replicas, a), PointList(h, replicas, b[..|b| - 1]), OwnPoints(h, b[|b| - 1], replicas));
    }
  }

  lemma Associative<T>(a: seq<T>, b: seq<T>, c: seq<T>)
    ensures a + b + c == a + (b + c)
  {
  }

  lemma {:induction false} PointListMembers(h: Hash, replicas: nat, ks: seq<int64>, p: int)
    ensures p in PointList(h, replicas, ks) <==> LastAt(h, replicas, ks, p).Some?
  {
    if ks != [] {
      var key := ks[|ks| - 1];
      PointListMembers(h, replicas, ks[..|ks| - 1], p);
      var own := OwnPoints(h, key, replicas);
      if HasPoint(h, replicas, key, p) {
        var i: nat :| i < replicas && Point(h, key, i) == p;
        assert own[i] == p;
      }
      if p in own {
        var i :| 0 <= i < |own| && own[i] == p;
        assert Point(h, key, i) == p;
      }
    }
  }

  // ---- lookup ----

  /** p is the least point at or after x, or the least point of all when there is none. */
  ghost predicate Nearest(points: set<int>, x: int, p: int) {
    p in points &&
    ((x <= p && forall q | q in points && x <= q :: p <= q) ||
     ((forall q | q in points :: q < x) && forall q | q in points :: p <= q))
  }

  predicate IntLeq(a: int, b: int) { a <= b }

  /** What sort.Ints leaves. */
  function SortInts(s: seq<int>): (r: seq<int>)
    ensures Sorting.Sorted(r, IntLeq) && multiset(r) == multiset(s)
    ensures forall x :: x in r <==> x in s
  {
    assert Sorting.TotalOrder(IntLeq);
    Sorting.SortMembers(s, IntLeq);
    Sorting.Sort(s, IntLeq)
  }

  lemma NearestExists(points: set<int>, x: int)
    requires points != {}
    ensures exists p :: Nearest(points, x, p)
  {
    var above := set q | q in points && x <= q;
    assert Sorting.TotalOrder(IntLeq);
    var from := if above == {} then points else above;
    Sorting.ExtremesExist(from, IntLeq);
    var p :| p in from && forall q | q in from :: IntLeq(p, q);
    if above == {} {
      forall q | q in points ensures q < x && p <= q { assert q !in above && IntLeq(p, q); }
    } else {
      forall q | q in points && x <= q ensures p <= q { assert q in above && IntLeq(p, q); }
    }
    assert Nearest(points, x, p);
  }

  ghost function NearestPoint(points: set<int>, x: int): (p: int)
    requires points != {}
    ensures Nearest(points, x, p)
  {
    NearestExists(points, x);
    var p :| Nearest(points, x, p);
    p
  }

  lemma NearestUnique(points: set<int>, x: int, p: int, q: int)
    requires Nearest(points, x, p) && Nearest(points, x, q)
    ensures p == q
  {
  }

  /** The shard at position x of the circle; 0 on an empty ring. */
  ghost function OwnerAt(o: Owners, x: int): int64 {
    if o == map[] then 0 else o[NearestPoint(o.Keys, x)]
  }

  class Map {
    const hash: Hash
    const replicas: int
    var keys: seq<int>
    var hashMap: Owners

    ghost predicate Valid()
      reads this
    {
      Sorting.Sorted(keys, IntLeq) && forall p :: p in keys <==> p in hashMap
    }

    constructor (replicas: int, hash: Hash)
      ensures Valid() && keys == [] && hashMap == map[]
      ensures this.replicas == replicas && this.hash == hash
    {
      this.replicas, this.hash := replicas, hash;
      keys, hashMap := [], map[];
    }

    predicate IsEmpty()
      reads this
    {
      |keys| == 0
    }

    function Copies(): nat { if replicas < 0 then 0 else replicas }

    /** The inner loop of Add: appends the points of one key and takes them over. */
    method AddKey(key: int64)
      modifies this
      ensures hashMap == Own(old(hashMap), hash, key, Copies())
      ensures keys == old(keys) + OwnPoints(hash, key, Copies())
    {
      var i := 0;
      while i < replicas
        invariant 0 <= i <= Copies()
        invariant hashMap == Own(old(hashMap), hash, key, i)
        invariant keys == old(keys) + OwnPoints(hash, key, i)
      {
        var point := hash(Itoa(Wrap64(key * 10 + i)));
        NextPoint(old(keys), hash, key, i);
        keys := keys + [point];
        hashMap := hashMap[point := key];
        i := i + 1;
      }
    }

    /** Adds every replica of every key, later keys taking over shared points, and sorts the points. */
    method Add(ks: seq<int64>)
      requires Valid()
      modifies this
      ensures Valid()
      ensures hashMap == OwnAll(old(hashMap), hash, Copies(), ks)
      ensures multiset(keys) == multiset(old(keys)) + multiset(PointList(hash, Copies(), ks))
    {
      ghost var n := Copies();
      for a := 0 to |ks|
        invariant hashMap == OwnAll(old(hashMap), hash, n, ks[..a])
        invariant keys == old(keys) + PointList(hash, n, ks[..a])
      {
        AddKey(ks[a]);
        assert ks[..a + 1][..a] == ks[..a];
        Associative(old(keys), PointList(hash, n, ks[..a]), OwnPoints(hash, ks[a], n));
      }
      assert ks[..|ks|] == ks;
      AddKeepsKeys(old(hashMap), hash, n, ks, old(keys), keys);
      keys := SortInts(keys);
    }

    /** Binary search for the first point at or after the key's hash, wrapping round to the first. */
    method Get(key: Bytes) returns (shard: int64)
      requires Valid()
      ensures shard == OwnerAt(hashMap, hash(key))
    {
      if IsEmpty() {
        assert hashMap == map[] by { assert forall p :: p !in hashMap; }
        return 0;
      }
      var x: int := hash(key);
      var lo, hi := 0, |keys|;
      while lo < hi
        invariant 0 <= lo <= hi <= |keys|
        invariant forall j | 0 <= j < lo :: keys[j] < x
        invariant forall j | hi <= j < |keys| :: x <= keys[j]
      {
        var mid := (lo + hi) / 2;
        assert forall j | 0 <= j < mid :: IntLeq(keys[j], keys[mid]);
        assert forall j | mid < j < |keys| :: IntLeq(keys[mid], keys[j]);
        if keys[mid] < x { lo := mid + 1; } else { hi := mid; }
      }
      var idx := if lo == |keys| then 0 else lo;
      assert keys[idx] in hashMap;
      FoundNearest(keys, hashMap.Keys, x, lo, idx);
      NearestUnique(hashMap.Keys, x, keys[idx], NearestPoint(hashMap.Keys, x));
      return hashMap[keys[idx]];
    }
  }

  lemma {:induction false} AddKeepsKeys(
    o: Owners, h: Hash, replicas: nat, ks: seq<int64>, before: seq<int>, after: seq<int>)
    requires after == before + PointList(h, replicas, ks)
    requires forall p :: p in before <==> p in o
    ensures forall p :: p in after <==> p in OwnAll(o, h, replicas, ks)
  {
    forall p ensures p in after <==> p in OwnAll(o, h, replicas, ks) {
      OwnAllAt(o, h, replicas, ks, p);
      PointListMembers(h, replicas, ks, p);
    }
  }

  lemma FoundNearest(keys: seq<int>, points: set<int>, x: int, lo: nat, idx: nat)
    requires Sorting.Sorted(keys, IntLeq) && keys != [] && lo <= |keys|
    requires forall p :: p in keys <==> p in points
    requires forall j | 0 <= j < lo :: keys[j] < x
    requires forall j | lo <= j < |keys| :: x <= keys[j]
    requires idx == if lo == |keys| then 0 else lo
    ensures Nearest(points, x, keys[idx])
  {
    forall q | q in points ensures (lo == |keys| ==> q < x) && (x <= q || lo == |keys| ==> keys[idx] <= q) {
      var j :| 0 <= j < |keys| && keys[j] == q;
      if idx < j { assert IntLeq(keys[idx], keys[j]); }
    }
  }

  // ---- minimal disruption ----

  /** Adding keys to a non-empty ring moves a position only to one of them, and only if the nearest point is theirs. */
  lemma MinimalDisruption(o: Owners, h: Hash, replicas: nat, ks: seq<int64>, x: int)
    requires o != map[]
    ensures OwnAll(o, h, replicas, ks) != map[]
    ensures var o' := OwnAll(o, h, replicas, ks);
            if LastAt(h, replicas, ks, NearestPoint(o'.Keys, x)).Some? then OwnerAt(o', x) in ks
            else OwnerAt(o', x) == OwnerAt(o, x)
  {
    var o' := OwnAll(o, h, replicas, ks);
    forall q | q in o ensures q in o' { OwnAllAt(o, h, replicas, ks, q); }
    assert o.Keys != {} && o.Keys <= o'.Keys;
    assert o'.Keys != {};
    var p := NearestPoint(o'.Keys, x);
    OwnAllAt(o, h, replicas, ks, p);
    LastAtMember(h, replicas, ks, p);
    if LastAt(h, replicas, ks, p).None? {
      assert p in o;
      NearestInSubset(o'.Keys, o.Keys, x, p);
      NearestUnique(o.Keys, x, p, NearestPoint(o.Keys, x));
    }
  }

  lemma NearestInSubset(points: set<int>, sub: set<int>, x: int, p: int)
    requires Nearest(points, x, p) && sub <= points && p in sub
    ensures Nearest(sub, x, p)
  {
  }

  // ---- batches and order ----

  /** One Add of a batch builds the ring that Adds of its parts build: same points, same owners. */
  lemma BatchesAgree(keys: seq<int>, o: Owners, h: Hash, replicas: nat, a: seq<int64>, b: seq<int64>,
                     afterA: seq<int>, afterB: seq<int>, afterBoth: seq<int>)
    requires Sorting.Sorted(afterB, IntLeq) && Sorting.Sorted(afterBoth, IntLeq)
    requires multiset(afterA) == multiset(keys) + multiset(PointList(h, replicas, a))
    requires multiset(afterB) == multiset(afterA) + multiset(PointList(h, replicas, b))
    requires multiset(afterBoth) == multiset(keys) + multiset(PointList(h, replicas, a + b))
    ensures afterB == afterBoth
    ensures OwnAll(OwnAll(o, h, replicas, a), h, replicas, b) == OwnAll(o, h, replicas, a + b)
  {
    OwnAllConcat(o, h, replicas, a, b);
    PointListConcat(h, replicas, a, b);
    assert Sorting.TotalOrder(IntLeq);
    Sorting.SortedUnique(afterB, afterBoth, IntLeq);
  }

  /** Two equal rings stay equal when one gets its keys in two batches and the other in one. */
  method AddInBatches(m: Map, n: Map, a: seq<int64>, b: seq<int64>)
    requires m != n && m.Valid() && n.Valid()
    requires m.hash == n.hash && m.replicas == n.replicas && m.keys == n.keys && m.hashMap == n.hashMap
    modifies m, n
    ensures m.Valid() && n.Valid() && m.keys == n.keys && m.hashMap == n.hashMap
    ensures m.hashMap == OwnAll(old(m.hashMap), m.hash, m.Copies(), a + b)
  {
    ghost var keys, o := m.keys, m.hashMap;
    m.Add(a);
    ghost var half := m.keys;
    m.Add(b);
    n.Add(a + b);
    BatchesAgree(keys, o, m.hash, m.Copies(), a, b, half, m.keys, n.keys);
  }

  /** No two different keys of ks share a ring point. */
  ghost predicate CollisionFree(h: Hash, replicas: nat, ks: seq<int64>) {
    forall a, b, p | a in ks && b in ks && HasPoint(h, replicas, a, p) && HasPoint(h, replicas, b, p) :: a == b
  }

  lemma SameOwnersInAnyOrder(o: Owners, h: Hash, replicas: nat, a: seq<int64>, b: seq<int64>)
    requires CollisionFree(h, replicas, a) && multiset(a) == multiset(b)
    ensures OwnAll(o, h, replicas, a) == OwnAll(o, h, replicas, b)
  {
    var oa, ob := OwnAll(o, h, replicas, a), OwnAll(o, h, replicas, b);
    forall p ensures Lookup(oa, p) == Lookup(ob, p) {
      OwnAllAt(o, h, replicas, a, p);
      OwnAllAt(o, h, replicas, b, p);
      LastAtMember(h, replicas, a, p);
      LastAtMember(h, replicas, b, p);
      assert forall k :: k in a <==> k in multiset(a);
      assert forall k :: k in b <==> k in multiset(b);
    }
    SameMap(oa, ob);
  }

  /** The same keys, with k moved to the end. */
  ghost function MoveToEnd(ks: seq<int64>, k: int64): (r: seq<int64>)
    requires k in ks
    ensures multiset(r) == multiset(ks) && r != [] && r[|r| - 1] == k
  {
    var i :| 0 <= i < |ks| && ks[i] == k;
    assert ks == ks[..i] + [k] + ks[i + 1..];
    ks[..i] + ks[i + 1..] + [k]
  }

  /** Added last, a key answers for each of its points. */
  lemma LastKeyAnswers(o: Owners, h: Hash, replicas: nat, ks: seq<int64>, p: int)
    requires ks != [] && HasPoint(h, replicas, ks[|ks| - 1], p)
    ensures OwnerAt(OwnAll(o, h, replicas, ks), p) == ks[|ks| - 1]
  {
    var ring := OwnAll(o, h, replicas, ks);
    OwnAllAt(o, h, replicas, ks, p);
    assert p in ring && Nearest(ring.Keys, p, p);
    NearestUnique(ring.Keys, p, p, NearestPoint(ring.Keys, p));
  }

  /** Adding a and adding b to a ring lets it answer every lookup alike. */
  ghost predicate SameAnswers(o: Owners, h: Hash, replicas: nat, a: seq<int64>, b: seq<int64>) {
    forall q: Bytes :: OwnerAt(OwnAll(o, h, replicas, a), h(q)) == OwnerAt(OwnAll(o, h, replicas, b), h(q))
  }

  ghost predicate OrderIsFree(o: Owners, h: Hash, replicas: nat, ks: seq<int64>) {
    forall a: seq<int64>, b: seq<int64> | multiset(a) == multiset(ks) && multiset(b) == multiset(ks) ::
      SameAnswers(o, h, replicas, a, b)
  }

  /**
   The order in which keys are added to a ring, empty or not, never matters to any lookup if and
   only if no two of them collide.
   */
  lemma OrderMattersIffCollision(o: Owners, h: Hash, replicas: nat, ks: seq<int64>)
    ensures CollisionFree(h, replicas, ks) <==> OrderIsFree(o, h, replicas, ks)
  {
    if CollisionFree(h, replicas, ks) {
      forall a: seq<int64>, b: seq<int64> | multiset(a) == multiset(ks) && multiset(b) == multiset(ks)
        ensures SameAnswers(o, h, replicas, a, b)
      {
        SameOwnersInAnyOrder(o, h, replicas, ks, a);
        SameOwnersInAnyOrder(o, h, replicas, ks, b);
      }
    } else {
      var k, l, p :| k in ks && l in ks && HasPoint(h, replicas, k, p) && HasPoint(h, replicas, l, p) && k != l;
      var i: nat :| i < replicas && Point(h, k, i) == p;
      var q := Itoa(Label(k, i));
      var a, b := MoveToEnd(ks, k), MoveToEnd(ks, l);
      LastKeyAnswers(o, h, replicas, a, p);
      LastKeyAnswers(o, h, replicas, b, p);
      assert h(q) == p;
      assert !SameAnswers(o, h, replicas, a, b);
    }
  }
}
