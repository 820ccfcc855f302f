/** db/master/shardmaster.go: the ring of shards, and which shard owns which of its points. */
module ShardMaster {
  import opened HashRing

  function Min(a: int, b: int): int { if a < b then a else b }

  /** The shards 0, 1, ..., n - 1 in the order they are added. */
  function Shards(n: int64): (ks: seq<int64>)
    requires n >= 0
    ensures |ks| == n && forall k | 0 <= k < n :: ks[k] == k
  {
    seq(n as int, k requires 0 <= k < n => k as int64)
  }

  function Count(shardCount: int64): int64 { if shardCount < 0 then 0 else shardCount }

  function Ring(h: Hash, n: int64): Owners
    requires n >= 0
  {
    OwnAll(map[], h, n, Shards(n))
  }

  lemma OneMore(o: Owners, h: Hash, replicas: nat, ks: seq<int64>, i: nat)
    requires i < |ks| && o == OwnAll(map[], h, replicas, ks[..i])
    ensures OwnAll(o, h, replicas, [ks[i]]) == OwnAll(map[], h, replicas, ks[..i + 1])
  {
    assert ks[..i + 1] == ks[..i] + [ks[i]];
    OwnAllConcat(map[], h, replicas, ks[..i], [ks[i]]);
  }

  /** NewShardMasterServer: one Add per shard, with as many replicas as there are shards. */
  method NewRing(shardCount: int64, h: Hash) returns (m: Map)
    ensures fresh(m) && m.Valid() && m.hash == h && m.replicas == shardCount
    ensures m.hashMap == Ring(h, Count(shardCount))
  {
    m := new Map(shardCount, h);
    var i := 0;
    ghost var ks := Shards(Count(shardCount));
    while i < shardCount
      invariant 0 <= i <= Count(shardCount)
      invariant m.Valid() && m.hashMap == OwnAll(map[], h, Count(shardCount), ks[..i])
    {
      ghost var before := m.hashMap;
      m.Add([i]);
      OneMore(before, h, Count(shardCount), ks, i);
      i := i + 1;
    }
    assert ks[..i] == ks;
  }

  /** Every lookup on a ring of n > 0 shards names one of them; without shards it names 0. */
  lemma LookupNamesAShard(h: Hash, n: int64, x: int)
    requires n >= 0
    ensures n > 0 ==> Ring(h, n) != map[] && 0 <= OwnerAt(Ring(h, n), x) < n
    ensures n == 0 ==> OwnerAt(Ring(h, n), x) == 0
  {
    var o := Ring(h, n);
    if n > 0 {
      LastKeyOwns(h, n, Point(h, 0, 0));
      assert HasPoint(h, n, 0, Point(h, 0, 0));
      var p := NearestPoint(o.Keys, x);
      OwnAllAt(map[], h, n, Shards(n), p);
      LastAtMember(h, n, Shards(n), p);
    }
  }

  /** On the ring of n shards a point belongs to the greatest shard that has a replica there. */
  lemma LastKeyOwns(h: Hash, n: int64, p: int)
    requires n >= 0
    ensures p in Ring(h, n) <==> exists k: int64 | 0 <= k < n :: HasPoint(h, n, k, p)
    ensures p in Ring(h, n) ==> 0 <= Ring(h, n)[p] < n && HasPoint(h, n, Ring(h, n)[p], p) &&
                                forall k: int64 | Ring(h, n)[p] < k < n :: !HasPoint(h, n, k, p)
  {
    OwnAllAt(map[], h, n, Shards(n), p);
    GreatestOwns(h, n, n, p);
    assert Shards(n)[..n] == Shards(n);
  }

  lemma {:induction false} GreatestOwns(h: Hash, n: int64, m: int64, p: int)
    requires 0 <= m <= n
    ensures var last := LastAt(h, n, Shards(n)[..m], p);
            if last.None? then forall k: int64 | 0 <= k < m :: !HasPoint(h, n, k, p)
            else 0 <= last.value < m && HasPoint(h, n, last.value, p) &&
                 forall k: int64 | last.value < k < m :: !HasPoint(h, n, k, p)
    decreases m
  {
    if m > 0 {
      assert Shards(n)[..m][..m - 1] == Shards(n)[..m - 1];
      GreatestOwns(h, n, m - 1, p);
    }
  }

  // ---- exact ownership under a hash that separates labels ----

  /** No two different labels of the n shards hash alike. */
  ghost predicate SeparatesLabels(h: Hash, n: int64) {
    forall k: int64, i: nat, l: int64, j: nat
      | 0 <= k < n && i < n && 0 <= l < n && j < n && Point(h, k, i) == Point(h, l, j) :: Label(k, i) == Label(l, j)
  }

  /** The numbers below n. */
  ghost function Below(n: nat): (r: set<int>)
    ensures |r| == n && forall x :: x in r <==> 0 <= x < n
  {
    if n == 0 then {} else Below(n - 1) + {n - 1}
  }

  /** A function that is injective on n numbers and stays below m shows n <= m. */
  lemma Pigeonhole(f: int -> int, n: nat, m: nat)
    requires forall x | 0 <= x < n :: 0 <= f(x) < m
    requires forall a, b | 0 <= a < n && 0 <= b < n && f(a) == f(b) :: a == b
    ensures n <= m
  {
    ImageSize(f, 0, n);
    var image := set x: int | 0 <= x < n :: f(x);
    assert Below(m) == image + (Below(m) - image);
  }

  lemma {:induction false} ImageSize(f: int -> int, lo: int, hi: int)
    requires lo <= hi
    requires forall a, b | lo <= a < hi && lo <= b < hi && f(a) == f(b) :: a == b
    ensures |set x: int | lo <= x < hi :: f(x)| == hi - lo
    decreases hi - lo
  {
    var image := set x: int | lo <= x < hi :: f(x);
    if lo == hi {
      assert image == {};
    } else {
      ImageSize(f, lo, hi - 1);
      assert image == (set x: int | lo <= x < hi - 1 :: f(x)) + {f(hi - 1)};
    }
  }

  lemma NoWrap(k: int64, i: nat)
    requires 0 <= k <= 0x1_0000_0000 && i <= 0x1_0000_0000
    ensures Label(k, i) == 10 * k + i
  {
  }

  /** A 32-bit hash separates the labels of at most 2^32 shards, so labels never wrap around. */
  lemma FewShards(h: Hash, n: int64)
    requires n >= 0 && SeparatesLabels(h, n)
    ensures n <= 0x1_0000_0000
  {
    var cap: nat := 0x1_0000_0000;
    if n > cap {
      forall a: int64, b: int64 | 0 <= a <= cap && 0 <= b <= cap && Point(h, a, 0) == Point(h, b, 0) ensures a == b {
        NoWrap(a, 0);
        NoWrap(b, 0);
        assert Label(a, 0) == Label(b, 0);
      }
      TooMany(k requires 0 <= k <= cap => Point(h, k, 0), cap);
    }
  }

  /** No function injects the numbers up to m into those below m. */
  lemma TooMany(f: int --> int, m: nat)
    requires forall x | 0 <= x <= m :: f.requires(x) && 0 <= f(x) < m
    ensures exists a, b :: 0 <= a < b <= m && f(a) == f(b)
  {
    if forall a, b | 0 <= a < b <= m :: f(a) != f(b) {
      Pigeonhole(x => if 0 <= x <= m then f(x) else -1, m + 1, m);
    }
  }

  /** How many labels, from 10 * k on, shard k owns. */
  function Width(n: int64, k: int): int {
    if k == n - 1 then n else Min(10, n)
  }

  /** A shard with a replica where label 10 * k + i hashes to has that very label. */
  lemma SharesLabel(h: Hash, n: int64, k: int64, i: nat, l: int64)
    requires SeparatesLabels(h, n) && 0 <= k < n && i < n && 0 <= l < n
    ensures HasPoint(h, n, l, Point(h, k, i)) <==> 10 * l <= 10 * k + i < 10 * l + n
  {
    FewShards(h, n);
    NoWrap(k, i);
    if HasPoint(h, n, l, Point(h, k, i)) {
      var j: nat :| j < n && Point(h, l, j) == Point(h, k, i);
      NoWrap(l, j);
      assert Label(l, j) == Label(k, i);
    }
    if 10 * l <= 10 * k + i < 10 * l + n {
      var j: nat := 10 * k + i - 10 * l;
      NoWrap(l, j);
      assert Point(h, l, j) == Point(h, k, i);
    }
  }

  /** The label 10 * k + i belongs to the shard its number divided by 10 names, or to the last one. */
  lemma LabelOwner(h: Hash, n: int64, k: int64, i: nat)
    requires SeparatesLabels(h, n) && 0 <= k < n && i < n
    ensures Point(h, k, i) in Ring(h, n)
    ensures Ring(h, n)[Point(h, k, i)] == Min(n - 1, (10 * k + i) / 10)
  {
    var p, best: int64 := Point(h, k, i), Min(n - 1, (10 * k + i) / 10);
    LastKeyOwns(h, n, p);
    SharesLabel(h, n, k, i, k);
    SharesLabel(h, n, k, i, best);
    SharesLabel(h, n, k, i, Ring(h, n)[p]);
  }

  /** The points of a ring that a shard owns. */
  function Owned(o: Owners, k: int64): set<int> {
    set p | p in o && o[p] == k
  }

  lemma PointsDiffer(h: Hash, n: int64, k: int64, i: nat, j: nat)
    requires SeparatesLabels(h, n) && 0 <= k < n && i < n && j < n && Point(h, k, i) == Point(h, k, j)
    ensures i == j
  {
    FewShards(h, n);
    NoWrap(k, i);
    NoWrap(k, j);
    assert Label(k, i) == Label(k, j);
  }

  lemma OwnedPoints(h: Hash, n: int64, k: int64, p: int)
    requires SeparatesLabels(h, n) && 0 <= k < n
    ensures p in Owned(Ring(h, n), k) <==> exists i: nat | i < Width(n, k) :: Point(h, k, i) == p
  {
    forall i: nat | i < n && Point(h, k, i) == p ensures p in Owned(Ring(h, n), k) <==> i < Width(n, k) {
      LabelOwner(h, n, k, i);
    }
    if p in Ring(h, n) && Ring(h, n)[p] == k {
      LastKeyOwns(h, n, p);
      var i: nat :| i < n && Point(h, k, i) == p;
      assert i < Width(n, k);
    }
  }

  /**
   Up to ten shards share the ring evenly, n points each; from ten on every shard but the last owns
   exactly ten points and the last owns n.
   */
  lemma ExactOwnership(h: Hash, n: int64, k: int64)
    requires SeparatesLabels(h, n) && 0 <= k < n
    ensures |Owned(Ring(h, n), k)| == Width(n, k)
  {
    var f := (i: int) => if 0 <= i < n then Point(h, k, i) else -1;
    forall a, b | 0 <= a < Width(n, k) && 0 <= b < Width(n, k) && f(a) == f(b) ensures a == b {
      PointsDiffer(h, n, k, a, b);
    }
    ImageSize(f, 0, Width(n, k));
    var image := set i: int | 0 <= i < Width(n, k) :: f(i);
    forall p ensures p in image <==> p in Owned(Ring(h, n), k) {
      OwnedPoints(h, n, k, p);
      if i: nat :| i < Width(n, k) && Point(h, k, i) == p { assert f(i) == p; }
    }
    assert image == Owned(Ring(h, n), k);
  }
}
