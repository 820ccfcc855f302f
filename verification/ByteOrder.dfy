/**
 Byte strings (Go's `string` and `[]byte`), their lexicographic order (bytes.Compare, and the
 order of sort.StringSlice), and the key search an ordered bucket offers.
 */
module ByteOrder {
  import opened Wrappers
  import Sorting

  type byte = n: int | 0 <= n < 256
  type Bytes = seq<byte>
  type uint64 = n: int | 0 <= n < 0x1_0000_0000_0000_0000

  predicate Less(a: Bytes, b: Bytes) {
    b != [] && (a == [] || a[0] < b[0] || (a[0] == b[0] && Less(a[1..], b[1..])))
  }

  predicate Leq(a: Bytes, b: Bytes) {
    a == b || Less(a, b)
  }

  /** a and b agree before position n. */
  predicate AgreeTo(a: Bytes, b: Bytes, n: nat) {
    n <= |a| && n <= |b| && a[..n] == b[..n]
  }

  /** Lexicographic: at the first position where they differ a has the smaller byte, or a ends there and b does not. */
  lemma {:induction false} LessIsLexicographic(a: Bytes, b: Bytes)
    ensures Less(a, b) <==> exists n: nat :: AgreeTo(a, b, n) && n < |b| && (n == |a| || a[n] < b[n])
  {
    if a == [] || b == [] || a[0] != b[0] {
      assert AgreeTo(a, b, 0);
      forall n: nat | AgreeTo(a, b, n) ensures n == 0 || (a != [] && b != [] && a[0] == b[0]) {
        assert n > 0 ==> a[..n][0] == b[..n][0];
      }
    } else {
      LessIsLexicographic(a[1..], b[1..]);
      forall n: nat | n < |a| && n < |b| ensures AgreeTo(a, b, n + 1) <==> AgreeTo(a[1..], b[1..], n) {
        assert a[..n + 1] == [a[0]] + a[1..][..n] && b[..n + 1] == [b[0]] + b[1..][..n];
      }
      if n: nat :| AgreeTo(a[1..], b[1..], n) && n < |b[1..]| && (n == |a[1..]| || a[1..][n] < b[1..][n]) {
        assert AgreeTo(a, b, n + 1);
      }
      if n: nat :| AgreeTo(a, b, n) && n < |b| && (n == |a| || a[n] < b[n]) {
        assert AgreeTo(a[1..], b[1..], n - 1);
      }
    }
  }

  lemma {:induction false} Irreflexive(a: Bytes)
    ensures !Less(a, a)
  {
    if a != [] { Irreflexive(a[1..]); }
  }

  lemma {:induction false} Trichotomy(a: Bytes, b: Bytes)
    ensures Less(a, b) || a == b || Less(b, a)
  {
    if a != [] && b != [] && a[0] == b[0] {
      Trichotomy(a[1..], b[1..]);
      assert a == [a[0]] + a[1..] && b == [b[0]] + b[1..];
    }
  }

  lemma {:induction false} Transitive(a: Bytes, b: Bytes, c: Bytes)
    requires Less(a, b) && Less(b, c)
    ensures Less(a, c)
  {
    if a != [] && a[0] == b[0] == c[0] { Transitive(a[1..], b[1..], c[1..]); }
  }

  lemma LeqTransitive(a: Bytes, b: Bytes, c: Bytes)
    requires Leq(a, b) && Leq(b, c)
    ensures Leq(a, c)
  {
    if a != b && b != c { Transitive(a, b, c); }
  }

  lemma LeqIsTotalOrder()
    ensures Sorting.TotalOrder(Leq)
  {
    forall a: Bytes, b: Bytes ensures Leq(a, b) || Leq(b, a) { Trichotomy(a, b); }
    forall a: Bytes, b: Bytes | Leq(a, b) && Leq(b, a) ensures a == b {
      if a != b { Transitive(a, b, a); Irreflexive(a); }
    }
    forall a: Bytes, b: Bytes, c: Bytes | Leq(a, b) && Leq(b, c) ensures Leq(a, c) {
      LeqTransitive(a, b, c);
    }
  }

  /** What sort.StringSlice(s).Sort() leaves in s. */
  function SortStrings(s: seq<Bytes>): (r: seq<Bytes>)
    ensures Sorting.Sorted(r, Leq) && multiset(r) == multiset(s)
    ensures forall x :: x in r <==> x in s
  {
    LeqIsTotalOrder();
    Sorting.SortMembers(s, Leq);
    Sorting.Sort(s, Leq)
  }

  lemma SortedStringsUnique(a: seq<Bytes>, b: seq<Bytes>)
    requires Sorting.Sorted(a, Leq) && Sorting.Sorted(b, Leq) && multiset(a) == multiset(b)
    ensures a == b
  {
    LeqIsTotalOrder();
    Sorting.SortedUnique(a, b, Leq);
  }

  lemma ExtremesExist(s: set<Bytes>)
    requires s != {}
    ensures exists k :: k in s && forall j | j in s :: Leq(k, j)
    ensures exists k :: k in s && forall j | j in s :: Leq(j, k)
  {
    LeqIsTotalOrder();
    Sorting.ExtremesExist(s, Leq);
  }

  /** k is the least key at or after `low`, or None past the end. */
  ghost predicate LeastFrom(keys: set<Bytes>, low: Bytes, k: Option<Bytes>) {
    match k
    case None => forall j | j in keys :: Less(j, low)
    case Some(at) => at in keys && Leq(low, at) && forall j | j in keys && Leq(low, j) :: Leq(at, j)
  }

  /** k is the least key after `at`, or None past the end. */
  ghost predicate LeastAfter(keys: set<Bytes>, at: Bytes, k: Option<Bytes>) {
    match k
    case None => forall j | j in keys :: Leq(j, at)
    case Some(next) => next in keys && Less(at, next) && forall j | j in keys && Less(at, j) :: Leq(next, j)
  }

  /** Cursor.Seek: the least key at or after `from`. */
  method Seek(keys: set<Bytes>, from: Bytes) returns (k: Option<Bytes>)
    ensures LeastFrom(keys, from, k)
  {
    var above := set j | j in keys && Leq(from, j);
    if above == {} {
      forall j | j in keys ensures Less(j, from) {
        assert j !in above;
        Trichotomy(j, from);
      }
      return None;
    }
    ExtremesExist(above);
    var least :| least in above && forall j | j in above :: Leq(least, j);
    return Some(least);
  }

  /** Cursor.Next: the least key after `at`, which itself may have been deleted meanwhile. */
  method Next(keys: set<Bytes>, at: Bytes) returns (k: Option<Bytes>)
    ensures LeastAfter(keys, at, k)
  {
    var above := set j | j in keys && Less(at, j);
    if above == {} {
      forall j | j in keys ensures Leq(j, at) {
        assert j !in above;
        Trichotomy(j, at);
      }
      return None;
    }
    ExtremesExist(above);
    var least :| least in above && forall j | j in above :: Leq(least, j);
    return Some(least);
  }

  /** Cursor.Last: the greatest key. */
  method Last(keys: set<Bytes>) returns (k: Option<Bytes>)
    ensures k.None? <==> keys == {}
    ensures k.Some? ==> k.value in keys && forall j | j in keys :: Leq(j, k.value)
  {
    if keys == {} { return None; }
    ExtremesExist(keys);
    var greatest :| greatest in keys && forall j | j in keys :: Leq(j, greatest);
    return Some(greatest);
  }
}
