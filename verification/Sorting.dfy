/** Go's `sort` package, as far as its callers depend on it: the sorted rearrangement of a slice. */
module Sorting {
  ghost predicate TotalOrder<T(!new)>(leq: (T, T) -> bool) {
    && (forall a, b :: leq(a, b) || leq(b, a))
    && (forall a, b :: leq(a, b) && leq(b, a) ==> a == b)
    && (forall a, b, c :: leq(a, b) && leq(b, c) ==> leq(a, c))
  }

  predicate Sorted<T>(s: seq<T>, leq: (T, T) -> bool) {
    forall i, j | 0 <= i < j < |s| :: leq(s[i], s[j])
  }

  function Insert<T(!new)>(x: T, s: seq<T>, leq: (T, T) -> bool): (r: seq<T>)
    requires TotalOrder(leq) && Sorted(s, leq)
    ensures Sorted(r, leq) && multiset(r) == multiset(s) + multiset{x}
  {
    if s == [] then [x]
    else if leq(x, s[0]) then
      assert forall j | 0 <= j < |s| :: leq(x, s[j]);
      [x] + s
    else
      var rest := Insert(x, s[1..], leq);
      assert s == [s[0]] + s[1..];
      assert forall y | y in rest :: leq(s[0], y) by {
        forall y | y in rest ensures leq(s[0], y) {
          assert y in multiset(rest);
        }
      }
      [s[0]] + rest
  }

  function Sort<T(!new)>(s: seq<T>, leq: (T, T) -> bool): (r: seq<T>)
    requires TotalOrder(leq)
    ensures Sorted(r, leq) && multiset(r) == multiset(s)
  {
    if s == [] then []
    else
      assert s == [s[0]] + s[1..];
      Insert(s[0], Sort(s[1..], leq), leq)
  }

  /** A sorted rearrangement is unique, so any correct sorting routine computes `Sort`. */
  lemma {:induction false} SortedUnique<T(!new)>(a: seq<T>, b: seq<T>, leq: (T, T) -> bool)
    requires TotalOrder(leq) && Sorted(a, leq) && Sorted(b, leq)
    requires multiset(a) == multiset(b)
    ensures a == b
  {
    assert |a| == |multiset(a)| == |multiset(b)| == |b|;
    if a != [] {
      assert a[0] in multiset(b) && b[0] in multiset(a);
      assert a[0] in b && b[0] in a;
      assert leq(a[0], b[0]) && leq(b[0], a[0]);
      assert a == [a[0]] + a[1..] && b == [b[0]] + b[1..];
      assert multiset(a[1..]) == multiset(a) - multiset{a[0]};
      assert multiset(b[1..]) == multiset(b) - multiset{b[0]};
      SortedUnique(a[1..], b[1..], leq);
    }
  }

  /** Membership survives sorting. */
  lemma SortMembers<T(!new)>(s: seq<T>, leq: (T, T) -> bool)
    requires TotalOrder(leq)
    ensures forall x :: x in Sort(s, leq) <==> x in s
  {
    forall x ensures x in Sort(s, leq) <==> x in s {
      assert x in Sort(s, leq) <==> x in multiset(Sort(s, leq));
      assert x in s <==> x in multiset(s);
    }
  }

  /** Every finite non-empty set has a least and a greatest element. */
  lemma {:induction false} ExtremesExist<T(!new)>(s: set<T>, leq: (T, T) -> bool)
    requires TotalOrder(leq) && s != {}
    ensures exists k :: k in s && forall j | j in s :: leq(k, j)
    ensures exists k :: k in s && forall j | j in s :: leq(j, k)
  {
    var x :| x in s;
    if s == {x} {
      assert forall j | j in s :: leq(x, j) && leq(j, x);
    } else {
      var rest := s - {x};
      ExtremesExist(rest, leq);
      var low :| low in rest && forall j | j in rest :: leq(low, j);
      var high :| high in rest && forall j | j in rest :: leq(j, high);
      var low', high' := if leq(x, low) then x else low, if leq(high, x) then x else high;
      assert forall j | j in s :: j == x || j in rest;
      assert low' in s && forall j | j in s :: leq(low', j);
      assert high' in s && forall j | j in s :: leq(j, high');
    }
  }
}
