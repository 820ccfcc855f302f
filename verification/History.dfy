/** Facts that some steps of a run establish and others end. */
module History {
  /** Step m established the fact, and no step after it and before step n ended it. */
  ghost predicate Since(starts: nat -> bool, stops: nat -> bool, m: nat, n: nat) {
    m < n && starts(m) && forall k: nat | m < k < n :: !stops(k)
  }

  /** A fact that holds at first never, and then after the steps that establish it until one ends it. */
  lemma {:induction false} HoldsSince(starts: nat -> bool, stops: nat -> bool, holds: nat -> bool, n: nat)
    requires !holds(0)
    requires forall k: nat {:trigger starts(k)} | k < n :: holds(k + 1) <==> starts(k) || (holds(k) && !stops(k))
    ensures holds(n) <==> exists m: nat :: Since(starts, stops, m, n)
  {
    if n > 0 {
      var last := n - 1;
      HoldsSince(starts, stops, holds, last);
      assert starts(last) ==> Since(starts, stops, last, n);
      forall m: nat | m < last
        ensures Since(starts, stops, m, n) <==> Since(starts, stops, m, last) && !stops(last)
      {
      }
      if m: nat :| Since(starts, stops, m, n) {
        assert m == last || Since(starts, stops, m, last);
      }
      if m: nat :| Since(starts, stops, m, last) {
        assert !stops(last) ==> Since(starts, stops, m, n);
      }
    }
  }

  /** What nothing ends. */
  function Never(): nat -> bool {
    (n: nat) => false
  }

  /** Something that only certain steps change stays as the last of them left it, or as it was at first. */
  lemma {:induction false} KeptSince<T>(changes: nat -> bool, value: nat -> T, m: nat, n: nat)
    requires m <= n && forall k: nat | m <= k < n :: !changes(k)
    requires forall k: nat {:trigger changes(k)} | m <= k < n && !changes(k) :: value(k + 1) == value(k)
    ensures value(n) == value(m)
  {
    if m < n {
      KeptSince(changes, value, m, n - 1);
      assert !changes(n - 1);
    }
  }
}
