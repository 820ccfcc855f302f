/**
 db/node/store/store.go, as a function: what a log of commands does to the key/value map.
 The commands are those that `Set`, `Add` and `Delete` produce; `Noop` stands for the entries
 Raft keeps to itself and never hands to the state machine.
 */
module Replay {
  import opened Wrappers
  import opened ByteOrder

  type Kv = map<Bytes, Bytes>

  datatype Command = Add(key: Bytes, value: Bytes) | Set(key: Bytes, value: Bytes) | Delete(key: Bytes) | Noop

  predicate On(c: Command, k: Bytes) {
    !c.Noop? && c.key == k
  }

  function Step(m: Kv, c: Command): Kv {
    match c
    case Add(k, v) => if k in m then m else m[k := v]
    case Set(k, v) => m[k := v]
    case Delete(k) => m - {k}
    case Noop => m
  }

  function Run(log: seq<Command>, m: Kv): Kv {
    if log == [] then m else Step(Run(log[..|log| - 1], m), log[|log| - 1])
  }

  lemma {:induction false} RunConcat(a: seq<Command>, b: seq<Command>, m: Kv)
    ensures Run(a + b, m) == Run(b, Run(a, m))
  {
    if b == [] {
      assert a + b == a;
    } else {
      assert (a + b)[..|a + b| - 1] == a + b[..|b| - 1];
      RunConcat(a, b[..|b| - 1], m);
    }
  }

  // ---- one key at a time ----

  /** What a log does to the cell of one key. */
  function Cell(log: seq<Command>, k: Bytes, x: Option<Bytes>): Option<Bytes> {
    if log == [] then x
    else
      var y, c := Cell(log[..|log| - 1], k, x), log[|log| - 1];
      if !On(c, k) then y
      else match c
        case Add(_, v) => if y.Some? then y else Some(v)
        case Set(_, v) => Some(v)
        case Delete(_) => None
        case Noop => y
  }

  lemma {:induction false} RunIsCellwise(log: seq<Command>, m: Kv, k: Bytes)
    ensures Lookup(Run(log, m), k) == Cell(log, k, Lookup(m, k))
  {
    if log != [] { RunIsCellwise(log[..|log| - 1], m, k); }
  }

  lemma {:induction false} CellConcat(a: seq<Command>, b: seq<Command>, k: Bytes, x: Option<Bytes>)
    ensures Cell(a + b, k, x) == Cell(b, k, Cell(a, k, x))
  {
    if b == [] {
      assert a + b == a;
    } else {
      assert (a + b)[..|a + b| - 1] == a + b[..|b| - 1];
      CellConcat(a, b[..|b| - 1], k, x);
    }
  }

  // ---- closed form ----

  predicate IsSet(c: Command, k: Bytes) { c.Set? && c.key == k }
  predicate IsAdd(c: Command, k: Bytes) { c.Add? && c.key == k }
  predicate IsDelete(c: Command, k: Bytes) { c.Delete? && c.key == k }

  /** Position n holds the last Delete of k, or n is -1 and there is none. */
  ghost predicate LastDelete(log: seq<Command>, k: Bytes, n: int) {
    -1 <= n < |log| && (n >= 0 ==> IsDelete(log[n], k)) && forall j | n < j < |log| :: !IsDelete(log[j], k)
  }

  ghost predicate LastSet(log: seq<Command>, k: Bytes, n: int) {
    -1 <= n < |log| && (n >= 0 ==> IsSet(log[n], k)) && forall j | n < j < |log| :: !IsSet(log[j], k)
  }

  /** Position n holds the first Add of k after position d, or n is |log| and there is none. */
  ghost predicate FirstAddAfter(log: seq<Command>, k: Bytes, d: int, n: int) {
    -1 <= d < n <= |log| && (n < |log| ==> IsAdd(log[n], k)) && forall j | d < j < n :: !IsAdd(log[j], k)
  }

  /**
   After any log from the empty map, k holds the value of its last Set if that comes after its
   last Delete, else of its first Add after that Delete, else nothing.
   */
  lemma {:induction false} ClosedForm(log: seq<Command>, k: Bytes, d: int, s: int, a: int)
    requires LastDelete(log, k, d) && LastSet(log, k, s) && FirstAddAfter(log, k, d, a)
    ensures Lookup(Run(log, map[]), k) ==
            if s > d then Some(log[s].value) else if a < |log| then Some(log[a].value) else None
  {
    RunIsCellwise(log, map[], k);
    ClosedCell(log, k, d, s, a);
  }

  lemma {:induction false} ClosedCell(log: seq<Command>, k: Bytes, d: int, s: int, a: int)
    requires LastDelete(log, k, d) && LastSet(log, k, s) && FirstAddAfter(log, k, d, a)
    ensures Cell(log, k, None) ==
            if s > d then Some(log[s].value) else if a < |log| then Some(log[a].value) else None
  {
    if log != [] {
      var before := log[..|log| - 1];
      var d', s' := PreviousDelete(before, k), PreviousSet(before, k);
      var a' := NextAdd(before, k, d', d' + 1);
      ClosedCell(before, k, d', s', a');
      if a' < |before| { assert IsAdd(log[a'], k); }
    }
  }

  ghost function PreviousDelete(log: seq<Command>, k: Bytes): (n: int)
    ensures LastDelete(log, k, n)
  {
    if log == [] then -1
    else if IsDelete(log[|log| - 1], k) then |log| - 1
    else PreviousDelete(log[..|log| - 1], k)
  }

  ghost function PreviousSet(log: seq<Command>, k: Bytes): (n: int)
    ensures LastSet(log, k, n)
  {
    if log == [] then -1
    else if IsSet(log[|log| - 1], k) then |log| - 1
    else PreviousSet(log[..|log| - 1], k)
  }

  ghost function NextAdd(log: seq<Command>, k: Bytes, d: int, from: int): (n: int)
    requires -1 <= d < from <= |log| && forall j | d < j < from :: !IsAdd(log[j], k)
    ensures FirstAddAfter(log, k, d, n)
    decreases |log| - from
  {
    if from == |log| || IsAdd(log[from], k) then from else NextAdd(log, k, d, from + 1)
  }

  // ---- independence of keys ----

  function Project(log: seq<Command>, k: Bytes): seq<Command> {
    if log == [] then []
    else Project(log[..|log| - 1], k) + if On(log[|log| - 1], k) then [log[|log| - 1]] else []
  }

  lemma {:induction false} CellOfProjection(log: seq<Command>, k: Bytes, x: Option<Bytes>)
    ensures Cell(Project(log, k), k, x) == Cell(log, k, x)
  {
    if log != [] {
      CellOfProjection(log[..|log| - 1], k, x);
      CellConcat(Project(log[..|log| - 1], k), Project(log, k)[|Project(log[..|log| - 1], k)|..], k, x);
      assert Project(log, k) == Project(log[..|log| - 1], k) + Project(log, k)[|Project(log[..|log| - 1], k)|..];
    }
  }

  /** Only the order of commands on the same key matters: logs with equal projections do the same to any map. */
  lemma TraceEquivalence(a: seq<Command>, b: seq<Command>, m: Kv)
    requires forall k :: Project(a, k) == Project(b, k)
    ensures Run(a, m) == Run(b, m)
  {
    forall k ensures Lookup(Run(a, m), k) == Lookup(Run(b, m), k) {
      assert Project(a, k) == Project(b, k);
      RunIsCellwise(a, m, k);
      RunIsCellwise(b, m, k);
      CellOfProjection(a, k, Lookup(m, k));
      CellOfProjection(b, k, Lookup(m, k));
    }
    SameMap(Run(a, m), Run(b, m));
  }

  /** A key's value depends on the commands on that key alone. */
  lemma ValueFromProjection(log: seq<Command>, m: Kv, k: Bytes)
    ensures Lookup(Run(Project(log, k), m), k) == Lookup(Run(log, m), k)
  {
    RunIsCellwise(log, m, k);
    RunIsCellwise(Project(log, k), m, k);
    CellOfProjection(log, k, Lookup(m, k));
  }

  /** Commands on different keys commute anywhere in a log. */
  lemma DifferentKeysCommute(a: seq<Command>, c: Command, d: Command, b: seq<Command>, m: Kv)
    requires c.Noop? || d.Noop? || c.key != d.key
    ensures Run(a + [c, d] + b, m) == Run(a + [d, c] + b, m)
  {
    var n := Run(a, m);
    assert Step(Step(n, c), d) == Step(Step(n, d), c);
    TwoSteps(n, c, d);
    TwoSteps(n, d, c);
    RunConcat(a, [c, d], m);
    RunConcat(a, [d, c], m);
    RunConcat(a + [c, d], b, m);
    RunConcat(a + [d, c], b, m);
  }

  lemma TwoSteps(m: Kv, c: Command, d: Command)
    ensures Run([c, d], m) == Step(Step(m, c), d)
  {
    assert [c, d][..1] == [c];
    assert Run([c], m) == Step(Run([c][..0], m), c);
  }

  // ---- overlapping replay ----

  /** A log that leaves a cell empty would at most have kept a value already there. */
  lemma {:induction false} EmptiedOrKept(w: seq<Command>, k: Bytes, x: Option<Bytes>, v: Bytes)
    requires Cell(w, k, x) == None
    ensures Cell(w, k, Some(v)) in {None, Some(v)}
  {
    if w != [] && !IsDelete(w[|w| - 1], k) {
      EmptiedOrKept(w[..|w| - 1], k, x, v);
    }
  }

  /** Running a whole log after any prefix of it is running it once. */
  lemma {:induction false} CellReplay(w: seq<Command>, n: nat, k: Bytes, x: Option<Bytes>)
    requires n <= |w|
    ensures Cell(w, k, Cell(w[..n], k, x)) == Cell(w, k, x)
  {
    if w != [] {
      var w' := w[..|w| - 1];
      if n < |w| {
        assert w'[..n] == w[..n];
        CellReplay(w', n, k, x);
      } else {
        assert w[..n] == w;
        assert w'[..|w'|] == w';
        CellReplay(w', |w'|, k, x);
        if Cell(w', k, x) == None && Cell(w, k, x).Some? {
          EmptiedOrKept(w', k, x, Cell(w, k, x).value);
        }
      }
    }
  }

  /**
   Restoring the image of the first i commands and replaying from any earlier position j to the
   end gives the state of one full replay. Nothing is assumed about the commands.
   */
  lemma OverlappingReplay(log: seq<Command>, j: nat, i: nat, m: Kv)
    requires j <= i <= |log|
    ensures Run(log[j..], Run(log[..i], m)) == Run(log, m)
  {
    var start := Run(log[..j], m);
    assert log[..i] == log[..j] + log[j..i] && log == log[..j] + log[j..];
    RunConcat(log[..j], log[j..i], m);
    RunConcat(log[..j], log[j..], m);
    assert log[j..i] == log[j..][..i - j];
    var whole, part := Run(log[j..], start), Run(log[j..i], start);
    forall k ensures Lookup(Run(log[j..], part), k) == Lookup(whole, k) {
      RunIsCellwise(log[j..], part, k);
      RunIsCellwise(log[j..], start, k);
      RunIsCellwise(log[j..i], start, k);
      CellReplay(log[j..], i - j, k, Lookup(start, k));
    }
    SameMap(Run(log[j..], part), whole);
  }

  // ---- add-only logs ----

  predicate AddOnly(log: seq<Command>) {
    forall j | 0 <= j < |log| :: log[j].Add? || log[j].Noop?
  }

  /** The value of the first Add of k. */
  function FirstAdd(log: seq<Command>, k: Bytes): Option<Bytes> {
    if log == [] then None
    else
      var before := FirstAdd(log[..|log| - 1], k);
      if before.Some? then before
      else if IsAdd(log[|log| - 1], k) then Some(log[|log| - 1].value)
      else None
  }

  lemma {:induction false} FirstAddIsFirst(log: seq<Command>, k: Bytes, n: int)
    requires FirstAddAfter(log, k, -1, n)
    ensures FirstAdd(log, k) == if n < |log| then Some(log[n].value) else None
  {
    if log != [] {
      var before := log[..|log| - 1];
      if n < |before| {
        assert FirstAddAfter(before, k, -1, n);
        FirstAddIsFirst(before, k, n);
      } else {
        assert FirstAddAfter(before, k, -1, |before|);
        FirstAddIsFirst(before, k, |before|);
      }
    }
  }

  lemma {:induction false} AddOnlyCell(log: seq<Command>, k: Bytes, x: Option<Bytes>)
    requires AddOnly(log)
    ensures Cell(log, k, x) == if x.Some? then x else FirstAdd(log, k)
  {
    if log != [] { AddOnlyCell(log[..|log| - 1], k, x); }
  }

  /** An add-only log makes every key hold its first added value. */
  lemma {:induction false} AddOnlyValue(log: seq<Command>, k: Bytes)
    requires AddOnly(log)
    ensures Lookup(Run(log, map[]), k) == FirstAdd(log, k)
  {
    RunIsCellwise(log, map[], k);
    AddOnlyCell(log, k, None);
  }

  lemma {:induction false} FirstAddGrows(a: seq<Command>, b: seq<Command>, k: Bytes)
    ensures FirstAdd(a + b, k) == if FirstAdd(a, k).Some? then FirstAdd(a, k) else FirstAdd(b, k)
  {
    if b == [] {
      assert a + b == a;
    } else {
      assert (a + b)[..|a + b| - 1] == a + b[..|b| - 1];
      FirstAddGrows(a, b[..|b| - 1], k);
    }
  }

  /** A replayed stretch [from, to) of a log. */
  datatype Stretch = Stretch(from: nat, to: nat)

  function Max(a: nat, b: nat): nat { if a < b then b else a }

  /** How far a log is covered after replaying stretches on top of its first c commands. */
  function Covered(c: nat, stretches: seq<Stretch>): nat
    decreases |stretches|
  {
    if stretches == [] then c else Covered(Max(c, stretches[0].to), stretches[1..])
  }

  /** Each stretch starts inside what is covered when its turn comes, and lies in the log. */
  predicate Connected(log: seq<Command>, c: nat, stretches: seq<Stretch>)
    decreases |stretches|
  {
    stretches == [] ||
    (stretches[0].from <= c && stretches[0].from <= stretches[0].to <= |log| &&
     Connected(log, Max(c, stretches[0].to), stretches[1..]))
  }

  /** Replays the stretches one after another on top of m. */
  function RunStretches(log: seq<Command>, c: nat, m: Kv, stretches: seq<Stretch>): Kv
    requires Connected(log, c, stretches)
    decreases |stretches|
  {
    if stretches == [] then m
    else
      RunStretches(log, Max(c, stretches[0].to), Run(log[stretches[0].from..stretches[0].to], m), stretches[1..])
  }

  /** Stretches of a log, replayed on any snapshot of it, always give the state of what they cover. */
  ghost predicate StretchesHarmless(log: seq<Command>) {
    forall c: nat, stretches | c <= |log| && Connected(log, c, stretches) ::
      Covered(c, stretches) <= |log| &&
      RunStretches(log, c, Run(log[..c], map[]), stretches) == Run(log[..Covered(c, stretches)], map[])
  }

  /** Running a after b, with both already done, is no news: no Delete meets an Add or Set, no Set another value. */
  predicate Compatible(a: Command, b: Command) {
    a.Noop? || b.Noop? || a.key != b.key || ((a.Delete? <==> b.Delete?) && (a.Set? && b.Set? ==> a.value == b.value))
  }

  ghost predicate AllCompatible(log: seq<Command>) {
    forall i, j | 0 <= i < j < |log| :: Compatible(log[i], log[j])
  }

  /** A compatible log settles: no command it has done would change any later state of it. */
  lemma {:induction false} DoneIsDone(log: seq<Command>, c: nat, j: nat)
    requires AllCompatible(log) && j < c <= |log|
    ensures Step(Run(log[..c], map[]), log[j]) == Run(log[..c], map[])
  {
    assert log[..c][..c - 1] == log[..c - 1];
    if j < c - 1 {
      DoneIsDone(log, c - 1, j);
      assert Compatible(log[j], log[c - 1]);
    }
  }

  lemma {:induction false} StretchIsDone(log: seq<Command>, c: nat, from: nat, to: nat)
    requires AllCompatible(log) && from <= to <= c <= |log|
    ensures Run(log[from..to], Run(log[..c], map[])) == Run(log[..c], map[])
  {
    if from < to {
      assert log[from..to][..to - from - 1] == log[from..to - 1];
      StretchIsDone(log, c, from, to - 1);
      DoneIsDone(log, c, to - 1);
    }
  }

  /** On a compatible log one stretch gives the state of what is covered after it. */
  lemma CompatibleStretch(log: seq<Command>, c: nat, from: nat, to: nat)
    requires AllCompatible(log) && from <= c <= |log| && from <= to <= |log|
    ensures Run(log[from..to], Run(log[..c], map[])) == Run(log[..Max(c, to)], map[])
  {
    if to <= c {
      StretchIsDone(log, c, from, to);
    } else {
      OverlappingReplay(log[..to], from, c, map[]);
      assert log[..to][from..] == log[from..to] && log[..to][..c] == log[..c];
    }
  }

  lemma {:induction false} CompatibleStretches(log: seq<Command>, c: nat, stretches: seq<Stretch>)
    requires AllCompatible(log) && c <= |log| && Connected(log, c, stretches)
    ensures Covered(c, stretches) <= |log|
    ensures RunStretches(log, c, Run(log[..c], map[]), stretches) == Run(log[..Covered(c, stretches)], map[])
    decreases |stretches|
  {
    if stretches != [] {
      CompatibleStretch(log, c, stretches[0].from, stretches[0].to);
      CompatibleStretches(log, Max(c, stretches[0].to), stretches[1..]);
    }
  }

  /** Two incompatible commands: replaying the first alone after the second undoes the second. */
  lemma ConflictShows(log: seq<Command>, i: nat, j: nat)
    requires i < j < |log| && !Compatible(log[i], log[j])
    ensures Connected(log, j + 1, [Stretch(i, i + 1)]) && Covered(j + 1, [Stretch(i, i + 1)]) == j + 1
    ensures RunStretches(log, j + 1, Run(log[..j + 1], map[]), [Stretch(i, i + 1)]) != Run(log[..j + 1], map[])
  {
    var m := Run(log[..j + 1], map[]);
    assert log[..j + 1][..j] == log[..j];
    assert [Stretch(i, i + 1)][1..] == [];
    assert log[i..i + 1] == [log[i]] && [log[i]][..0] == [];
    assert Run([log[i]], m) == Step(m, log[i]);
    var k := log[i].key;
    assert Lookup(Step(m, log[i]), k) != Lookup(m, k);
  }

  /**
   Partial replays of a log, in any number and with any overlap, always give the state of what they
   cover if and only if its commands on each key are compatible: all Deletes or none, and no two
   Sets of different values. Add-only logs are the case the service produces.
   */
  lemma StretchesHarmlessIff(log: seq<Command>)
    ensures StretchesHarmless(log) <==> AllCompatible(log)
  {
    if AllCompatible(log) {
      forall c: nat, stretches | c <= |log| && Connected(log, c, stretches)
        ensures Covered(c, stretches) <= |log| &&
                RunStretches(log, c, Run(log[..c], map[]), stretches) == Run(log[..Covered(c, stretches)], map[])
      {
        CompatibleStretches(log, c, stretches);
      }
    } else {
      var i, j :| 0 <= i < j < |log| && !Compatible(log[i], log[j]);
      ConflictShows(log, i, j);
    }
  }

  /** With Sets of two values a stretch that stops short can bring the old value back. */
  lemma SetBreaksStretches(k: Bytes, v: Bytes, w: Bytes)
    requires v != w
    ensures !StretchesHarmless([Set(k, v), Set(k, w)])
  {
    var log := [Set(k, v), Set(k, w)];
    StretchesHarmlessIff(log);
    assert !Compatible(log[0], log[1]);
  }

  /** On an add-only log, what a snapshot at c and stretches on top of it cover is what they hold. */
  lemma AddOnlyStretches(log: seq<Command>, c: nat, stretches: seq<Stretch>)
    requires AddOnly(log) && c <= |log| && Connected(log, c, stretches)
    ensures Covered(c, stretches) <= |log|
    ensures RunStretches(log, c, Run(log[..c], map[]), stretches) == Run(log[..Covered(c, stretches)], map[])
  {
    CompatibleStretches(log, c, stretches);
  }

  /** A second commit of a key already added changes nothing, now or later. */
  lemma DuplicateCommit(a: seq<Command>, c: Command, b: seq<Command>)
    requires AddOnly(a) && c.Add? && FirstAdd(a, c.key).Some?
    ensures Run(a + [c] + b, map[]) == Run(a + b, map[])
  {
    AddOnlyValue(a, c.key);
    RunConcat(a, [c], map[]);
    RunConcat(a + [c], b, map[]);
    RunConcat(a, b, map[]);
    assert [c][..0] == [];
    assert Run([c], Run(a, map[])) == Step(Run(a, map[]), c);
  }
}
