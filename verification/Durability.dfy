/**
 The life of one database node's disk and memory: entries are stored, become committed and are
 applied, snapshots are taken and go bad, ranges of the log are deleted, and the node crashes and
 comes back, in any order and any number of times.
 */
module Durability {
  import opened Wrappers
  import ByteOrder
  import opened BoltStore
  import opened Replay
  import opened Store

  type uint64 = ByteOrder.uint64

  /** How many snapshots are kept. */
  const RETAIN := 2

  /**
   `log` is what the node has learned to be committed, `history` what its log store has gone through,
   and `files` are its snapshots, newest first; these outlive a crash.
   */
  datatype Node = Node(
    log: seq<RaftLog>,
    history: seq<Txn>,
    files: seq<SnapshotFile>,
    up: bool,
    applied: nat,
    m: Kv)

  const INIT := Node([], [], [], false, 0, map[])

  datatype Step =
    | Append(batch: seq<RaftLog>)
    | Drop(min: uint64, max: uint64)
    | Learn
    | ApplyNext
    | Snapshot
    | GoesBad(n: nat)
    | Crash
    | Restart

  /** Raft never stores anything else under the index of an entry that is committed. */
  ghost predicate Agrees(batch: seq<RaftLog>, log: seq<RaftLog>) {
    forall i: uint64 | LastInBatch(batch, i).Some? && i <= |log| :: 1 <= i && LastInBatch(batch, i).value == log[i - 1]
  }

  /** The next entry becomes known to be committed: it is the one stored. */
  predicate CanLearn(s: Node) {
    |s.log| + 1 < 0x1_0000_0000_0000_0000 && Live(s.history, |s.log| + 1) &&
    Latest(s.history, |s.log| + 1).value.index == |s.log| + 1 &&
    CommandOf(Latest(s.history, |s.log| + 1).value).Some?
  }

  /** The next entry can be applied: it is committed and has not been deleted. */
  predicate CanApply(s: Node) {
    s.up && s.applied < |s.log| && s.applied + 1 < 0x1_0000_0000_0000_0000 && Live(s.history, s.applied + 1) &&
    CommandOf(Latest(s.history, s.applied + 1).value).Some?
  }

  /** Snapshots are listed by index, the youngest first. */
  function Listed(file: SnapshotFile, files: seq<SnapshotFile>): (r: seq<SnapshotFile>)
    ensures forall f :: f in r <==> f == file || f in files
  {
    if files == [] || files[0].index <= file.index then [file] + files
    else
      assert files == [files[0]] + files[1..];
      [files[0]] + Listed(file, files[1..])
  }

  function Reaped(files: seq<SnapshotFile>): seq<SnapshotFile> {
    if |files| <= RETAIN then files else files[..RETAIN]
  }

  /** The map in the newest snapshot that restores. */
  function Restored(files: seq<SnapshotFile>): Kv {
    if files == [] then map[]
    else if files[0].image.Some? then files[0].image.value
    else Restored(files[1..])
  }

  /** A step that is not possible leaves the node alone; so does the lack of an entry that should be applied. */
  ghost function Next(s: Node, step: Step): Node {
    match step
    case Append(batch) =>
      if Agrees(batch, s.log) then s.(history := s.history + [Stored(batch)]) else s
    case Drop(min, max) =>
      s.(history := s.history + [Dropped(min, max)])
    case Learn =>
      if CanLearn(s) then s.(log := s.log + [Latest(s.history, |s.log| + 1).value]) else s
    case ApplyNext =>
      if CanApply(s) then
        var entry := Latest(s.history, s.applied + 1).value;
        s.(applied := s.applied + 1, m := Replay.Step(s.m, CommandOf(entry).value))
      else s
    case Snapshot =>
      if s.up && 0 < s.applied < 0x1_0000_0000_0000_0000 then
        s.(files := Reaped(Listed(SnapshotFile(s.applied, Some(s.m)), s.files)))
      else s
    case GoesBad(n) =>
      if n < |s.files| then s.(files := s.files[n := s.files[n].(image := None)]) else s
    case Crash =>
      s.(up := false, applied := 0, m := map[])
    case Restart =>
      if !s.up && Base(s.files).Some? then
        s.(up := true, applied := Base(s.files).value, m := Restored(s.files))
      else s
  }

  ghost function Run(s: Node, steps: seq<Step>): Node {
    if steps == [] then s else Next(Run(s, steps[..|steps| - 1]), steps[|steps| - 1])
  }

  // ---- what every run keeps ----

  ghost predicate DiskInv(s: Node) {
    Committed(s.log) && Retained(s.history, s.log) && TakenFrom(s.files, s.log)
  }

  ghost predicate Inv(s: Node) {
    DiskInv(s) && s.applied <= |s.log| && (s.up ==> s.m == StateAt(s.log, s.applied))
  }

  lemma StateAtGrows(log: seq<RaftLog>, entry: RaftLog, n: nat)
    requires n <= |log|
    ensures StateAt(log + [entry], n) == StateAt(log, n)
  {
    assert Commands(log + [entry])[..n] == Commands(log)[..n];
  }

  lemma LatestAfterAppend(history: seq<Txn>, batch: seq<RaftLog>, i: uint64)
    ensures Latest(history + [Stored(batch)], i) ==
            if LastInBatch(batch, i).Some? then LastInBatch(batch, i) else Latest(history, i)
  {
    assert (history + [Stored(batch)])[..|history|] == history;
  }

  lemma AppendKeepsRetained(history: seq<Txn>, batch: seq<RaftLog>, log: seq<RaftLog>)
    requires Retained(history, log) && Agrees(batch, log)
    ensures Retained(history + [Stored(batch)], log)
  {
    forall i: uint64 ensures Latest(history + [Stored(batch)], i) ==
                             if LastInBatch(batch, i).Some? then LastInBatch(batch, i) else Latest(history, i)
    {
      LatestAfterAppend(history, batch, i);
    }
  }

  lemma LearnKeepsInv(s: Node)
    requires Inv(s) && CanLearn(s)
    ensures Inv(Next(s, Learn))
  {
    var entry := Latest(s.history, |s.log| + 1).value;
    forall n: nat | n <= |s.log| ensures StateAt(s.log + [entry], n) == StateAt(s.log, n) {
      StateAtGrows(s.log, entry, n);
    }
  }

  lemma ApplyKeepsInv(s: Node)
    requires Inv(s) && CanApply(s)
    ensures Inv(Next(s, ApplyNext))
  {
    StateAtNext(s.log, s.applied);
    assert Latest(s.history, s.applied + 1).value == s.log[s.applied];
  }

  lemma {:induction false} RestoredIsTaken(files: seq<SnapshotFile>, log: seq<RaftLog>)
    requires TakenFrom(files, log) && FirstReadable(files).Some?
    ensures FirstReadable(files).value <= |log| && Restored(files) == StateAt(log, FirstReadable(files).value)
  {
    assert files[0] in files;
    if files[0].image.None? {
      assert forall f | f in files[1..] :: f in files;
      RestoredIsTaken(files[1..], log);
    }
  }

  lemma GoesBadKeepsTaken(files: seq<SnapshotFile>, n: nat, log: seq<RaftLog>)
    requires TakenFrom(files, log) && n < |files|
    ensures TakenFrom(files[n := files[n].(image := None)], log)
  {
    var after := files[n := files[n].(image := None)];
    forall f | f in after ensures f.index <= |log| && (f.image.Some? ==> f.image.value == StateAt(log, f.index)) {
      var k :| 0 <= k < |after| && after[k] == f;
      assert files[k] in files;
    }
  }

  lemma StepKeepsInv(s: Node, step: Step)
    requires Inv(s)
    ensures Inv(Next(s, step))
  {
    match step
    case Append(batch) => if Agrees(batch, s.log) { AppendKeepsRetained(s.history, batch, s.log); }
    case Drop(min, max) => RetainedAfterDrop(s.history, min, max, s.log);
    case Learn => if CanLearn(s) { LearnKeepsInv(s); }
    case ApplyNext => if CanApply(s) { ApplyKeepsInv(s); }
    case Snapshot =>
    case GoesBad(n) => if n < |s.files| { GoesBadKeepsTaken(s.files, n, s.log); }
    case Crash =>
    case Restart => if FirstReadable(s.files).Some? { RestoredIsTaken(s.files, s.log); }
  }

  /**
   In every run, whatever has been appended, compacted, snapshot, corrupted and restarted: a node that is up holds
   exactly the map of the committed entries that it has applied, every readable snapshot is such a
   map, and the retained entries that are committed are those of the committed log.
   */
  lemma {:induction false} RunKeepsInv(steps: seq<Step>)
    ensures Inv(Run(INIT, steps))
  {
    if steps != [] {
      RunKeepsInv(steps[..|steps| - 1]);
      StepKeepsInv(Run(INIT, steps[..|steps| - 1]), steps[|steps| - 1]);
    }
  }

  /** So the recovery of a node needs no other hypothesis than that its disk is the outcome of some run. */
  method RecoverAfterRun(fsm: Fsm, store: BoltStore, files: seq<SnapshotFile>, upTo: uint64, ghost steps: seq<Step>)
    returns (r: Recovery)
    requires fsm.m == map[] && store.Valid()
    requires store.history == Run(INIT, steps).history && files == Run(INIT, steps).files
    requires upTo <= |Run(INIT, steps).log|
    modifies fsm
    ensures r == Recovered <==> Base(files).Some? && NoneMissing(store.history, Base(files).value, upTo)
    ensures r == NoReadableSnapshot <==> Base(files).None?
    ensures r == Recovered ==>
              var log, reached := Run(INIT, steps).log, Max(Base(files).value, upTo);
              reached <= |log| && fsm.m == StateAt(log, reached)
  {
    RunKeepsInv(steps);
    r := Recover(fsm, store, files, upTo, Run(INIT, steps).log);
  }

  // ---- which snapshots are there, and which one a node comes back from ----

  /** At most two files, by index; a node that is up is not behind the older one, nor behind one that is readable. */
  ghost predicate FilesInv(s: Node) {
    && ByIndex(s.files) && |s.files| <= 2
    && (s.up && s.files != [] ==> s.files[|s.files| - 1].index <= s.applied)
    && (s.up ==> forall f | f in s.files && f.image.Some? :: f.index <= s.applied)
  }

  /** The files after a snapshot: the new one and the newest of the others, by index, the new one first of equals. */
  lemma SnapshotLeaves(s: Node)
    requires FilesInv(s) && s.up && 0 < s.applied < 0x1_0000_0000_0000_0000
    ensures var file := SnapshotFile(s.applied, Some(s.m));
            Next(s, Snapshot).files ==
            if s.files == [] then [file]
            else if s.files[0].index <= s.applied then [file, s.files[0]]
            else [s.files[0], file]
  {
    var file := SnapshotFile(s.applied, Some(s.m));
    if |s.files| == 2 {
      assert s.files == [s.files[0], s.files[1]] && s.files[1..] == [s.files[1]];
      assert ([file] + s.files)[..2] == [file, s.files[0]];
      assert s.files[1].index <= s.applied;
      assert Listed(file, [s.files[1]]) == [file, s.files[1]];
      assert ([s.files[0]] + [file, s.files[1]])[..2] == [s.files[0], file];
    } else if |s.files| == 1 {
      assert s.files == [s.files[0]];
    }
  }

  lemma SnapshotKeepsFiles(s: Node)
    requires Inv(s) && FilesInv(s)
    ensures FilesInv(Next(s, Snapshot))
  {
    if s.up && 0 < s.applied < 0x1_0000_0000_0000_0000 { SnapshotLeaves(s); }
  }

  lemma RestartKeepsFiles(s: Node)
    requires FilesInv(s)
    ensures FilesInv(Next(s, Restart))
  {
    BaseIsNewestReadable(s.files);
    if s.files != [] && Base(s.files).Some? {
      var f :| f in s.files && f.image.Some? && f.index == Base(s.files).value;
      var i :| 0 <= i < |s.files| && s.files[i] == f;
      assert s.files[|s.files| - 1].index <= s.files[i].index;
    }
  }

  lemma GoesBadKeepsFiles(s: Node, n: nat)
    requires FilesInv(s)
    ensures FilesInv(Next(s, GoesBad(n)))
  {
    var t := Next(s, GoesBad(n));
    assert |t.files| == |s.files| && forall i | 0 <= i < |s.files| :: t.files[i].index == s.files[i].index;
    forall f | f in t.files && f.image.Some? ensures f in s.files {
      var i :| 0 <= i < |t.files| && t.files[i] == f;
      assert s.files[i] == f;
    }
  }

  lemma StepKeepsFiles(s: Node, step: Step)
    requires Inv(s) && FilesInv(s)
    ensures FilesInv(Next(s, step))
  {
    match step
    case Snapshot => SnapshotKeepsFiles(s);
    case Restart => RestartKeepsFiles(s);
    case GoesBad(n) => GoesBadKeepsFiles(s, n);
    case _ =>
  }

  lemma {:induction false} RunKeepsFiles(steps: seq<Step>)
    ensures FilesInv(Run(INIT, steps))
  {
    if steps != [] {
      RunKeepsFiles(steps[..|steps| - 1]);
      RunKeepsInv(steps[..|steps| - 1]);
      StepKeepsFiles(Run(INIT, steps[..|steps| - 1]), steps[|steps| - 1]);
    }
  }

  /** The node crashes and comes back. */
  ghost function Back(s: Node): Node {
    Next(Next(s, Crash), Restart)
  }

  /** It comes back with this snapshot, and no readable one is newer. */
  ghost predicate FromNewest(s: Node, f: SnapshotFile) {
    && f in s.files && f.image.Some? && Back(s).applied == f.index && Back(s).m == f.image.value
    && forall g | g in s.files && g.image.Some? :: g.index <= f.index
  }

  /**
   After every run: a crashed node comes back if and only if a snapshot is readable or there is none
   at all, and then from the newest readable one, or from nothing.
   */
  lemma ComesBackFromNewest(steps: seq<Step>)
    ensures var s := Run(INIT, steps);
            && (Back(s).up <==> s.files == [] || exists f | f in s.files :: f.image.Some?)
            && (s.files == [] ==> Back(s).applied == 0 && Back(s).m == map[])
            && (Back(s).up && s.files != [] ==> exists f :: FromNewest(s, f))
  {
    RunKeepsFiles(steps);
    var s := Run(INIT, steps);
    BaseIsNewestReadable(s.files);
    if s.files != [] && Base(s.files).Some? {
      var n := RestoredFrom(s.files);
      assert FromNewest(s, s.files[n]);
    }
  }

  lemma {:induction false} RestoredFrom(files: seq<SnapshotFile>) returns (n: nat)
    requires FirstReadable(files).Some?
    ensures n < |files| && files[n].image.Some?
    ensures files[n].index == FirstReadable(files).value && files[n].image.value == Restored(files)
  {
    if files[0].image.Some? {
      n := 0;
    } else {
      var k := RestoredFrom(files[1..]);
      n := k + 1;
    }
  }

  lemma BackFrom(s: Node, f: SnapshotFile)
    requires Inv(s) && ByIndex(s.files) && f in s.files && f.image.Some?
    requires forall g | g in s.files && g.image.Some? :: g.index <= f.index
    ensures Back(s).up && Back(s).applied == f.index && Back(s).m == f.image.value
  {
    BaseIsNewestReadable(s.files);
    RestoredIsTaken(s.files, s.log);
  }

  /**
   In every run: right after a snapshot the new file is there, besides the newest of the others, and
   a node that crashes then comes back with exactly what it had.
   */
  lemma SnapshotBringsBack(steps: seq<Step>)
    requires Run(INIT, steps).up && Run(INIT, steps).applied > 0
    ensures Run(INIT, steps).applied < 0x1_0000_0000_0000_0000
    ensures var s := Run(INIT, steps);
            var t := Next(s, Snapshot);
            && SnapshotFile(s.applied, Some(s.m)) in t.files && |t.files| <= 2
            && (s.files != [] ==> s.files[0] in t.files && |t.files| == 2)
            && Back(t).up && Back(t).applied == s.applied && Back(t).m == s.m
  {
    RunKeepsInv(steps);
    RunKeepsFiles(steps);
    SnapshotIsKept(Run(INIT, steps));
  }

  lemma SnapshotIsKept(s: Node)
    requires Inv(s) && FilesInv(s) && s.up && s.applied > 0
    ensures var t := Next(s, Snapshot);
            && SnapshotFile(s.applied, Some(s.m)) in t.files && |t.files| <= 2
            && (s.files != [] ==> s.files[0] in t.files && |t.files| == 2)
            && Back(t).up && Back(t).applied == s.applied && Back(t).m == s.m
  {
    SnapshotLeaves(s);
    StepKeepsInv(s, Snapshot);
    SnapshotKeepsFiles(s);
    BackFrom(Next(s, Snapshot), SnapshotFile(s.applied, Some(s.m)));
  }

  /** When the newest of two readable snapshots goes bad, the node comes back from the other. */
  lemma FallsBack(steps: seq<Step>)
    requires var files := Run(INIT, steps).files; |files| == 2 && files[0].image.Some? && files[1].image.Some?
    ensures var s := Run(INIT, steps);
            var t := Next(s, GoesBad(0));
            Back(t).up && Back(t).applied == s.files[1].index && Back(t).m == s.files[1].image.value
  {
    RunKeepsInv(steps);
    RunKeepsFiles(steps);
    OtherIsLeft(Run(INIT, steps));
  }

  lemma OtherIsLeft(s: Node)
    requires Inv(s) && FilesInv(s) && |s.files| == 2 && s.files[0].image.Some? && s.files[1].image.Some?
    ensures var t := Next(s, GoesBad(0));
            Back(t).up && Back(t).applied == s.files[1].index && Back(t).m == s.files[1].image.value
  {
    StepKeepsInv(s, GoesBad(0));
    GoesBadKeepsFiles(s, 0);
    var t := Next(s, GoesBad(0));
    assert t.files[1] == s.files[1] && t.files[0].image.None?;
    BackFrom(t, t.files[1]);
  }

  // ---- catching up after a crash ----

  /** The node crashes, comes back, and applies what it can. */
  ghost function CatchUp(s: Node): Node {
    Run(Back(s), seq(|s.log|, _ => ApplyNext))
  }

  /** It comes back with the map of the whole committed log. */
  ghost predicate Recovers(s: Node) {
    CatchUp(s).up && CatchUp(s).applied == |s.log| && CatchUp(s).m == StateAt(s.log, |s.log|)
  }

  /** From s the node has got to t in n attempts to apply an entry: it stops at the end or before a missing one. */
  ghost predicate GotTo(s: Node, t: Node, n: nat) {
    && Inv(t) && t.up && t.log == s.log && t.history == s.history
    && s.applied <= t.applied <= s.applied + n && NoneMissing(s.history, s.applied, t.applied)
    && (t.applied < s.applied + n && t.applied < |s.log| ==> !Live(s.history, t.applied + 1))
  }

  lemma GetsOn(s: Node, t: Node, n: nat)
    requires GotTo(s, t, n)
    ensures GotTo(s, Next(t, ApplyNext), n + 1)
  {
    StepKeepsInv(t, ApplyNext);
    if t.applied < |t.log| && Live(t.history, t.applied + 1) {
      assert Latest(t.history, t.applied + 1).value == t.log[t.applied];
    }
  }

  lemma {:induction false} Applies(s: Node, n: nat)
    requires Inv(s) && s.up
    ensures GotTo(s, Run(s, seq(n, _ => ApplyNext)), n)
  {
    if n > 0 {
      Applies(s, n - 1);
      assert seq(n, _ => ApplyNext)[..n - 1] == seq(n - 1, _ => ApplyNext);
      GetsOn(s, Run(s, seq(n - 1, _ => ApplyNext)), n - 1);
    }
  }

  /**
   After every run: a crashed node comes back with the map of the whole committed log if and only if
   some snapshot is readable, or none was taken, and no entry above it is missing.
   */
  lemma CatchesUpIff(steps: seq<Step>)
    ensures |Run(INIT, steps).log| < 0x1_0000_0000_0000_0000
    ensures var s := Run(INIT, steps);
            Recovers(s) <==> Base(s.files).Some? && NoneMissing(s.history, Base(s.files).value, |s.log|)
  {
    RunKeepsInv(steps);
    var s := Run(INIT, steps);
    var back := Back(s);
    StepKeepsInv(s, Crash);
    StepKeepsInv(Next(s, Crash), Restart);
    if Base(s.files).Some? {
      Applies(back, |s.log|);
    } else {
      StaysDown(back, |s.log|);
    }
  }

  lemma {:induction false} StaysDown(s: Node, n: nat)
    requires !s.up
    ensures Run(s, seq(n, _ => ApplyNext)) == s
  {
    if n > 0 {
      StaysDown(s, n - 1);
      assert seq(n, _ => ApplyNext)[..n - 1] == seq(n - 1, _ => ApplyNext);
    }
  }

  // ---- nothing committed is lost ----

  function Newest(files: seq<SnapshotFile>): uint64 {
    if files == [] then 0 else files[0].index
  }

  /**
   A deletion stops at the newest snapshot, as compaction does, or starts above what is committed, as
   replacing the entries of an old leader does. And no snapshot goes bad.
   */
  ghost predicate Careful(s: Node, step: Step) {
    match step
    case Drop(min, max) => max < min || max <= Newest(s.files) || |s.log| < min
    case GoesBad(_) => false
    case _ => true
  }

  ghost predicate AllCareful(steps: seq<Step>) {
    forall n | 0 <= n < |steps| :: Careful(Run(INIT, steps[..n]), steps[n])
  }

  /** The newest snapshot is readable, and every committed entry above it is stored. */
  ghost predicate Safe(s: Node) {
    && (forall f | f in s.files :: f.image.Some?)
    && Newest(s.files) <= |s.log| < 0x1_0000_0000_0000_0000
    && NoneMissing(s.history, Newest(s.files), |s.log|)
    && (s.up ==> Newest(s.files) <= s.applied)
  }

  lemma StepKeepsSafe(s: Node, step: Step)
    requires Inv(s) && Safe(s) && Careful(s, step)
    ensures Safe(Next(s, step))
  {
    match step
    case Append(batch) =>
      forall i: uint64 | Live(s.history, i) ensures Live(s.history + [Stored(batch)], i) {
        LatestAfterAppend(s.history, batch, i);
      }
    case Drop(min, max) => TailSpared(s.history, min, max, Newest(s.files), |s.log|);
    case Learn =>
    case ApplyNext =>
    case Snapshot =>
    case GoesBad(_) =>
    case Crash =>
    case Restart =>
  }

  lemma {:induction false} RunKeepsSafe(steps: seq<Step>)
    requires AllCareful(steps)
    ensures Safe(Run(INIT, steps))
  {
    if steps != [] {
      var last := |steps| - 1;
      var before := steps[..last];
      forall n | 0 <= n < last ensures Careful(Run(INIT, before[..n]), before[n]) {
        assert before[..n] == steps[..n];
      }
      RunKeepsSafe(before);
      RunKeepsInv(before);
      assert Careful(Run(INIT, steps[..last]), steps[last]);
      StepKeepsSafe(Run(INIT, before), steps[last]);
    }
  }

  /**
   As long as Raft deletes with care and no snapshot goes bad, no crash at any moment loses
   anything: the node always comes back with the map of the whole committed log.
   */
  lemma NothingCommittedIsLost(steps: seq<Step>)
    requires AllCareful(steps)
    ensures Recovers(Run(INIT, steps))
  {
    RunKeepsSafe(steps);
    CatchesUpIff(steps);
  }

  /**
   Without such care something can be lost: Raft clears a stored suffix that it is sent again before it
   stores it again, and a crash between the two leaves a committed entry missing.
   */
  lemma {:induction false} ClearedThenCrashed(entry: RaftLog)
    requires entry.index == 1 && CommandOf(entry).Some?
    ensures !Recovers(Run(INIT, [Append([entry]), Learn, Drop(1, 1)]))
    ensures Recovers(Run(INIT, [Append([entry]), Learn, Drop(1, 1), Append([entry])]))
  {
    var cleared: seq<Step> := [Append([entry]), Learn, Drop(1, 1)];
    var again := cleared + [Append([entry])];
    assert again == [Append([entry]), Learn, Drop(1, 1), Append([entry])];
    var s := StoresOne(entry);
    RunThree(INIT, cleared);
    StoresAndLearns(entry);
    LiveAfterDrop([Stored([entry])], 1, 1, 1);
    assert Run(INIT, cleared) == s.(history := s.history + [Dropped(1, 1)]);
    assert !Live(s.history + [Dropped(1, 1)], 1);
    CatchesUpIff(cleared);
    assert again[..3] == cleared;
    LatestAfterAppend(s.history + [Dropped(1, 1)], [entry], 1);
    CatchesUpIff(again);
  }

  /** The node has stored one entry, which is committed. */
  function StoresOne(entry: RaftLog): Node {
    INIT.(log := [entry], history := [Stored([entry])])
  }

  lemma StoresAndLearns(entry: RaftLog)
    requires entry.index == 1 && CommandOf(entry).Some?
    ensures Next(Next(INIT, Append([entry])), Learn) == StoresOne(entry)
  {
    assert [entry][..0] == [] && [] + [Stored([entry])] == [Stored([entry])];
    assert LastInBatch([entry], 1) == Some(entry) && LastInBatch([entry], 0) == None;
    LatestAfterAppend([], [entry], 1);
    assert [] + [entry] == [entry];
  }

  lemma RunThree(s: Node, steps: seq<Step>)
    requires |steps| == 3
    ensures Run(s, steps) == Next(Next(Next(s, steps[0]), steps[1]), steps[2])
  {
    assert steps[..1][..0] == [];
    assert Run(s, steps[..1]) == Next(s, steps[0]);
    assert steps[..2][..1] == steps[..1];
    assert Run(s, steps[..2]) == Next(Next(s, steps[0]), steps[1]);
  }
}
