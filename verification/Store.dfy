/**
 db/node/store/store.go: the Raft state machine behind a database node, its snapshots, and how a
 restarted node gets its map back from a snapshot and the retained log.
 */
module Store {
  import opened Wrappers
  import opened ByteOrder
  import opened BoltStore
  import opened Replay

  // ---- commands as log data ----

  /** What Set, Add and Delete marshal. */
  function Marshal(c: Command): LogData
    requires !c.Noop?
  {
    match c
    case Add(k, v) => Record("add", k, v)
    case Set(k, v) => Record("set", k, v)
    case Delete(k) => Record("delete", k, [])
  }

  /** What Apply makes of an entry; None where it panics. Entries that are not commands never reach it. */
  function CommandOf(l: RaftLog): Option<Command> {
    if l.kind.LogOther? then Some(Noop)
    else match l.data
      case Undecodable => None
      case Record(op, k, v) =>
        if op == "add" then Some(Add(k, v))
        else if op == "set" then Some(Set(k, v))
        else if op == "delete" then Some(Delete(k))
        else None
  }

  /** Raft's own entries change nothing; the recognised commands are these three; on anything else Apply panics. */
  lemma CommandOfIs(i: uint64, data: LogData, op: string, k: Bytes, v: Bytes)
    ensures CommandOf(RaftLog(i, LogOther, data)) == Some(Noop)
    ensures CommandOf(RaftLog(i, LogCommand, Undecodable)) == None
    ensures CommandOf(RaftLog(i, LogCommand, Record(op, k, v))) ==
            match op
            case "add" => Some(Add(k, v))
            case "set" => Some(Set(k, v))
            case "delete" => Some(Delete(k))
            case _ => None
  {
  }

  /** Every command the store proposes is recognised again, so Apply panics on none of them. */
  lemma ProposedIsRecognised(c: Command, i: uint64)
    requires !c.Noop?
    ensures CommandOf(RaftLog(i, LogCommand, Marshal(c))) == Some(c)
  {
    assert "add" != "set" && "add" != "delete" && "set" != "delete" by {
      assert "add"[0] == 'a' && "set"[0] == 's' && "delete"[0] == 'd';
    }
  }

  // ---- the state machine ----

  datatype Applied = Done | KeyDuplicated | Panicked

  /** Where snapshots are written; a reader sees a snapshot once it is written and closed. */
  class Sink {
    const writeFails: bool
    const closeFails: bool
    var written: Option<Kv>
    var published: Option<Kv>
    var cancelled: bool

    constructor (writeFails: bool, closeFails: bool)
      ensures this.writeFails == writeFails && this.closeFails == closeFails
      ensures written == None && published == None && !cancelled
    {
      this.writeFails, this.closeFails := writeFails, closeFails;
      written, published, cancelled := None, None, false;
    }

    method Write(image: Kv) returns (ok: bool)
      modifies this`written
      ensures ok == !writeFails
      ensures written == if ok then Some(image) else old(written)
    {
      if !writeFails { written := Some(image); }
      ok := !writeFails;
    }

    method Close() returns (ok: bool)
      modifies this`published
      ensures ok == !closeFails
      ensures published == if ok then written else old(published)
    {
      if !closeFails { published := written; }
      ok := !closeFails;
    }

    method Cancel()
      modifies this`cancelled
      ensures cancelled
    {
      cancelled := true;
    }
  }

  /** fsmSnapshot.Persist: publishes the image, or cancels the sink and publishes nothing. */
  method Persist(image: Kv, sink: Sink, marshalFails: bool) returns (ok: bool)
    requires sink.published == None && !sink.cancelled
    modifies sink
    ensures ok <==> !marshalFails && !sink.writeFails && !sink.closeFails
    ensures sink.published == if ok then Some(image) else None
    ensures sink.cancelled <==> !ok
  {
    ok := !marshalFails;
    if ok { ok := sink.Write(image); }
    if ok { ok := sink.Close(); }
    if !ok { sink.Cancel(); }
  }

  class Fsm {
    var m: Kv

    constructor ()
      ensures m == map[]
    {
      m := map[];
    }

    /** A missing key reads as the empty value. */
    method Get(key: Bytes) returns (value: Bytes)
      ensures value == if key in m then m[key] else []
    {
      value := if key in m then m[key] else [];
    }

    method ApplyAdd(key: Bytes, value: Bytes) returns (r: Applied)
      modifies this
      ensures m == Step(old(m), Replay.Add(key, value))
      ensures r == if key in old(m) then KeyDuplicated else Done
    {
      if key in m { return KeyDuplicated; }
      m := m[key := value];
      return Done;
    }

    method ApplySet(key: Bytes, value: Bytes) returns (r: Applied)
      modifies this
      ensures m == Step(old(m), Replay.Set(key, value)) && r == Done
    {
      m := m[key := value];
      return Done;
    }

    method ApplyDelete(key: Bytes) returns (r: Applied)
      modifies this
      ensures m == Step(old(m), Replay.Delete(key)) && r == Done
    {
      m := m - {key};
      return Done;
    }

    /** Apply runs one committed command entry. */
    method Apply(l: RaftLog) returns (r: Applied)
      requires l.kind.LogCommand?
      modifies this
      ensures r == Panicked <==> CommandOf(l) == None
      ensures r == KeyDuplicated <==> CommandOf(l).Some? && CommandOf(l).value.Add? && CommandOf(l).value.key in old(m)
      ensures m == if CommandOf(l).Some? then Step(old(m), CommandOf(l).value) else old(m)
    {
      match l.data
      case Undecodable => r := Panicked;
      case Record(op, key, value) =>
        if op == "add" {
          r := ApplyAdd(key, value);
        } else if op == "set" {
          r := ApplySet(key, value);
        } else if op == "delete" {
          r := ApplyDelete(key);
        } else {
          r := Panicked;
        }
    }

    /** Snapshot clones the map, entry by entry in whatever order the map is ranged over. */
    method Snapshot() returns (image: Kv)
      ensures image == m
    {
      image := map[];
      var todo := m.Keys;
      while todo != {}
        invariant todo <= m.Keys
        invariant image == map k | k in m && k !in todo :: m[k]
        decreases todo
      {
        var k :| k in todo;
        image := image[k := m[k]];
        todo := todo - {k};
      }
    }

    /** Restore replaces the map by a decoded image and leaves it alone when decoding fails. */
    method Restore(image: Option<Kv>) returns (ok: bool)
      modifies this
      ensures ok == image.Some?
      ensures m == if ok then image.value else old(m)
    {
      if image.None? { return false; }
      m := image.value;
      return true;
    }
  }

  /** A snapshot travels from one machine to another whole, or not at all. */
  method Transfer(from: Fsm, to: Fsm, sink: Sink, marshalFails: bool) returns (ok: bool)
    requires from != to && sink.published == None && !sink.cancelled
    modifies to, sink
    ensures ok <==> !marshalFails && !sink.writeFails && !sink.closeFails
    ensures from.m == old(from.m) && to.m == if ok then from.m else old(to.m)
  {
    var image := from.Snapshot();
    var _ := Persist(image, sink, marshalFails);
    ok := to.Restore(sink.published);
  }

  // ---- recovery ----

  /** A snapshot on disk, taken after `index` entries; None if it cannot be opened or decoded. */
  datatype SnapshotFile = SnapshotFile(index: uint64, image: Option<Kv>)

  function Commands(log: seq<RaftLog>): (cs: seq<Command>)
    ensures |cs| == |log|
  {
    seq(|log|, n requires 0 <= n < |log| =>
      if CommandOf(log[n]).Some? then CommandOf(log[n]).value else Noop)
  }

  /** The map after the first n entries of the committed log. */
  function StateAt(log: seq<RaftLog>, n: nat): Kv
    requires n <= |log|
  {
    Run(Commands(log)[..n], map[])
  }

  /** Entry n of the committed log has index n + 1 and can be applied. */
  ghost predicate Committed(log: seq<RaftLog>) {
    |log| < 0x1_0000_0000_0000_0000 &&
    forall n | 0 <= n < |log| :: log[n].index == n + 1 && CommandOf(log[n]).Some?
  }

  /** Up to the end of the committed log the retained entries are its entries; above it anything may follow. */
  ghost predicate Retained(history: seq<Txn>, log: seq<RaftLog>) {
    forall i: uint64 | Live(history, i) && i <= |log| :: 1 <= i && Latest(history, i).value == log[i - 1]
  }

  ghost predicate TakenFrom(files: seq<SnapshotFile>, log: seq<RaftLog>) {
    forall f | f in files :: f.index <= |log| && (f.image.Some? ==> f.image.value == StateAt(log, f.index))
  }

  /** Index of the newest snapshot that restores; 0 if there are none at all; None if none restores. */
  function Base(files: seq<SnapshotFile>): Option<uint64> {
    if files == [] then Some(0) else FirstReadable(files)
  }

  function FirstReadable(files: seq<SnapshotFile>): Option<uint64> {
    if files == [] then None
    else if files[0].image.Some? then Some(files[0].index)
    else FirstReadable(files[1..])
  }

  /** No entry above the base is missing up to upTo. */
  ghost predicate NoneMissing(history: seq<Txn>, base: uint64, upTo: uint64) {
    forall i: uint64 | base < i <= upTo :: Live(history, i)
  }

  /** Listed by index, the greatest first. */
  predicate ByIndex(files: seq<SnapshotFile>) {
    forall i, j | 0 <= i < j < |files| :: files[i].index >= files[j].index
  }

  /** The base is the greatest index of a readable file; there is none if files are there and none is readable. */
  lemma BaseIsNewestReadable(files: seq<SnapshotFile>)
    requires ByIndex(files)
    ensures Base(files).None? <==> files != [] && forall f | f in files :: f.image.None?
    ensures files == [] ==> Base(files) == Some(0)
    ensures files != [] && Base(files).Some? ==> exists f | f in files :: f.image.Some? && f.index == Base(files).value
    ensures forall f | f in files && f.image.Some? :: f.index <= Base(files).value
  {
    if files != [] { FirstReadableIs(files); }
  }

  lemma {:induction false} FirstReadableIs(files: seq<SnapshotFile>)
    requires ByIndex(files)
    ensures FirstReadable(files).None? <==> forall f | f in files :: f.image.None?
    ensures FirstReadable(files).Some? ==>
              exists f | f in files :: f.image.Some? && f.index == FirstReadable(files).value
    ensures forall f | f in files && f.image.Some? :: f.index <= FirstReadable(files).value
  {
    if files != [] {
      assert files == [files[0]] + files[1..];
      FirstReadableIs(files[1..]);
    }
  }

  /** Raft's restoreSnapshot: the newest file that restores. */
  method RestoreSnapshot(fsm: Fsm, files: seq<SnapshotFile>, ghost log: seq<RaftLog>)
    returns (base: Option<uint64>)
    requires fsm.m == map[] && TakenFrom(files, log)
    modifies fsm
    ensures base == Base(files)
    ensures base.Some? ==> base.value <= |log| && fsm.m == StateAt(log, base.value)
  {
    if files == [] { return Some(0); }
    for n := 0 to |files|
      invariant fsm.m == map[]
      invariant FirstReadable(files) == FirstReadable(files[n..])
    {
      var ok := fsm.Restore(files[n].image);
      if ok { return Some(files[n].index); }
      assert files[n..][1..] == files[n + 1..];
    }
    return None;
  }

  lemma StateAtNext(log: seq<RaftLog>, n: nat)
    requires Committed(log) && n < |log|
    ensures StateAt(log, n + 1) == Step(StateAt(log, n), CommandOf(log[n]).value)
  {
    assert Commands(log)[..n + 1][..n] == Commands(log)[..n];
  }

  /** Raft's processLogs: applies the entries above `base` up to the committed index `upTo`, unless one is missing. */
  method ApplyTail(fsm: Fsm, store: BoltStore, base: uint64, upTo: uint64, ghost log: seq<RaftLog>)
    returns (complete: bool, applied: uint64)
    requires store.Valid() && Committed(log) && Retained(store.history, log)
    requires base <= |log| && upTo <= |log| && fsm.m == StateAt(log, base)
    modifies fsm
    ensures complete <==> NoneMissing(store.history, base, upTo)
    ensures base <= applied <= Max(base, upTo) && fsm.m == StateAt(log, applied)
    ensures complete <==> applied == Max(base, upTo)
  {
    applied := base;
    while applied < upTo
      invariant base <= applied <= Max(base, upTo) && fsm.m == StateAt(log, applied)
      invariant NoneMissing(store.history, base, applied)
    {
      var entry := store.GetLog(applied + 1, NoFault);
      if entry.Err? { return false, applied; }
      StateAtNext(log, applied);
      assert entry.value == log[applied];
      if entry.value.kind.LogCommand? {
        var _ := fsm.Apply(entry.value);
      }
      applied := applied + 1;
    }
    complete := true;
  }

  datatype Recovery = NoReadableSnapshot | EntryMissing | Recovered

  /**
   A node restarts: it restores a snapshot and, once it knows that upTo entries are committed,
   applies the retained entries up to there. Either every entry it needs is there and it holds
   exactly the map of the committed log up to upTo, or up to the snapshot if that is further, or it
   reports failure; it never comes up with a wrong map.
   */
  method Recover(fsm: Fsm, store: BoltStore, files: seq<SnapshotFile>, upTo: uint64, ghost log: seq<RaftLog>)
    returns (r: Recovery)
    requires fsm.m == map[] && store.Valid() && upTo <= |log|
    requires Committed(log) && Retained(store.history, log) && TakenFrom(files, log)
    modifies fsm
    ensures r == Recovered <==> Base(files).Some? && NoneMissing(store.history, Base(files).value, upTo)
    ensures r == NoReadableSnapshot <==> Base(files).None?
    ensures r == Recovered ==>
              var reached := Max(Base(files).value, upTo); reached <= |log| && fsm.m == StateAt(log, reached)
  {
    var base := RestoreSnapshot(fsm, files, log);
    if base.None? { return NoReadableSnapshot; }
    var complete, _ := ApplyTail(fsm, store, base.value, upTo, log);
    return if complete then Recovered else EntryMissing;
  }

  /** When only committed entries are retained, upTo can be the last index of the log itself. */
  method RecoverToLast(fsm: Fsm, store: BoltStore, files: seq<SnapshotFile>, ghost log: seq<RaftLog>)
    returns (r: Recovery, last: uint64)
    requires fsm.m == map[] && store.Valid()
    requires Committed(log) && Retained(store.history, log) && TakenFrom(files, log)
    requires forall i: uint64 | Live(store.history, i) :: i <= |log|
    modifies fsm
    ensures r == Recovered <==> Base(files).Some? && NoneMissing(store.history, Base(files).value, last)
    ensures forall i: uint64 | Live(store.history, i) :: i <= last
    ensures last <= |log| && (last == 0 || Live(store.history, last))
    ensures r == Recovered ==>
              var reached := Max(Base(files).value, last); reached <= |log| && fsm.m == StateAt(log, reached)
  {
    var index := store.LastIndex(NoFault);
    last := index.value;
    r := Recover(fsm, store, files, last, log);
  }

  lemma LiveAfterDrop(history: seq<Txn>, min: uint64, max: uint64, i: uint64)
    ensures Latest(history + [Dropped(min, max)], i) == if min <= i <= max then None else Latest(history, i)
  {
    assert (history + [Dropped(min, max)])[..|history|] == history;
  }

  /** [min, max] misses every index above base up to n. */
  predicate SparesTail(min: uint64, max: uint64, base: uint64, n: uint64) {
    max < min || max <= base || n < min || n <= base
  }

  lemma TailSpared(before: seq<Txn>, min: uint64, max: uint64, base: uint64, n: uint64)
    requires NoneMissing(before, base, n)
    ensures NoneMissing(before + [Dropped(min, max)], base, n) <==> SparesTail(min, max, base, n)
  {
    var after := before + [Dropped(min, max)];
    forall i: uint64 ensures Latest(after, i) == if min <= i <= max then None else Latest(before, i) {
      LiveAfterDrop(before, min, max, i);
    }
    if !SparesTail(min, max, base, n) {
      var lost: uint64 := if min <= base then base + 1 else min;
      assert !Live(after, lost);
    }
    forall i: uint64 | base < i <= n && SparesTail(min, max, base, n) ensures Live(after, i) {
      assert Live(before, i);
    }
  }

  lemma RetainedAfterDrop(before: seq<Txn>, min: uint64, max: uint64, log: seq<RaftLog>)
    requires Retained(before, log)
    ensures Retained(before + [Dropped(min, max)], log)
  {
    forall i: uint64
      ensures Latest(before + [Dropped(min, max)], i) == if min <= i <= max then None else Latest(before, i)
    {
      LiveAfterDrop(before, min, max, i);
    }
  }

  /**
   Compaction followed by a restart, from any state in which the node could have restarted: the log
   may have been compacted before, hold uncommitted entries, and the newest snapshots may be
   unreadable. The node recovers the upTo committed entries exactly when some snapshot is readable
   (or none was ever taken) and the deleted range, if it was deleted, spares the entries above the
   newest readable one; in particular for every range that ends at or below it.
   */
  method CompactAndRecover(fsm: Fsm, store: BoltStore, files: seq<SnapshotFile>, min: uint64, max: uint64, fault: Fault,
                           upTo: uint64, ghost log: seq<RaftLog>)
    returns (deleted: bool, r: Recovery)
    requires fsm.m == map[] && store.Valid() && upTo <= |log|
    requires Committed(log) && Retained(store.history, log) && TakenFrom(files, log)
    requires Base(files).Some? ==> NoneMissing(store.history, Base(files).value, upTo)
    modifies fsm, store`logs, store`history
    ensures r == Recovered <==> Base(files).Some? && (deleted ==> SparesTail(min, max, Base(files).value, upTo))
    ensures r == Recovered ==>
              var reached := Max(Base(files).value, upTo); reached <= |log| && fsm.m == StateAt(log, reached)
    ensures r == Recovered && upTo == |log| ==> fsm.m == Run(Commands(log), map[])
  {
    ghost var before := store.history;
    var err := store.DeleteRange(min, max, fault);
    deleted := err.None?;
    if deleted {
      RetainedAfterDrop(before, min, max, log);
      if Base(files).Some? { TailSpared(before, min, max, Base(files).value, upTo); }
    }
    r := Recover(fsm, store, files, upTo, log);
    assert Commands(log)[..|log|] == Commands(log);
  }
}
