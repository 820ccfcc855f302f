/**
 raftboltdb/bolt_store.go: the durable Raft log and the small configuration bucket beside it.

 A bolt bucket is an ordered map from byte strings; a write transaction works on a private copy
 that Commit publishes and Rollback drops. Where bolt can report an error is an argument of each
 operation (`Fault`), so every error return of the code is reachable.
 */
module BoltStore {
  import opened Wrappers
  import opened ByteOrder
  import opened BigEndian

  datatype LogType = LogCommand | LogOther
  /** The bytes of a log entry: a JSON record of a command, or something that does not decode. */
  datatype LogData = Undecodable | Record(op: string, key: Bytes, value: Bytes)
  datatype RaftLog = RaftLog(index: uint64, kind: LogType, data: LogData)

  datatype Error = ErrLogNotFound | ErrKeyNotFound | ErrKeyDuplicated | ErrBolt

  /** Where bolt fails during a transaction: at Begin, at the at-th Put, at the Delete of a key, or at Commit. */
  datatype Fault = NoFault | BeginFails | PutFails(at: nat) | DeleteFails(key: Bytes) | CommitFails {
    predicate Aborts() {
      BeginFails? || CommitFails?
    }
  }

  // ---- the log bucket, and its history of committed transactions ----

  datatype Txn = Stored(batch: seq<RaftLog>) | Dropped(min: uint64, max: uint64)

  type Bucket = map<Bytes, RaftLog>

  function PutAll(b: Bucket, batch: seq<RaftLog>): Bucket {
    if batch == [] then b
    else PutAll(b, batch[..|batch| - 1])[Key(batch[|batch| - 1].index) := batch[|batch| - 1]]
  }

  function InRange(b: Bucket, min: uint64, max: uint64): set<Bytes> {
    set k | k in b && |k| == 8 && min <= BytesToUint64(k) <= max
  }

  /** The bucket that a history of committed transactions leaves behind. */
  function Exec(history: seq<Txn>): Bucket {
    if history == [] then map[]
    else
      var before := Exec(history[..|history| - 1]);
      match history[|history| - 1]
      case Stored(batch) => PutAll(before, batch)
      case Dropped(min, max) => before - InRange(before, min, max)
  }

  /** The last entry a batch holds for index i. */
  function LastInBatch(batch: seq<RaftLog>, i: uint64): Option<RaftLog> {
    if batch == [] then None
    else if batch[|batch| - 1].index == i then Some(batch[|batch| - 1])
    else LastInBatch(batch[..|batch| - 1], i)
  }

  predicate Touches(t: Txn, i: uint64) {
    match t
    case Stored(batch) => LastInBatch(batch, i).Some?
    case Dropped(min, max) => min <= i <= max
  }

  /** What the youngest committed transaction that concerns index i says about it. */
  function Latest(history: seq<Txn>, i: uint64): Option<RaftLog> {
    if history == [] then None
    else
      var t := history[|history| - 1];
      if !Touches(t, i) then Latest(history[..|history| - 1], i)
      else if t.Stored? then LastInBatch(t.batch, i)
      else None
  }

  predicate Live(history: seq<Txn>, i: uint64) {
    Latest(history, i).Some?
  }

  lemma {:induction false} PutAllLookup(b: Bucket, batch: seq<RaftLog>, i: uint64)
    ensures Lookup(PutAll(b, batch), Key(i)) ==
            if LastInBatch(batch, i).Some? then LastInBatch(batch, i) else Lookup(b, Key(i))
  {
    if batch != [] {
      PutAllLookup(b, batch[..|batch| - 1], i);
      KeyRoundTrip(i, Key(i));
      KeyRoundTrip(batch[|batch| - 1].index, Key(i));
    }
  }

  /** The bucket holds, for every index, the latest entry committed and not deleted since. */
  lemma {:induction false} ExecIsLatest(history: seq<Txn>, i: uint64)
    ensures Lookup(Exec(history), Key(i)) == Latest(history, i)
    ensures Latest(history, i).Some? ==> Latest(history, i).value.index == i
  {
    if history != [] {
      var before, t := history[..|history| - 1], history[|history| - 1];
      ExecIsLatest(before, i);
      KeyRoundTrip(i, Key(i));
      if t.Stored? {
        PutAllLookup(Exec(before), t.batch, i);
        LastInBatchIndex(t.batch, i);
      }
    }
  }

  /** Transaction n stored e as entry j of its batch, and nothing after that concerns the index. */
  predicate StoredLast(history: seq<Txn>, n: nat, j: nat, e: RaftLog, i: uint64) {
    && n < |history| && history[n].Stored? && j < |history[n].batch| && history[n].batch[j] == e && e.index == i
    && (forall k | j < k < |history[n].batch| :: history[n].batch[k].index != i)
    && (forall m | n < m < |history| :: !Mentions(history[m], i))
  }

  predicate Mentions(t: Txn, i: uint64) {
    match t
    case Stored(batch) => exists k | 0 <= k < |batch| :: batch[k].index == i
    case Dropped(min, max) => min <= i <= max
  }

  lemma {:induction false} NoneInBatch(batch: seq<RaftLog>, i: uint64)
    ensures LastInBatch(batch, i).None? <==> forall k | 0 <= k < |batch| :: batch[k].index != i
  {
    if batch != [] {
      var front := batch[..|batch| - 1];
      NoneInBatch(front, i);
      assert forall k | 0 <= k < |front| :: front[k] == batch[k];
    }
  }

  lemma {:induction false} PlaceInBatch(batch: seq<RaftLog>, i: uint64) returns (j: nat)
    requires LastInBatch(batch, i).Some?
    ensures j < |batch| && batch[j] == LastInBatch(batch, i).value && batch[j].index == i
    ensures forall k | j < k < |batch| :: batch[k].index != i
  {
    j := |batch| - 1;
    if batch[j].index != i { j := PlaceInBatch(batch[..j], i); }
  }

  /** Read off the history itself: an index holds what was stored for it last, unless it was dropped since. */
  lemma {:induction false} LatestIs(history: seq<Txn>, i: uint64, e: RaftLog)
    ensures Latest(history, i) == Some(e) <==> exists n: nat, j: nat :: StoredLast(history, n, j, e, i)
  {
    if history != [] {
      var last := |history| - 1;
      var before, t := history[..last], history[last];
      LatestIs(before, i, e);
      if t.Stored? { NoneInBatch(t.batch, i); }
      assert Touches(t, i) <==> Mentions(t, i);
      forall n: nat, j: nat | n < last
        ensures StoredLast(history, n, j, e, i) <==> StoredLast(before, n, j, e, i) && !Mentions(t, i)
      {
      }
      if Latest(history, i) == Some(e) {
        if Mentions(t, i) {
          var j := PlaceInBatch(t.batch, i);
          assert StoredLast(history, last, j, e, i);
        } else {
          var n: nat, j: nat :| StoredLast(before, n, j, e, i);
          assert StoredLast(history, n, j, e, i);
        }
      }
      if n: nat, j: nat :| StoredLast(history, n, j, e, i) {
        if n < last {
          assert StoredLast(before, n, j, e, i);
        } else {
          SameLast(t.batch, j, i);
        }
      }
    }
  }

  lemma SameLast(batch: seq<RaftLog>, j: nat, i: uint64)
    requires j < |batch| && batch[j].index == i && forall k | j < k < |batch| :: batch[k].index != i
    ensures LastInBatch(batch, i) == Some(batch[j])
  {
    NoneInBatch(batch, i);
    var l := PlaceInBatch(batch, i);
    assert l == j;
  }

  lemma {:induction false} LastInBatchIndex(batch: seq<RaftLog>, i: uint64)
    ensures LastInBatch(batch, i).Some? ==> LastInBatch(batch, i).value.index == i
  {
    if batch != [] { LastInBatchIndex(batch[..|batch| - 1], i); }
  }

  lemma {:induction false} PutAllKeys(b: Bucket, batch: seq<RaftLog>)
    requires forall k | k in b :: |k| == 8
    ensures forall k | k in PutAll(b, batch) :: |k| == 8
  {
    if batch != [] { PutAllKeys(b, batch[..|batch| - 1]); }
  }

  lemma {:induction false} ExecKeys(history: seq<Txn>)
    ensures forall k | k in Exec(history) :: |k| == 8
  {
    if history != [] {
      var before, t := history[..|history| - 1], history[|history| - 1];
      ExecKeys(before);
      if t.Stored? { PutAllKeys(Exec(before), t.batch); }
    }
  }

  /** A key of the bucket stands for a live index, and every live index has its key there. */
  lemma KeyIsLive(history: seq<Txn>, k: Bytes, i: uint64)
    ensures k in Exec(history) ==> |k| == 8 && Live(history, BytesToUint64(k))
    ensures Live(history, i) ==> Key(i) in Exec(history)
  {
    ExecKeys(history);
    ExecIsLatest(history, i);
    if k in Exec(history) {
      KeyRoundTrip(0, k);
      ExecIsLatest(history, BytesToUint64(k));
    }
  }

  ghost predicate IndexKeys(keys: set<Bytes>) {
    forall k | k in keys :: |k| == 8
  }

  /** k is the key of the least stored index satisfying `index >= min`, or None when there is none. */
  ghost predicate LeastIndexFrom(keys: set<Bytes>, min: int, k: Option<Bytes>)
    requires IndexKeys(keys)
  {
    match k
    case None => forall j | j in keys :: BytesToUint64(j) < min
    case Some(at) => at in keys && min <= BytesToUint64(at) &&
                     forall j | j in keys && min <= BytesToUint64(j) :: BytesToUint64(at) <= BytesToUint64(j)
  }

  /** Cursor.Seek on a bucket of indices. */
  method SeekIndex(keys: set<Bytes>, min: uint64) returns (k: Option<Bytes>)
    requires IndexKeys(keys)
    ensures LeastIndexFrom(keys, min, k)
  {
    var minKey := Uint64ToBytes(min);
    k := Seek(keys, minKey[..]);
    KeyRoundTrip(min, Key(min));
    if k.Some? { KeyOrder(Key(min), k.value); }
    forall j | j in keys
      ensures k.None? ==> BytesToUint64(j) < min
      ensures k.Some? && min <= BytesToUint64(j) ==> BytesToUint64(k.value) <= BytesToUint64(j)
    {
      KeyOrder(j, Key(min));
      KeyOrder(Key(min), j);
      if k.Some? { KeyOrder(k.value, j); }
    }
  }

  /** Cursor.Next on a bucket of indices, from a key that may be gone already. */
  method NextIndex(keys: set<Bytes>, at: Bytes) returns (k: Option<Bytes>)
    requires IndexKeys(keys) && |at| == 8
    ensures LeastIndexFrom(keys, BytesToUint64(at) + 1, k)
  {
    k := Next(keys, at);
    if k.Some? { KeyOrder(at, k.value); }
    forall j | j in keys
      ensures k.None? ==> BytesToUint64(j) <= BytesToUint64(at)
      ensures k.Some? && BytesToUint64(at) < BytesToUint64(j) ==> BytesToUint64(k.value) <= BytesToUint64(j)
    {
      KeyOrder(j, at);
      KeyOrder(at, j);
      if k.Some? { KeyOrder(k.value, j); }
    }
  }

  /** tx is b with some of the doomed keys deleted. */
  ghost predicate Deleted<K, V>(b: map<K, V>, tx: map<K, V>, doomed: set<K>) {
    && (forall j | j in tx :: j in b && tx[j] == b[j])
    && (forall j | j in b :: j in tx || j in doomed)
  }

  lemma AllDeleted<K, V>(b: map<K, V>, tx: map<K, V>, doomed: set<K>)
    requires Deleted(b, tx, doomed) && doomed !! tx.Keys
    ensures tx == b - doomed
  {
  }

  /** Deleting under the cursor and moving on leaves it at the least remaining index of the range. */
  lemma CursorMoved(keys: set<Bytes>, min: uint64, at: Bytes, next: Option<Bytes>)
    requires IndexKeys(keys) && LeastIndexFrom(keys, min, Some(at))
    requires LeastIndexFrom(keys - {at}, BytesToUint64(at) + 1, next)
    ensures LeastIndexFrom(keys - {at}, min, next)
  {
    forall j | j in keys - {at} && min <= BytesToUint64(j) ensures BytesToUint64(at) < BytesToUint64(j) {
      KeyRoundTrip(0, j);
      KeyRoundTrip(0, at);
    }
  }

  /** DeleteRange's cursor loop on the transaction's copy of the bucket. */
  method SweepRange(b: Bucket, min: uint64, max: uint64, fault: Fault) returns (tx: Bucket, failed: bool)
    requires IndexKeys(b.Keys)
    ensures failed <==> exists k | k in InRange(b, min, max) :: fault == DeleteFails(k)
    ensures !failed ==> tx == b - InRange(b, min, max)
  {
    ghost var doomed := InRange(b, min, max);
    tx := b;
    var k := SeekIndex(tx.Keys, min);
    while k.Some? && BytesToUint64(k.value) <= max
      invariant Deleted(b, tx, doomed) && LeastIndexFrom(tx.Keys, min, k)
      invariant fault.DeleteFails? && fault.key in doomed ==> fault.key in tx
      decreases |tx|
    {
      if fault == DeleteFails(k.value) { return tx, true; }
      var next := NextIndex(tx.Keys - {k.value}, k.value);
      CursorMoved(tx.Keys, min, k.value, next);
      tx := tx - {k.value};
      k := next;
    }
    AllDeleted(b, tx, doomed);
    failed := false;
  }

  class BoltStore {
    var logs: Bucket
    var conf: map<Bytes, Bytes>
    ghost var history: seq<Txn>

    ghost predicate Valid()
      reads this
    {
      logs == Exec(history)
    }

    /** New on an empty file: both buckets are created and are empty. */
    constructor ()
      ensures Valid() && history == [] && conf == map[]
    {
      logs, conf, history := map[], map[], [];
    }

    method FirstIndex(fault: Fault) returns (r: Result<uint64, Error>)
      requires Valid()
      ensures r.Err? <==> fault.BeginFails?
      ensures r.Ok? ==> forall i: uint64 | Live(history, i) :: r.value <= i
      ensures r.Ok? ==> Live(history, r.value) || (r.value == 0 && forall i :: !Live(history, i))
    {
      if fault.BeginFails? { return Err(ErrBolt); }
      var first := Seek(logs.Keys, []);
      if first.None? {
        forall i: uint64 ensures !Live(history, i) {
          KeyIsLive(history, [], i);
          assert Key(i) !in logs.Keys by { assert Leq([], Key(i)); Irreflexive([]); }
        }
        return Ok(0);
      }
      KeyIsLive(history, first.value, 0);
      forall i: uint64 | Live(history, i) ensures BytesToUint64(first.value) <= i {
        KeyIsLive(history, first.value, i);
        assert Leq([], Key(i));
        KeyOrder(first.value, Key(i));
        KeyRoundTrip(i, Key(i));
      }
      return Ok(BytesToUint64(first.value));
    }

    method LastIndex(fault: Fault) returns (r: Result<uint64, Error>)
      requires Valid()
      ensures r.Err? <==> fault.BeginFails?
      ensures r.Ok? ==> forall i: uint64 | Live(history, i) :: i <= r.value
      ensures r.Ok? ==> Live(history, r.value) || (r.value == 0 && forall i :: !Live(history, i))
    {
      if fault.BeginFails? { return Err(ErrBolt); }
      var last := Last(logs.Keys);
      if last.None? {
        forall i: uint64 ensures !Live(history, i) {
          KeyIsLive(history, [], i);
          assert Key(i) !in logs.Keys;
        }
        return Ok(0);
      }
      KeyIsLive(history, last.value, 0);
      forall i: uint64 | Live(history, i) ensures i <= BytesToUint64(last.value) {
        KeyIsLive(history, last.value, i);
        KeyOrder(Key(i), last.value);
        KeyRoundTrip(i, Key(i));
      }
      return Ok(BytesToUint64(last.value));
    }

    method GetLog(idx: uint64, fault: Fault) returns (r: Result<RaftLog, Error>)
      requires Valid()
      ensures fault.BeginFails? <==> r == Err(ErrBolt)
      ensures r.Ok? ==> Latest(history, idx) == Some(r.value) && r.value.index == idx
      ensures r == Err(ErrLogNotFound) <==> !fault.BeginFails? && !Live(history, idx)
      ensures r.Err? ==> r.error in {ErrBolt, ErrLogNotFound}
    {
      if fault.BeginFails? { return Err(ErrBolt); }
      ExecIsLatest(history, idx);
      var key := Uint64ToBytes(idx);
      if key[..] !in logs { return Err(ErrLogNotFound); }
      return Ok(logs[key[..]]);
    }

    /** Stores the whole batch, or nothing at all when bolt fails anywhere on the way. */
    method StoreLogs(batch: seq<RaftLog>, fault: Fault) returns (err: Option<Error>)
      requires Valid()
      modifies this`logs, this`history
      ensures Valid()
      ensures err.Some? <==> fault.Aborts() || (fault.PutFails? && fault.at < |batch|)
      ensures err.Some? ==> logs == old(logs) && history == old(history)
      ensures err.None? ==> history == old(history) + [Stored(batch)]
    {
      if fault.BeginFails? { return Some(ErrBolt); }
      var tx := logs;
      for n := 0 to |batch|
        invariant tx == PutAll(logs, batch[..n])
        invariant fault.PutFails? ==> fault.at >= n
        invariant logs == old(logs) && history == old(history)
      {
        var key := Uint64ToBytes(batch[n].index);
        if fault == PutFails(n) { return Some(ErrBolt); }
        assert batch[..n + 1][..n] == batch[..n];
        tx := tx[key[..] := batch[n]];
      }
      if fault.CommitFails? { return Some(ErrBolt); }
      assert batch[..|batch|] == batch;
      logs := tx;
      history := history + [Stored(batch)];
      return None;
    }

    /** Removes exactly the stored indices in [min, max], or nothing when bolt fails. */
    method DeleteRange(min: uint64, max: uint64, fault: Fault) returns (err: Option<Error>)
      requires Valid()
      modifies this`logs, this`history
      ensures Valid()
      ensures err.Some? <==> fault.Aborts() || (fault.DeleteFails? && fault.key in InRange(old(logs), min, max))
      ensures err.Some? ==> logs == old(logs) && history == old(history)
      ensures err.None? ==> history == old(history) + [Dropped(min, max)]
    {
      if fault.BeginFails? { return Some(ErrBolt); }
      ExecKeys(history);
      var tx, failed := SweepRange(logs, min, max, fault);
      if failed || fault.CommitFails? { return Some(ErrBolt); }
      logs := tx;
      history := history + [Dropped(min, max)];
      return None;
    }

    /** Set on the configuration bucket. */
    method Set(k: Bytes, v: Bytes, fault: Fault) returns (err: Option<Error>)
      modifies this`conf
      ensures err.Some? <==> fault.Aborts() || fault == PutFails(0)
      ensures conf == if err.None? then old(conf)[k := v] else old(conf)
    {
      if fault.BeginFails? || fault == PutFails(0) || fault.CommitFails? { return Some(ErrBolt); }
      conf := conf[k := v];
      return None;
    }

    /** Add refuses a key that holds a value, but not one that holds the empty value. */
    method Add(k: Bytes, v: Bytes, fault: Fault) returns (err: Option<Error>)
      modifies this`conf
      ensures err == Some(ErrKeyDuplicated) <==> !fault.BeginFails? && Held(old(conf), k)
      ensures err.None? <==> !fault.Aborts() && fault != PutFails(0) && !Held(old(conf), k)
      ensures conf == if err.None? then AddStep(old(conf), k, v) else old(conf)
    {
      if fault.BeginFails? { return Some(ErrBolt); }
      if k in conf && |conf[k]| > 0 { return Some(ErrKeyDuplicated); }
      if fault == PutFails(0) || fault.CommitFails? { return Some(ErrBolt); }
      conf := conf[k := v];
      return None;
    }

    method Get(k: Bytes, fault: Fault) returns (r: Result<Bytes, Error>)
      ensures fault.BeginFails? <==> r == Err(ErrBolt)
      ensures !fault.BeginFails? ==> r == if k in conf then Ok(conf[k]) else Err(ErrKeyNotFound)
    {
      if fault.BeginFails? { return Err(ErrBolt); }
      if k !in conf { return Err(ErrKeyNotFound); }
      return Ok(conf[k]);
    }
  }

  // ---- write-once configuration keys ----

  predicate Held(conf: map<Bytes, Bytes>, k: Bytes) {
    k in conf && conf[k] != []
  }

  function AddStep(conf: map<Bytes, Bytes>, k: Bytes, v: Bytes): map<Bytes, Bytes> {
    if Held(conf, k) then conf else conf[k := v]
  }

  function AddAll(adds: seq<(Bytes, Bytes)>): map<Bytes, Bytes> {
    if adds == [] then map[]
    else AddStep(AddAll(adds[..|adds| - 1]), adds[|adds| - 1].0, adds[|adds| - 1].1)
  }

  /** After any number of Adds a key holds its first non-empty value, and whatever came later is refused. */
  lemma {:induction false} FirstNonEmptyAddWins(adds: seq<(Bytes, Bytes)>, k: Bytes, n: nat)
    requires n < |adds| && adds[n].0 == k && adds[n].1 != []
    requires forall j | 0 <= j < n && adds[j].0 == k :: adds[j].1 == []
    ensures k in AddAll(adds) && AddAll(adds)[k] == adds[n].1
  {
    var before := adds[..|adds| - 1];
    if n < |adds| - 1 {
      FirstNonEmptyAddWins(before, k, n);
    } else {
      NothingHeld(before, k);
    }
  }

  lemma {:induction false} NothingHeld(adds: seq<(Bytes, Bytes)>, k: Bytes)
    requires forall j | 0 <= j < |adds| && adds[j].0 == k :: adds[j].1 == []
    ensures !Held(AddAll(adds), k)
  {
    if adds != [] { NothingHeld(adds[..|adds| - 1], k); }
  }
}
