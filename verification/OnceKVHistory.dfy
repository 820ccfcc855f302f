/** What each part of the state of the store says about the run that led to it. */
module OnceKVHistory {
  import opened Wrappers
  import ByteOrder
  import Replay
  import opened History
  import opened Race
  import opened Wire
  import opened OnceKV
  import CacheNode
  import Client

  type Bytes = ByteOrder.Bytes

  /** The state before step n of a run. */
  function At(route: Route, steps: seq<Step>, n: nat): State
    requires n <= |steps|
  {
    Run(Init(route), steps[..n])
  }

  lemma AtNext(route: Route, steps: seq<Step>, n: nat)
    requires n < |steps|
    ensures At(route, steps, n + 1) == Next(At(route, steps, n), steps[n])
  {
    assert steps[..n + 1][..n] == steps[..n];
  }

  // ---- replies in flight from the databases ----

  /** What a node that takes itself for the leader says about a key. */
  function Says(node: Replica, key: Bytes): Note {
    if Lookup(node.m, key) in {None, Some([])} then Absent else Found(Doc(key, node.m[key]))
  }

  predicate DbSays(s: State, step: Step, d: Sent) {
    step.DbAnswer? && step.key == d.key && d.key != [] && ReplicaOf(s, step.r).believesLeader &&
    Says(ReplicaOf(s, step.r), d.key) == d.note
  }

  function DbSaysAt(route: Route, steps: seq<Step>, d: Sent): nat -> bool {
    (n: nat) => n < |steps| && DbSays(At(route, steps, n), steps[n], d)
  }

  function DbGoneAt(steps: seq<Step>, d: Sent): nat -> bool {
    (n: nat) => n < |steps| && steps[n] == DbReplyGone(d)
  }

  lemma DbSentStep(s: State, step: Step, d: Sent)
    ensures d in Next(s, step).dbSent <==> DbSays(s, step, d) || (d in s.dbSent && step != DbReplyGone(d))
  {
  }

  lemma DbSentTurns(route: Route, steps: seq<Step>, k: nat, d: Sent)
    requires k < |steps|
    ensures d in At(route, steps, k + 1).dbSent <==>
            DbSaysAt(route, steps, d)(k) || (d in At(route, steps, k).dbSent && !DbGoneAt(steps, d)(k))
  {
    AtNext(route, steps, k);
    DbSentStep(At(route, steps, k), steps[k], d);
  }

  /** A database's reply is in flight exactly since a node that took itself for the leader gave it, until it is gone. */
  lemma DbSentIff(route: Route, steps: seq<Step>, n: nat, d: Sent)
    requires n <= |steps|
    ensures d in At(route, steps, n).dbSent <==>
            exists m: nat :: Since(DbSaysAt(route, steps, d), DbGoneAt(steps, d), m, n)
  {
    var sent: nat -> bool := (k: nat) => k <= |steps| && d in At(route, steps, k).dbSent;
    forall k: nat | k < n
      ensures sent(k + 1) <==> DbSaysAt(route, steps, d)(k) || (sent(k) && !DbGoneAt(steps, d)(k))
    {
      DbSentTurns(route, steps, k, d);
    }
    HoldsSince(DbSaysAt(route, steps, d), DbGoneAt(steps, d), sent, n);
  }

  // ---- what caches keep and say ----

  /** The load ends with this reply of a database. */
  ghost predicate LoadBrings(s: State, step: Step, key: Bytes, note: Note) {
    step.CacheLoad? && step.key == key && LoadPossible(s, key, step.load) &&
    exists r :: step.load.SettledBy(CacheNode.Decisive, r) && r.Response? &&
                note == if r.Missing() then Absent else Found(r.body)
  }

  lemma LoadBringsIff(s: State, step: Step, key: Bytes, note: Note)
    requires step.CacheLoad? && step.key == key && LoadPossible(s, key, step.load)
    ensures var outcome := CacheNode.FetchData(step.load);
            LoadBrings(s, step, key, note) <==>
            (outcome == (None, Some(NotFound)) && note == Absent) ||
            (note.Found? && outcome == (Some(note.body), None))
  {
    CacheNode.LoadIsSettled(step.load);
    if step.load.Settled(CacheNode.Decisive) {
      var r :| step.load.SettledBy(CacheNode.Decisive, r);
      assert r.Response?;
    }
  }

  /** The step puts this body into cache c. */
  ghost predicate Fills(s: State, step: Step, c: Id, key: Bytes, body: Body) {
    || (step.CacheLoad? && step.c == c && LoadBrings(s, step, key, Found(body)))
    || (step == PeerLoad(c, key, body, true) && Sent(key, Found(body)) in s.cacheSent)
  }

  /** The step takes the entry out of cache c, or puts another in its place. */
  ghost predicate Displaces(s: State, step: Step, c: Id, key: Bytes) {
    step == Evict(c, key) || exists body :: Fills(s, step, c, key, body)
  }

  predicate Keeps(s: State, c: Id, key: Bytes, body: Body) {
    (c, key) in s.caches && s.caches[(c, key)] == body
  }

  lemma LoadKeeps(s: State, step: Step, c: Id, key: Bytes, body: Body)
    requires step.CacheLoad?
    ensures Keeps(Next(s, step), c, key, body) <==>
            Fills(s, step, c, key, body) || (Keeps(s, c, key, body) && !Displaces(s, step, c, key))
  {
    if step.c == c && step.key == key && LoadPossible(s, key, step.load) {
      forall note ensures LoadBrings(s, step, key, note) <==>
                          (CacheNode.FetchData(step.load) == (None, Some(NotFound)) && note == Absent) ||
                          (note.Found? && CacheNode.FetchData(step.load) == (Some(note.body), None))
      {
        LoadBringsIff(s, step, key, note);
      }
      CacheNode.LoadIsSettled(step.load);
      var outcome := CacheNode.FetchData(step.load);
      assert outcome.1.None? && outcome.0.Some? ==> Fills(s, step, c, key, outcome.0.value);
    }
  }

  lemma KeepStep(s: State, step: Step, c: Id, key: Bytes, body: Body)
    ensures Keeps(Next(s, step), c, key, body) <==>
            Fills(s, step, c, key, body) || (Keeps(s, c, key, body) && !Displaces(s, step, c, key))
  {
    if step.CacheLoad? {
      LoadKeeps(s, step, c, key, body);
    } else if step.PeerLoad? && step.keep && step.c == c && step.key == key {
      assert Sent(key, Found(step.body)) in s.cacheSent ==> Fills(s, step, c, key, step.body);
    }
  }

  ghost function FillsAt(route: Route, steps: seq<Step>, c: Id, key: Bytes, body: Body): nat -> bool {
    (n: nat) => n < |steps| && Fills(At(route, steps, n), steps[n], c, key, body)
  }

  ghost function DisplacesAt(route: Route, steps: seq<Step>, c: Id, key: Bytes): nat -> bool {
    (n: nat) => n < |steps| && Displaces(At(route, steps, n), steps[n], c, key)
  }

  /**
   A cache keeps a body exactly since a load brought it, or another cache's reply that it kept, until
   it is evicted or replaced.
   */
  lemma EntryIff(route: Route, steps: seq<Step>, n: nat, c: Id, key: Bytes, body: Body)
    requires n <= |steps|
    ensures Keeps(At(route, steps, n), c, key, body) <==>
            exists m: nat :: Since(FillsAt(route, steps, c, key, body), DisplacesAt(route, steps, c, key), m, n)
  {
    ghost var keeps: nat -> bool := (k: nat) => k <= |steps| && Keeps(At(route, steps, k), c, key, body);
    forall k: nat | k < n
      ensures keeps(k + 1) <==>
              FillsAt(route, steps, c, key, body)(k) || (keeps(k) && !DisplacesAt(route, steps, c, key)(k))
    {
      AtNext(route, steps, k);
      KeepStep(At(route, steps, k), steps[k], c, key, body);
    }
    HoldsSince(FillsAt(route, steps, c, key, body), DisplacesAt(route, steps, c, key), keeps, n);
  }

  /** A cache says what a load brought, or what it keeps. */
  ghost predicate CacheSays(s: State, step: Step, d: Sent) {
    || LoadBrings(s, step, d.key, d.note)
    || (step.CacheHit? && step.key == d.key && d.note.Found? && Keeps(s, step.c, d.key, d.note.body))
  }

  lemma LoadSays(s: State, step: Step, d: Sent)
    requires step.CacheLoad?
    ensures d in Next(s, step).cacheSent <==> CacheSays(s, step, d) || d in s.cacheSent
  {
    if LoadPossible(s, step.key, step.load) {
      LoadBringsIff(s, step, step.key, d.note);
      CacheNode.LoadIsSettled(step.load);
    }
  }

  lemma CacheSentStep(s: State, step: Step, d: Sent)
    ensures d in Next(s, step).cacheSent <==>
            CacheSays(s, step, d) || (d in s.cacheSent && step != CacheReplyGone(d))
  {
    if step.CacheLoad? { LoadSays(s, step, d); }
  }

  ghost function CacheSaysAt(route: Route, steps: seq<Step>, d: Sent): nat -> bool {
    (n: nat) => n < |steps| && CacheSays(At(route, steps, n), steps[n], d)
  }

  function CacheGoneAt(steps: seq<Step>, d: Sent): nat -> bool {
    (n: nat) => n < |steps| && steps[n] == CacheReplyGone(d)
  }

  lemma CacheSentTurns(route: Route, steps: seq<Step>, k: nat, d: Sent)
    requires k < |steps|
    ensures d in At(route, steps, k + 1).cacheSent <==>
            CacheSaysAt(route, steps, d)(k) || (d in At(route, steps, k).cacheSent && !CacheGoneAt(steps, d)(k))
  {
    AtNext(route, steps, k);
    CacheSentStep(At(route, steps, k), steps[k], d);
  }

  /** A cache's reply is in flight exactly since a cache gave it, from a load or from what it kept, until it is gone. */
  lemma CacheSentIff(route: Route, steps: seq<Step>, n: nat, d: Sent)
    requires n <= |steps|
    ensures d in At(route, steps, n).cacheSent <==>
            exists m: nat :: Since(CacheSaysAt(route, steps, d), CacheGoneAt(steps, d), m, n)
  {
    ghost var sent: nat -> bool := (k: nat) => k <= |steps| && d in At(route, steps, k).cacheSent;
    forall k: nat | k < n
      ensures sent(k + 1) <==> CacheSaysAt(route, steps, d)(k) || (sent(k) && !CacheGoneAt(steps, d)(k))
    {
      CacheSentTurns(route, steps, k, d);
    }
    HoldsSince(CacheSaysAt(route, steps, d), CacheGoneAt(steps, d), sent, n);
  }

  // ---- what a Get returns ----

  /** A Get that is possible returns what settles it, and is recorded as such. */
  lemma GetReturns(s: State, step: Step)
    requires step.ClientGet? && GetPossible(s, step.key, step.fromCaches, step.fromDBs)
    ensures var t, decisive := Next(s, step), Client.For(step.key);
            t == s.(gets := t.gets) && |t.gets| == |s.gets| + 1 && s.gets <= t.gets &&
            var g := t.gets[|s.gets|];
            && g.key == step.key && (g.byCaches <==> step.fromCaches.Settled(decisive))
            && (forall r | step.fromCaches.SettledBy(decisive, r) ::
                  Client.Decisive(step.key, r) && g.outcome == Client.Said(r))
            && (!g.byCaches ==> forall r | step.fromDBs.SettledBy(decisive, r) ::
                  Client.Decisive(step.key, r) && g.outcome == Client.Said(r))
            && (!g.byCaches && !step.fromDBs.Settled(decisive) ==> Client.Open(g.outcome))
  {
    Client.GetIsSettled(step.key, step.requestTimeout, step.fromCaches, step.fromDBs);
    Client.AttemptIsSettled(step.key, step.requestTimeout, step.fromCaches);
  }

  // ---- replicas ----

  function BelievesAt(steps: seq<Step>, r: Id): nat -> bool {
    (n: nat) => n < |steps| && steps[n] == Believe(r, true)
  }

  function DoubtsAt(steps: seq<Step>, r: Id): nat -> bool {
    (n: nat) => n < |steps| && steps[n] in {Believe(r, false), Restart(r)}
  }

  lemma BelieveStep(s: State, step: Step, r: Id)
    ensures ReplicaOf(Next(s, step), r).believesLeader <==>
            step == Believe(r, true) ||
            (ReplicaOf(s, r).believesLeader && step !in {Believe(r, false), Restart(r)})
  {
  }

  /** A node takes itself for the leader exactly since it came to, until it ceases to or restarts. */
  lemma BelievesIff(route: Route, steps: seq<Step>, n: nat, r: Id)
    requires n <= |steps|
    ensures ReplicaOf(At(route, steps, n), r).believesLeader <==>
            exists m: nat :: Since(BelievesAt(steps, r), DoubtsAt(steps, r), m, n)
  {
    var believes: nat -> bool := (k: nat) => k <= |steps| && ReplicaOf(At(route, steps, k), r).believesLeader;
    forall k: nat | k < n
      ensures believes(k + 1) <==> BelievesAt(steps, r)(k) || (believes(k) && !DoubtsAt(steps, r)(k))
    {
      AtNext(route, steps, k);
      BelieveStep(At(route, steps, k), steps[k], r);
    }
    HoldsSince(BelievesAt(steps, r), DoubtsAt(steps, r), believes, n);
  }

  /** What a node has applied, and its map. */
  function HeldBy(s: State, r: Id): (nat, Replay.Kv) {
    (ReplicaOf(s, r).applied, ReplicaOf(s, r).m)
  }

  function Holding(route: Route, steps: seq<Step>, r: Id): nat -> (nat, Replay.Kv) {
    (n: nat) => if n <= |steps| then HeldBy(At(route, steps, n), r) else (0, map[])
  }

  predicate Moves(step: Step, r: Id) {
    (step.ApplyNext? || step.InstallSnapshot? || step.Restart?) && step.r == r
  }

  function MovesAt(steps: seq<Step>, r: Id): nat -> bool {
    (n: nat) => n < |steps| && Moves(steps[n], r)
  }

  lemma OthersLeaveReplica(s: State, step: Step, r: Id)
    requires !Moves(step, r)
    ensures HeldBy(Next(s, step), r) == HeldBy(s, r)
  {
  }

  /** Only applying an entry, installing a snapshot and restarting change what a node holds. */
  lemma ReplicaKept(route: Route, steps: seq<Step>, m: nat, n: nat, r: Id)
    requires m <= n <= |steps| && forall k: nat | m <= k < n :: !Moves(steps[k], r)
    ensures HeldBy(At(route, steps, n), r) == HeldBy(At(route, steps, m), r)
  {
    forall k: nat | m <= k < n && !MovesAt(steps, r)(k)
      ensures Holding(route, steps, r)(k + 1) == Holding(route, steps, r)(k)
    {
      AtNext(route, steps, k);
      OthersLeaveReplica(At(route, steps, k), steps[k], r);
    }
    KeptSince(MovesAt(steps, r), Holding(route, steps, r), m, n);
  }

  lemma SnapshotsStay(s: State, more: seq<Step>)
    ensures s.snapshots <= Run(s, more).snapshots
  {
    if more != [] { SnapshotsStay(s, more[..|more| - 1]); }
  }

  lemma TakesImage(s: State, from: Id)
    ensures var node := ReplicaOf(s, from);
            Image(node.applied, node.m) in Next(s, TakeSnapshot(from)).snapshots
  {
  }

  lemma InstallsImage(s: State, to: Id, image: Image)
    requires image in s.snapshots
    ensures var node := ReplicaOf(Next(s, InstallSnapshot(to, image)), to);
            node.applied == image.index && node.m == image.m && node.believesLeader == ReplicaOf(s, to).believesLeader
  {
  }

  /**
   A snapshot carries a node's state over: whatever happens between its taking and its installation,
   the node that installs it holds what the other one held when it was taken.
   */
  lemma SnapshotCarries(s: State, from: Id, more: seq<Step>, to: Id)
    ensures var image := Image(ReplicaOf(s, from).applied, ReplicaOf(s, from).m);
            var t := Run(Next(s, TakeSnapshot(from)), more);
            var node := ReplicaOf(Next(t, InstallSnapshot(to, image)), to);
            node.applied == ReplicaOf(s, from).applied && node.m == ReplicaOf(s, from).m &&
            node.believesLeader == ReplicaOf(t, to).believesLeader
  {
    var image := Image(ReplicaOf(s, from).applied, ReplicaOf(s, from).m);
    var taken := Next(s, TakeSnapshot(from));
    TakesImage(s, from);
    SnapshotsStay(taken, more);
    InstallsImage(Run(taken, more), to, image);
  }
}
