/**
 The whole store as a step machine: a growing committed log, replicas at any prefix of it,
 snapshots, cache nodes that are never invalidated, replies in flight, and clients.

 A reply stays in flight until a step takes it away, which may be never: until then it may be
 delivered at any time, to anyone who asked about the key, and any number of times. Every other choice
 (who is asked, in which order answers arrive, what fails, when a timer fires) is an argument of the step that makes
 it, and a step that is not possible leaves the state alone, so the runs are all sequences of steps.
 */
module OnceKV {
  import opened Wrappers
  import opened ByteOrder
  import opened Replay
  import opened Race
  import opened Wire
  import CacheNode
  import Client

  type Id = nat

  /**
   What a server is asked when a key is pasted into a URL as it is: about some key; nothing, because
   the URL reaches no handler, and the answer is a 404; or nothing, because the URL does not parse
   and no request is sent.
   */
  datatype Target = About(key: Bytes) | NoHandler | Unsent

  /** What clients ask a cache, and cache nodes a database, when they mean a key. */
  type Route = Bytes -> Target

  /** A database node: how much of the log it has applied, its map, and whether it takes itself for the leader. */
  datatype Replica = Replica(applied: nat, m: Kv, believesLeader: bool)

  datatype Image = Image(index: nat, m: Kv)

  /** A reply put in flight about a key: a 200 with its body, or a 404. Others carry nothing and need no record. */
  datatype Note = Found(body: Body) | Absent
  datatype Sent = Sent(key: Bytes, note: Note)

  /** A Get that has returned, and whether the caches decided it. */
  datatype Got = Got(key: Bytes, outcome: Client.Outcome, byCaches: bool)

  datatype State = State(
    route: Route,
    log: seq<Command>,
    replicas: map<Id, Replica>,
    snapshots: set<Image>,
    caches: map<(Id, Bytes), Body>,
    dbSent: set<Sent>,
    cacheSent: set<Sent>,
    gets: seq<Got>)

  function Init(route: Route): State {
    State(route, [], map[], {}, map[], {}, {}, [])
  }

  datatype Step =
    | Commit(cmd: Command)
    | ApplyNext(r: Id)
    | TakeSnapshot(r: Id)
    | InstallSnapshot(r: Id, image: Image)
    | Restart(r: Id)
    | Believe(r: Id, leader: bool)
    | DbAnswer(r: Id, key: Bytes)
    | CacheLoad(c: Id, key: Bytes, load: Attempt)
    | CacheHit(c: Id, key: Bytes)
    | PeerLoad(c: Id, key: Bytes, body: Body, keep: bool)
    | Evict(c: Id, key: Bytes)
    | DbReplyGone(d: Sent)
    | CacheReplyGone(d: Sent)
    | ClientGet(key: Bytes, requestTimeout: nat, fromCaches: Attempt, fromDBs: Attempt)

  /** A node that has not started holds nothing. */
  function ReplicaOf(s: State, r: Id): Replica {
    if r in s.replicas then s.replicas[r] else Replica(0, map[], false)
  }

  /** A 200 or 404 about the key asked can only be one in flight; any other end of a request is always possible. */
  predicate Genuine(sent: set<Sent>, asked: Target, reply: Reply) {
    match asked
    case About(k) =>
      (reply.Ok() ==> Sent(k, Found(reply.body)) in sent) && (reply.Missing() ==> Sent(k, Absent) in sent)
    case NoHandler => !reply.Ok()
    case Unsent => !reply.Response?
  }

  /** The client asks databases under a path that they do not serve for reads: a 404 is always possible there. */
  predicate GenuineValue(sent: set<Sent>, asked: Target, reply: Reply) {
    && (reply.Ok() ==> asked.About? && Sent(asked.key, Found(reply.body)) in sent)
    && (asked.Unsent? ==> !reply.Response?)
  }

  predicate LoadPossible(s: State, key: Bytes, load: Attempt) {
    load.Possible() && forall r | r in load.Replies() :: Genuine(s.dbSent, s.route(key), r)
  }

  predicate GetPossible(s: State, key: Bytes, fromCaches: Attempt, fromDBs: Attempt) {
    && fromCaches.Possible() && fromDBs.Possible()
    && (forall r | r in fromCaches.Replies() :: Genuine(s.cacheSent, s.route(key), r))
    && (forall r | r in fromDBs.Replies() :: GenuineValue(s.dbSent, s.route(key), r))
  }

  function Send(sent: set<Sent>, key: Bytes, reply: Reply): set<Sent> {
    if reply.Ok() then sent + {Sent(key, Found(reply.body))}
    else if reply.Missing() then sent + {Sent(key, Absent)}
    else sent
  }

  function Next(s: State, step: Step): State {
    match step
    case Commit(cmd) =>
      s.(log := s.log + [cmd])
    case ApplyNext(r) =>
      var node := ReplicaOf(s, r);
      if node.applied < |s.log| then
        var m := Replay.Step(node.m, s.log[node.applied]);
        s.(replicas := s.replicas[r := node.(applied := node.applied + 1, m := m)])
      else s
    case TakeSnapshot(r) =>
      s.(snapshots := s.snapshots + {Image(ReplicaOf(s, r).applied, ReplicaOf(s, r).m)})
    case InstallSnapshot(r, image) =>
      if image in s.snapshots then
        s.(replicas := s.replicas[r := ReplicaOf(s, r).(applied := image.index, m := image.m)])
      else s
    case Restart(r) =>
      s.(replicas := s.replicas[r := Replica(0, map[], false)])
    case Believe(r, leader) =>
      s.(replicas := s.replicas[r := ReplicaOf(s, r).(believesLeader := leader)])
    case DbAnswer(r, key) =>
      var node := ReplicaOf(s, r);
      s.(dbSent := Send(s.dbSent, key, HandleGet(node.believesLeader, key, node.m, 0)))
    case CacheLoad(c, key, load) =>
      if !LoadPossible(s, key, load) then s
      else
        var outcome := CacheNode.FetchData(load);
        var kept := if outcome.1.None? && outcome.0.Some? then s.caches[(c, key) := outcome.0.value] else s.caches;
        s.(caches := kept, cacheSent := Send(s.cacheSent, key, CacheNode.Answered(outcome, 0)))
    case CacheHit(c, key) =>
      if (c, key) !in s.caches then s
      else s.(cacheSent := Send(s.cacheSent, key, CacheNode.Answered((Some(s.caches[(c, key)]), None), 0)))
    case PeerLoad(c, key, body, keep) =>
      if Sent(key, Found(body)) !in s.cacheSent then s
      else s.(caches := if keep then s.caches[(c, key) := body] else s.caches)
    case Evict(c, key) =>
      s.(caches := s.caches - {(c, key)})
    case DbReplyGone(d) =>
      s.(dbSent := s.dbSent - {d})
    case CacheReplyGone(d) =>
      s.(cacheSent := s.cacheSent - {d})
    case ClientGet(key, requestTimeout, fromCaches, fromDBs) =>
      if !GetPossible(s, key, fromCaches, fromDBs) then s
      else
        var outcome := Client.Get(key, requestTimeout, fromCaches, fromDBs);
        s.(gets := s.gets + [Got(key, outcome, Client.CachesDecide(key, requestTimeout, fromCaches))])
  }

  function Run(s: State, steps: seq<Step>): State {
    if steps == [] then s else Next(Run(s, steps[..|steps| - 1]), steps[|steps| - 1])
  }

  /** The service commits nothing but Adds; Raft adds entries of its own. */
  predicate ViaService(steps: seq<Step>) {
    forall n | 0 <= n < |steps| && steps[n].Commit? :: steps[n].cmd.Add? || steps[n].cmd.Noop?
  }

  // ---- the invariant ----

  predicate PrefixState(log: seq<Command>, n: nat, m: Kv) {
    n <= |log| && m == Replay.Run(log[..n], map[])
  }

  /** After some prefix of the log k holds v. */
  ghost predicate Held(log: seq<Command>, k: Bytes, v: Bytes) {
    exists n | 0 <= n <= |log| :: Lookup(Replay.Run(log[..n], map[]), k) == Some(v)
  }

  /** body is the document of k with a value that k holds after some prefix of the log, neither being empty. */
  ghost predicate Right(log: seq<Command>, k: Bytes, body: Body) {
    k != [] && body.Doc? && body.key == k && body.value != [] && Held(log, k, body.value)
  }

  ghost predicate StoreInv(s: State) {
    && (forall r | r in s.replicas :: PrefixState(s.log, s.replicas[r].applied, s.replicas[r].m))
    && (forall i | i in s.snapshots :: PrefixState(s.log, i.index, i.m))
  }

  /** A 200 of a database is right about the key it was asked. */
  ghost predicate DbNoteRight(log: seq<Command>, d: Sent) {
    d.note.Found? ==> Right(log, d.key, d.note.body)
  }

  /** What a cache holds under a key is right about the key that the database was asked. */
  ghost predicate EntryRight(route: Route, log: seq<Command>, key: Bytes, body: Body) {
    route(key).About? && Right(log, route(key).key, body)
  }

  ghost predicate CacheNoteRight(route: Route, log: seq<Command>, d: Sent) {
    d.note.Found? ==> EntryRight(route, log, d.key, d.note.body)
  }

  /** What a database is asked when a client asks a cache: two URLs on the way. */
  function Asked(route: Route, key: Bytes): Target {
    if route(key).About? then route(route(key).key) else route(key)
  }

  ghost predicate GotRight(route: Route, log: seq<Command>, g: Got) {
    && (g.outcome.1.None? <==> g.outcome.0.Some?)
    && (g.outcome.0.Some? ==>
          g.key != [] && g.outcome.0.value != [] && Held(log, g.key, g.outcome.0.value) &&
          Asked(route, g.key) == About(g.key))
  }

  ghost predicate ReadInv(s: State) {
    && (forall d | d in s.dbSent :: DbNoteRight(s.log, d))
    && (forall d | d in s.cacheSent :: CacheNoteRight(s.route, s.log, d))
    && (forall c | c in s.caches :: EntryRight(s.route, s.log, c.1, s.caches[c]))
    && (forall g | g in s.gets :: GotRight(s.route, s.log, g))
  }

  ghost predicate Inv(s: State) {
    StoreInv(s) && ReadInv(s)
  }

  lemma PrefixGrows(log: seq<Command>, cmd: Command, n: nat, m: Kv)
    requires PrefixState(log, n, m)
    ensures PrefixState(log + [cmd], n, m)
  {
    assert (log + [cmd])[..n] == log[..n];
  }

  lemma PrefixAdvances(log: seq<Command>, n: nat, m: Kv)
    requires PrefixState(log, n, m) && n < |log|
    ensures PrefixState(log, n + 1, Replay.Step(m, log[n]))
  {
    assert log[..n + 1][..n] == log[..n];
  }

  lemma HeldGrows(log: seq<Command>, longer: seq<Command>, k: Bytes, v: Bytes)
    requires log <= longer && Held(log, k, v)
    ensures Held(longer, k, v)
  {
    var n :| 0 <= n <= |log| && Lookup(Replay.Run(log[..n], map[]), k) == Some(v);
    assert longer[..n] == log[..n];
  }

  /** In an add-only log a key never holds anything but its first added value. */
  lemma HeldIsFirstAdd(log: seq<Command>, k: Bytes, v: Bytes)
    requires AddOnly(log)
    ensures Held(log, k, v) <==> FirstAdd(log, k) == Some(v)
  {
    forall n | 0 <= n <= |log| && Lookup(Replay.Run(log[..n], map[]), k) == Some(v)
      ensures FirstAdd(log, k) == Some(v)
    {
      AddOnlyValue(log[..n], k);
      FirstAddGrows(log[..n], log[n..], k);
      assert log == log[..n] + log[n..];
    }
    AddOnlyValue(log, k);
    assert log[..|log|] == log;
  }

  lemma CommitKeepsInv(s: State, cmd: Command)
    requires Inv(s)
    ensures Inv(Next(s, Commit(cmd)))
  {
    forall k, v | Held(s.log, k, v) ensures Held(s.log + [cmd], k, v) {
      HeldGrows(s.log, s.log + [cmd], k, v);
    }
    forall r | r in s.replicas
      ensures PrefixState(s.log + [cmd], s.replicas[r].applied, s.replicas[r].m)
    {
      PrefixGrows(s.log, cmd, s.replicas[r].applied, s.replicas[r].m);
    }
    forall i | i in s.snapshots ensures PrefixState(s.log + [cmd], i.index, i.m) {
      PrefixGrows(s.log, cmd, i.index, i.m);
    }
  }

  lemma ReplicaPrefix(s: State, r: Id)
    requires StoreInv(s)
    ensures PrefixState(s.log, ReplicaOf(s, r).applied, ReplicaOf(s, r).m)
  {
    assert s.log[..0] == [];
  }

  /** A replica at any prefix of an add-only log that answers at all sends the key's first added value. */
  lemma PrefixAnswersRight(log: seq<Command>, n: nat, m: Kv, leader: bool, key: Bytes)
    requires PrefixState(log, n, m)
    ensures var r := HandleGet(leader, key, m, 0);
            r.Ok() ==> Right(log, key, r.body) && (AddOnly(log) ==> FirstAdd(log, key) == Some(r.body.value))
  {
    if HandleGet(leader, key, m, 0).Ok() && AddOnly(log) { HeldIsFirstAdd(log, key, m[key]); }
  }

  lemma AnswerKeepsInv(s: State, r: Id, key: Bytes)
    requires Inv(s)
    ensures Inv(Next(s, DbAnswer(r, key)))
  {
    ReplicaPrefix(s, r);
    PrefixAnswersRight(s.log, ReplicaOf(s, r).applied, ReplicaOf(s, r).m, ReplicaOf(s, r).believesLeader, key);
  }

  lemma KeepKeepsInv(s: State, c: Id, key: Bytes, body: Body)
    requires Inv(s) && EntryRight(s.route, s.log, key, body)
    ensures Inv(s.(caches := s.caches[(c, key) := body]))
  {
  }

  lemma SendKeepsInv(s: State, key: Bytes, reply: Reply)
    requires Inv(s) && (reply.Ok() ==> EntryRight(s.route, s.log, key, reply.body))
    ensures Inv(s.(cacheSent := Send(s.cacheSent, key, reply)))
  {
  }

  lemma LoadIsRight(s: State, key: Bytes, load: Attempt)
    requires Inv(s) && LoadPossible(s, key, load)
    ensures var outcome := CacheNode.FetchData(load);
            outcome.1.None? ==> outcome.0.Some? && EntryRight(s.route, s.log, key, outcome.0.value)
  {
    CacheNode.LoadIsAReply(load);
  }

  lemma LoadKeepsInv(s: State, c: Id, key: Bytes, load: Attempt)
    requires Inv(s)
    ensures Inv(Next(s, CacheLoad(c, key, load)))
  {
    if LoadPossible(s, key, load) {
      LoadIsRight(s, key, load);
      var outcome := CacheNode.FetchData(load);
      var kept := s;
      if outcome.1.None? {
        KeepKeepsInv(s, c, key, outcome.0.value);
        kept := s.(caches := s.caches[(c, key) := outcome.0.value]);
      }
      SendKeepsInv(kept, key, CacheNode.Answered(outcome, 0));
      assert Next(s, CacheLoad(c, key, load)) ==
             kept.(cacheSent := Send(s.cacheSent, key, CacheNode.Answered(outcome, 0)));
    }
  }

  lemma GetIsRight(s: State, key: Bytes, requestTimeout: nat, fromCaches: Attempt, fromDBs: Attempt)
    requires Inv(s) && GetPossible(s, key, fromCaches, fromDBs)
    ensures GotRight(s.route, s.log, Got(key, Client.Get(key, requestTimeout, fromCaches, fromDBs),
                            Client.CachesDecide(key, requestTimeout, fromCaches)))
  {
    Client.GetIsAReply(key, requestTimeout, fromCaches, fromDBs);
    var outcome := Client.Get(key, requestTimeout, fromCaches, fromDBs);
    if Client.CachesDecide(key, requestTimeout, fromCaches) {
      if outcome.0.Some? {
        var r :| r in fromCaches.Replies() && r.Ok() && r.body == Doc(key, outcome.0.value);
        assert Genuine(s.cacheSent, s.route(key), r);
        assert CacheNoteRight(s.route, s.log, Sent(s.route(key).key, Found(r.body)));
      }
    } else if outcome.0.Some? {
      var r :| r in fromDBs.Replies() && r.Ok() && r.body == Doc(key, outcome.0.value);
      assert GenuineValue(s.dbSent, s.route(key), r);
      assert DbNoteRight(s.log, Sent(s.route(key).key, Found(r.body)));
    }
  }

  lemma GetKeepsInv(s: State, step: Step)
    requires Inv(s) && step.ClientGet?
    ensures Inv(Next(s, step))
  {
    if GetPossible(s, step.key, step.fromCaches, step.fromDBs) {
      GetIsRight(s, step.key, step.requestTimeout, step.fromCaches, step.fromDBs);
    }
  }

  lemma ReplicaSetKeepsInv(s: State, r: Id, node: Replica)
    requires Inv(s) && PrefixState(s.log, node.applied, node.m)
    ensures Inv(s.(replicas := s.replicas[r := node]))
  {
  }

  /** Applying, restoring, restarting and changing one's mind about the leader keep every map a prefix state. */
  lemma ReplicaStepKeepsInv(s: State, step: Step)
    requires Inv(s)
    requires step.ApplyNext? || step.TakeSnapshot? || step.InstallSnapshot? || step.Restart? || step.Believe?
    ensures Inv(Next(s, step))
  {
    ReplicaPrefix(s, step.r);
    assert s.log[..0] == [];
    var node := ReplicaOf(s, step.r);
    if step.ApplyNext? && node.applied < |s.log| { PrefixAdvances(s.log, node.applied, node.m); }
    if !step.TakeSnapshot? && Next(s, step) != s {
      ReplicaSetKeepsInv(s, step.r, Next(s, step).replicas[step.r]);
    }
  }

  lemma CacheStepKeepsInv(s: State, step: Step)
    requires Inv(s) && (step.CacheHit? || step.PeerLoad?)
    ensures Inv(Next(s, step))
  {
    if step.CacheHit? && (step.c, step.key) in s.caches {
      var body := s.caches[(step.c, step.key)];
      assert EntryRight(s.route, s.log, (step.c, step.key).1, body);
      SendKeepsInv(s, step.key, CacheNode.Answered((Some(body), None), 0));
    }
    if step.PeerLoad? && Sent(step.key, Found(step.body)) in s.cacheSent {
      assert CacheNoteRight(s.route, s.log, Sent(step.key, Found(step.body)));
      KeepKeepsInv(s, step.c, step.key, step.body);
    }
  }

  /** Dropping an entry or a reply does no harm. */
  lemma DropKeepsInv(s: State, step: Step)
    requires Inv(s) && (step.Evict? || step.DbReplyGone? || step.CacheReplyGone?)
    ensures Inv(Next(s, step))
  {
  }

  lemma StepKeepsInv(s: State, step: Step)
    requires Inv(s)
    ensures Inv(Next(s, step))
  {
    match step
    case Commit(cmd) => CommitKeepsInv(s, cmd);
    case DbAnswer(r, key) => AnswerKeepsInv(s, r, key);
    case CacheLoad(c, key, load) => LoadKeepsInv(s, c, key, load);
    case ClientGet(_, _, _, _) => GetKeepsInv(s, step);
    case CacheHit(_, _) => CacheStepKeepsInv(s, step);
    case PeerLoad(_, _, _, _) => CacheStepKeepsInv(s, step);
    case Evict(_, _) => DropKeepsInv(s, step);
    case DbReplyGone(_) => DropKeepsInv(s, step);
    case CacheReplyGone(_) => DropKeepsInv(s, step);
    case _ => ReplicaStepKeepsInv(s, step);
  }

  lemma {:induction false} RunKeepsInv(s: State, steps: seq<Step>)
    requires Inv(s)
    ensures Inv(Run(s, steps))
  {
    if steps != [] {
      RunKeepsInv(s, steps[..|steps| - 1]);
      StepKeepsInv(Run(s, steps[..|steps| - 1]), steps[|steps| - 1]);
    }
  }

  lemma StepStaysAddOnly(s: State, step: Step)
    requires AddOnly(s.log) && ViaService([step])
    ensures AddOnly(Next(s, step).log)
  {
    assert [step][0] == step;
  }

  /** Through the service the log contains nothing but Adds and Raft's own entries. */
  lemma {:induction false} RunStaysAddOnly(s: State, steps: seq<Step>)
    requires AddOnly(s.log) && ViaService(steps)
    ensures AddOnly(Run(s, steps).log)
  {
    if steps != [] {
      RunStaysAddOnly(s, steps[..|steps| - 1]);
      StepStaysAddOnly(Run(s, steps[..|steps| - 1]), steps[|steps| - 1]);
    }
  }

  lemma {:induction false} RunConcat(s: State, a: seq<Step>, b: seq<Step>)
    ensures Run(s, a + b) == Run(Run(s, a), b)
  {
    if b == [] {
      assert a + b == a;
    } else {
      assert (a + b)[..|a + b| - 1] == a + b[..|b| - 1];
      RunConcat(s, a, b[..|b| - 1]);
    }
  }

  /** The log and the results only grow. */
  lemma StepGrows(s: State, step: Step)
    ensures var t := Next(s, step);
            t.route == s.route && s.log <= t.log && s.gets <= t.gets
  {
  }

  lemma {:induction false} RunGrows(s: State, steps: seq<Step>)
    ensures var t := Run(s, steps);
            t.route == s.route && s.log <= t.log && s.gets <= t.gets
  {
    if steps != [] {
      RunGrows(s, steps[..|steps| - 1]);
      StepGrows(Run(s, steps[..|steps| - 1]), steps[|steps| - 1]);
    }
  }

  lemma FirstAddKept(log: seq<Command>, longer: seq<Command>, k: Bytes)
    requires log <= longer && FirstAdd(log, k).Some?
    ensures FirstAdd(longer, k) == FirstAdd(log, k)
  {
    FirstAddGrows(log, longer[|log|..], k);
    assert longer == log + longer[|log|..];
  }

  /** A key that has been added keeps its first value in every later state. */
  lemma FirstAddForEver(s: State, more: seq<Step>, k: Bytes)
    requires FirstAdd(s.log, k).Some?
    ensures FirstAdd(Run(s, more).log, k) == FirstAdd(s.log, k)
  {
    RunGrows(s, more);
    FirstAddKept(s.log, Run(s, more).log, k);
  }

  // ---- agreement ----

  /**
   In every run through the service, two Gets of a key that succeed, by any clients and at any
   times, return the same value: that of the first Add of the key in the committed log.
   */
  lemma SingleValueAgreement(route: Route, steps: seq<Step>, i: nat, j: nat)
    requires ViaService(steps)
    requires var gets := Run(Init(route), steps).gets;
             i < |gets| && j < |gets| && gets[i].key == gets[j].key &&
             gets[i].outcome.1.None? && gets[j].outcome.1.None?
    ensures var s := Run(Init(route), steps);
            s.gets[i].outcome.0 == s.gets[j].outcome.0 == FirstAdd(s.log, s.gets[i].key) &&
            s.gets[i].outcome.0.Some?
  {
    RunKeepsInv(Init(route), steps);
    RunStaysAddOnly(Init(route), steps);
    var s := Run(Init(route), steps);
    assert s.gets[i] in s.gets && s.gets[j] in s.gets;
    HeldIsFirstAdd(s.log, s.gets[i].key, s.gets[i].outcome.0.value);
    HeldIsFirstAdd(s.log, s.gets[i].key, s.gets[j].outcome.0.value);
  }

  /**
   No cache entry and no 200 in flight ever becomes wrong: what a cache holds under a key at one
   moment is what any cache holds or sends under it, and what any database sends when the cache's
   question reaches it, at every later moment.
   */
  lemma CachesStayCoherent(s: State, more: seq<Step>, c: Id, d: Id, key: Bytes, late: Body)
    requires Inv(s) && AddOnly(s.log) && ViaService(more) && (c, key) in s.caches
    requires var t := Run(s, more);
             ((d, key) in t.caches && t.caches[(d, key)] == late) || Sent(key, Found(late)) in t.cacheSent ||
             (s.route(key).About? && Sent(s.route(key).key, Found(late)) in t.dbSent)
    ensures s.caches[(c, key)] == late && s.route(key).About? && late.Doc? && late.key == s.route(key).key
    ensures late.value != [] && FirstAdd(Run(s, more).log, late.key) == Some(late.value)
  {
    RunKeepsInv(s, more);
    RunStaysAddOnly(s, more);
    RunGrows(s, more);
    var t, early := Run(s, more), s.caches[(c, key)];
    assert EntryRight(s.route, s.log, key, early);
    HeldGrows(s.log, t.log, early.key, early.value);
    HeldIsFirstAdd(t.log, early.key, early.value);
    if (d, key) in t.caches && t.caches[(d, key)] == late {
      assert EntryRight(t.route, t.log, key, t.caches[(d, key)]);
    } else if Sent(key, Found(late)) in t.cacheSent {
      assert CacheNoteRight(t.route, t.log, Sent(key, Found(late)));
    } else {
      assert DbNoteRight(t.log, Sent(s.route(key).key, Found(late)));
    }
    HeldIsFirstAdd(t.log, late.key, late.value);
  }

  // ---- where a not-found comes from ----

  /** A node that takes itself for the leader and does not hold a value of key: it answers 404. */
  predicate Lacks(node: Replica, key: Bytes) {
    node.believesLeader && key != [] && Lookup(node.m, key) in {None, Some([])}
  }

  /** Step n of the run is such a node's answer. */
  predicate MissedAt(s: State, steps: seq<Step>, n: nat, key: Bytes)
    requires n < |steps|
  {
    steps[n].DbAnswer? && steps[n].key == key && Lacks(ReplicaOf(Run(s, steps[..n]), steps[n].r), key)
  }

  /** Nothing has taken the answer of step n out of flight. */
  predicate StillPending(steps: seq<Step>, n: nat, key: Bytes)
    requires n < |steps|
  {
    forall k | n < k < |steps| :: steps[k] != DbReplyGone(Sent(key, Absent))
  }

  lemma NewAbsent(s: State, step: Step, key: Bytes)
    ensures Sent(key, Absent) in Next(s, step).dbSent <==>
            (Sent(key, Absent) in s.dbSent && step != DbReplyGone(Sent(key, Absent))) ||
            (step.DbAnswer? && step.key == key && Lacks(ReplicaOf(s, step.r), key))
  {
  }

  /** A database's 404 is in flight exactly when some step was a lacking node's answer and none since took it away. */
  lemma {:induction false} AbsentSentIff(route: Route, steps: seq<Step>, key: Bytes)
    ensures Sent(key, Absent) in Run(Init(route), steps).dbSent <==>
            exists n | 0 <= n < |steps| :: MissedAt(Init(route), steps, n, key) && StillPending(steps, n, key)
  {
    if steps != [] {
      var s, last := Init(route), |steps| - 1;
      var before := steps[..last];
      AbsentSentIff(route, before, key);
      NewAbsent(Run(s, before), steps[last], key);
      forall n | 0 <= n < last
        ensures MissedAt(s, steps, n, key) <==> MissedAt(s, before, n, key)
        ensures StillPending(steps, n, key) <==>
                StillPending(before, n, key) && steps[last] != DbReplyGone(Sent(key, Absent))
      {
        assert before[..n] == steps[..n];
      }
      assert StillPending(steps, last, key);
      assert MissedAt(s, steps, last, key) <==>
             steps[last].DbAnswer? && steps[last].key == key && Lacks(ReplicaOf(Run(s, before), steps[last].r), key);
    }
  }

  /** Some step of the run was a lacking node's answer about the key. */
  ghost predicate IsMissed(route: Route, steps: seq<Step>, key: Bytes) {
    exists n | 0 <= n < |steps| :: MissedAt(Init(route), steps, n, key)
  }

  ghost function Missed(route: Route, steps: seq<Step>): iset<Bytes> {
    iset key | IsMissed(route, steps, key)
  }

  /** A question may have been answered with a 404. */
  ghost predicate MayBeMissing(asked: Target, missed: iset<Bytes>) {
    asked.NoHandler? || (asked.About? && asked.key in missed)
  }

  /** Every 404 in flight, and every not-found that caches gave, is about a key in missed, or met no handler. */
  ghost predicate Sourced(s: State, missed: iset<Bytes>) {
    && (forall d | d in s.dbSent :: d.note == Absent ==> d.key in missed)
    && (forall d | d in s.cacheSent :: d.note == Absent ==> MayBeMissing(s.route(d.key), missed))
    && (forall g | g in s.gets :: g.byCaches && g.outcome.1 == Some(NotFound) ==>
          MayBeMissing(Asked(s.route, g.key), missed))
  }

  /** A 404 can come back: it is in flight, or there is no handler. */
  predicate CanBeTold(asked: Target, sent: set<Sent>) {
    asked.NoHandler? || (asked.About? && Sent(asked.key, Absent) in sent)
  }

  lemma LoadWasTold(s: State, key: Bytes, load: Attempt)
    requires LoadPossible(s, key, load) && CacheNode.FetchData(load).1 == Some(NotFound)
    ensures CanBeTold(s.route(key), s.dbSent)
  {
    CacheNode.LoadIsAReply(load);
    var r :| r in load.Replies() && r.Missing();
    assert Genuine(s.dbSent, s.route(key), r);
  }

  lemma GetWasTold(s: State, step: Step)
    requires step.ClientGet? && GetPossible(s, step.key, step.fromCaches, step.fromDBs)
    requires Client.CachesDecide(step.key, step.requestTimeout, step.fromCaches)
    requires Client.Get(step.key, step.requestTimeout, step.fromCaches, step.fromDBs).1 == Some(NotFound)
    ensures CanBeTold(s.route(step.key), s.cacheSent)
  {
    Client.GetIsAReply(step.key, step.requestTimeout, step.fromCaches, step.fromDBs);
    var r :| r in step.fromCaches.Replies() && r.Missing();
    assert Genuine(s.cacheSent, s.route(step.key), r);
  }

  lemma SourcedLoad(s: State, missed: iset<Bytes>, step: Step)
    requires Sourced(s, missed) && step.CacheLoad?
    ensures Sourced(Next(s, step), missed)
  {
    if LoadPossible(s, step.key, step.load) && CacheNode.FetchData(step.load).1 == Some(NotFound) {
      LoadWasTold(s, step.key, step.load);
    }
  }

  lemma SourcedGet(s: State, missed: iset<Bytes>, step: Step)
    requires Sourced(s, missed) && step.ClientGet?
    ensures Sourced(Next(s, step), missed)
  {
    if GetPossible(s, step.key, step.fromCaches, step.fromDBs) &&
       Client.CachesDecide(step.key, step.requestTimeout, step.fromCaches) &&
       Client.Get(step.key, step.requestTimeout, step.fromCaches, step.fromDBs).1 == Some(NotFound) {
      GetWasTold(s, step);
    }
  }

  lemma SourcedStep(s: State, missed: iset<Bytes>, step: Step)
    requires Sourced(s, missed)
    requires step.DbAnswer? && Lacks(ReplicaOf(s, step.r), step.key) ==> step.key in missed
    ensures Sourced(Next(s, step), missed)
  {
    match step
    case CacheLoad(_, _, _) => SourcedLoad(s, missed, step);
    case ClientGet(_, _, _, _) => SourcedGet(s, missed, step);
    case _ =>
  }

  lemma {:induction false} RunIsSourced(route: Route, steps: seq<Step>)
    ensures Sourced(Run(Init(route), steps), Missed(route, steps))
  {
    if steps != [] {
      var last := |steps| - 1;
      var before := steps[..last];
      RunIsSourced(route, before);
      forall key | key in Missed(route, before) ensures key in Missed(route, steps) {
        var n :| 0 <= n < last && MissedAt(Init(route), before, n, key);
        assert before[..n] == steps[..n];
        assert MissedAt(Init(route), steps, n, key);
      }
      var s, step := Run(Init(route), before), steps[last];
      if step.DbAnswer? && Lacks(ReplicaOf(s, step.r), step.key) {
        assert MissedAt(Init(route), steps, last, step.key);
      }
      SourcedStep(s, Missed(route, steps), step);
    }
  }

  /**
   In every run, a Get that the caches answer with not-found goes back to a database node that, when
   it answered at an earlier step, took itself for the leader and had applied a prefix of the log
   after which the key has no value, or the empty one; unless a URL of the key reaches no handler.
   */
  lemma NotFoundHasASource(route: Route, steps: seq<Step>, i: nat)
    requires var gets := Run(Init(route), steps).gets;
             i < |gets| && gets[i].byCaches && gets[i].outcome.1 == Some(NotFound)
    ensures var asked := Asked(route, Run(Init(route), steps).gets[i].key);
            asked.NoHandler? ||
            (asked.About? &&
             exists n | 0 <= n < |steps| && MissedAt(Init(route), steps, n, asked.key) ::
               LackingPrefix(Run(Init(route), steps[..n]), steps[n].r, asked.key))
  {
    RunIsSourced(route, steps);
    var s := Run(Init(route), steps);
    var g := s.gets[i];
    RunGrows(Init(route), steps);
    assert g in s.gets;
    var asked := Asked(route, g.key);
    if asked.About? {
      assert IsMissed(route, steps, asked.key);
      var n :| 0 <= n < |steps| && MissedAt(Init(route), steps, n, asked.key);
      RunKeepsInv(Init(route), steps[..n]);
      LacksOnPrefix(Run(Init(route), steps[..n]), steps[n].r, asked.key);
    }
  }

  /** What the node has applied is a prefix of the log; through the service it holds no first Add, or an empty one. */
  ghost predicate LackingPrefix(s: State, r: Id, key: Bytes) {
    var n := ReplicaOf(s, r).applied;
    && n <= |s.log| && Lookup(Replay.Run(s.log[..n], map[]), key) in {None, Some([])}
    && (AddOnly(s.log) ==> FirstAdd(s.log[..n], key) in {None, Some([])})
  }

  lemma LacksOnPrefix(s: State, r: Id, key: Bytes)
    requires Inv(s) && Lacks(ReplicaOf(s, r), key)
    ensures LackingPrefix(s, r, key)
  {
    ReplicaPrefix(s, r);
    if AddOnly(s.log) { AddOnlyValue(s.log[..ReplicaOf(s, r).applied], key); }
  }

  /**
   A node that takes itself for the leader and has applied n entries misses a key that a caught-up
   node would serve exactly when the key's first Add carries a value and is among those it has not applied.
   */
  lemma StaleNotFoundIff(log: seq<Command>, n: nat, key: Bytes, a: int)
    requires AddOnly(log) && n <= |log| && key != [] && FirstAddAfter(log, key, -1, a)
    ensures HandleGet(true, key, Replay.Run(log[..n], map[]), 0).Missing() &&
            HandleGet(true, key, Replay.Run(log, map[]), 0).Ok()
            <==> n <= a < |log| && log[a].value != []
  {
    assert AddOnly(log[..n]);
    AddOnlyValue(log, key);
    AddOnlyValue(log[..n], key);
    FirstAddIsFirst(log, key, a);
    var b := if a < n then a else n;
    assert FirstAddAfter(log[..n], key, -1, b);
    FirstAddIsFirst(log[..n], key, b);
  }
}
