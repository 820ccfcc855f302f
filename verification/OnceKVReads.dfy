/** What the reads of a key can come to from a given state of the store, when nothing else happens. */
module OnceKVReads {
  import opened Wrappers
  import Replay
  import opened Race
  import opened Wire
  import opened OnceKV
  import opened OnceKVRuns
  import CacheNode
  import Client

  // ---- what can be missed ----

  /** Steps of reading: nothing is committed and no replica changes. */
  predicate Reads(step: Step) {
    !step.Commit? && !step.ApplyNext? && !step.TakeSnapshot? && !step.InstallSnapshot? && !step.Restart? &&
    !step.Believe?
  }

  predicate ReadsOnly(steps: seq<Step>) {
    forall n | 0 <= n < |steps| :: Reads(steps[n])
  }

  /** Reading on from s, a Get of k comes back from the caches with not-found. */
  ghost predicate CanMiss(s: State, k: Bytes) {
    exists more :: ReadsOnly(more) && EndsInMiss(s, Run(s, more), k)
  }

  predicate IsMiss(g: Got, k: Bytes) {
    g.key == k && g.byCaches && g.outcome.1 == Some(NotFound)
  }

  predicate EndsInMiss(s: State, t: State, k: Bytes) {
    |s.gets| < |t.gets| && IsMiss(t.gets[|t.gets| - 1], k)
  }

  /**
   A question that meets no handler, or a 404 about it that is in flight from the caches, or from
   the databases to the caches, or a database node that would send one now.
   */
  ghost predicate MissAhead(s: State, k: Bytes) {
    || CanBeTold(s.route(k), s.cacheSent)
    || (s.route(k).About? &&
        (CanBeTold(Asked(s.route, k), s.dbSent) ||
         (Asked(s.route, k).About? && SomeLacks(s, Asked(s.route, k).key))))
  }

  ghost predicate SomeLacks(s: State, key: Bytes) {
    exists r :: Lacks(ReplicaOf(s, r), key)
  }

  lemma SameReplicasLack(s: State, t: State)
    requires t.replicas == s.replicas
    ensures forall key :: SomeLacks(t, key) <==> SomeLacks(s, key)
  {
    forall r ensures ReplicaOf(t, r) == ReplicaOf(s, r) {}
    forall key | SomeLacks(t, key) ensures SomeLacks(s, key) {
      var r :| Lacks(ReplicaOf(t, r), key);
      assert Lacks(ReplicaOf(s, r), key);
    }
    forall key | SomeLacks(s, key) ensures SomeLacks(t, key) {
      var r :| Lacks(ReplicaOf(s, r), key);
      assert Lacks(ReplicaOf(t, r), key);
    }
  }

  lemma MissFromCache(s: State, k: Bytes)
    requires CanBeTold(s.route(k), s.cacheSent)
    ensures CanMiss(s, k)
  {
    var get := AskCache(k, MISSING);
    CacheMisses(s, k);
    RunOne(s, get);
    assert ReadsOnly([get]) && EndsInMiss(s, Run(s, [get]), k);
  }

  lemma MissFromDb(s: State, k: Bytes)
    requires s.route(k).About? && CanBeTold(Asked(s.route, k), s.dbSent)
    ensures CanMiss(s, k)
  {
    var load := CacheLoad(0, s.route(k).key, Only(MISSING));
    LoadMisses(s, s.route(k).key);
    MissAfter(s, load, k);
  }

  lemma MissAfter(s: State, step: Step, k: Bytes)
    requires Reads(step) && Next(s, step).gets == s.gets && Next(s, step).route == s.route
    requires CanBeTold(s.route(k), Next(s, step).cacheSent) || CanMiss(Next(s, step), k)
    ensures CanMiss(s, k)
  {
    var t := Next(s, step);
    if CanBeTold(s.route(k), t.cacheSent) { MissFromCache(t, k); }
    var more :| ReadsOnly(more) && EndsInMiss(t, Run(t, more), k);
    RunOne(s, step);
    RunConcat(s, [step], more);
    assert ReadsOnly([step] + more) && EndsInMiss(s, Run(s, [step] + more), k);
  }

  lemma AnswersAbsent(s: State, r: Id, key: Bytes)
    requires Lacks(ReplicaOf(s, r), key)
    ensures Next(s, DbAnswer(r, key)) == s.(dbSent := s.dbSent + {Sent(key, Absent)})
  {
  }

  lemma MissFromNode(s: State, r: Id, k: Bytes)
    requires s.route(k).About? && Asked(s.route, k).About? && Lacks(ReplicaOf(s, r), Asked(s.route, k).key)
    ensures CanMiss(s, k)
  {
    var answer := DbAnswer(r, Asked(s.route, k).key);
    AnswersAbsent(s, r, Asked(s.route, k).key);
    MissFromDb(Next(s, answer), k);
    MissAfter(s, answer, k);
  }

  lemma NoMissFromLoad(s: State, step: Step, k: Bytes)
    requires step.CacheLoad? && !MissAhead(s, k)
    ensures !MissAhead(Next(s, step), k)
  {
    SameReplicasLack(s, Next(s, step));
    if LoadPossible(s, step.key, step.load) && CacheNode.FetchData(step.load).1 == Some(NotFound) {
      LoadWasTold(s, step.key, step.load);
    }
  }

  lemma NoMissFromGet(s: State, step: Step, k: Bytes)
    requires step.ClientGet? && !MissAhead(s, k)
    ensures var t := Next(s, step);
            t == s ||
            (t == s.(gets := t.gets) && |t.gets| == |s.gets| + 1 && s.gets <= t.gets && !IsMiss(t.gets[|s.gets|], k))
  {
    if GetPossible(s, step.key, step.fromCaches, step.fromDBs) &&
       Client.CachesDecide(step.key, step.requestTimeout, step.fromCaches) &&
       Client.Get(step.key, step.requestTimeout, step.fromCaches, step.fromDBs).1 == Some(NotFound) {
      GetWasTold(s, step);
    }
  }

  /** Without a miss ahead, no read makes one, and no Get of k misses. */
  lemma NoMissStep(s: State, step: Step, k: Bytes)
    requires Reads(step) && !MissAhead(s, k)
    ensures !MissAhead(Next(s, step), k)
    ensures |s.gets| < |Next(s, step).gets| ==> !IsMiss(Next(s, step).gets[|Next(s, step).gets| - 1], k)
    ensures s.gets <= Next(s, step).gets
  {
    SameReplicasLack(s, Next(s, step));
    match step
    case CacheLoad(_, _, _) => NoMissFromLoad(s, step, k);
    case ClientGet(_, _, _, _) => NoMissFromGet(s, step, k);
    case DbAnswer(r, key) => assert Lacks(ReplicaOf(s, r), key) ==> SomeLacks(s, key);
    case _ =>
  }

  lemma {:induction false} NoMissRun(s: State, more: seq<Step>, k: Bytes)
    requires ReadsOnly(more) && !MissAhead(s, k)
    ensures !MissAhead(Run(s, more), k) && !EndsInMiss(s, Run(s, more), k)
  {
    if more != [] {
      var before, step := more[..|more| - 1], more[|more| - 1];
      NoMissRun(s, before, k);
      RunGrows(s, before);
      NoMissStep(Run(s, before), step, k);
    }
  }

  /**
   In every state, a Get of k can come back from the caches with not-found, without anything else
   happening than reads, if and only if a URL of k meets no handler, or a 404 about it is now in
   flight, or some database node that takes itself for the leader now lacks the key.
   */
  lemma NotFoundIff(s: State, k: Bytes)
    ensures CanMiss(s, k) <==> MissAhead(s, k)
  {
    if CanBeTold(s.route(k), s.cacheSent) {
      MissFromCache(s, k);
    } else if s.route(k).About? && CanBeTold(Asked(s.route, k), s.dbSent) {
      MissFromDb(s, k);
    } else if MissAhead(s, k) {
      var r :| Lacks(ReplicaOf(s, r), Asked(s.route, k).key);
      MissFromNode(s, r, k);
    } else {
      forall more | ReadsOnly(more) ensures !EndsInMiss(s, Run(s, more), k) { NoMissRun(s, more, k); }
    }
  }

  // ---- what can be found ----

  /** Reading on from s, a Get of k comes back from the caches with v. */
  ghost predicate CanFind(s: State, k: Bytes, v: Bytes) {
    exists more :: ReadsOnly(more) && EndsInFind(s, Run(s, more), k, v)
  }

  predicate IsFind(g: Got, k: Bytes, v: Bytes) {
    g.key == k && g.byCaches && g.outcome == (Some(v), None)
  }

  predicate EndsInFind(s: State, t: State, k: Bytes, v: Bytes) {
    |s.gets| < |t.gets| && IsFind(t.gets[|t.gets| - 1], k, v)
  }

  /** Some cache keeps the document under the key that it is asked about. */
  ghost predicate SomeKeeps(s: State, key: Bytes, body: Body) {
    exists c: Id :: (c, key) in s.caches && s.caches[(c, key)] == body
  }

  /** A node that takes itself for the leader holds the value. */
  ghost predicate SomeServes(s: State, k: Bytes, v: Bytes) {
    exists r :: Serves(ReplicaOf(s, r), k, v)
  }

  predicate Serves(node: Replica, k: Bytes, v: Bytes) {
    node.believesLeader && k != [] && v != [] && Lookup(node.m, k) == Some(v)
  }

  /** Where the document can come from: a reply or an entry of a cache, a reply of a database, or a node. */
  ghost predicate FindAhead(s: State, k: Bytes, v: Bytes) {
    v != [] && s.route(k).About? &&
    (|| Sent(s.route(k).key, Found(Doc(k, v))) in s.cacheSent
     || SomeKeeps(s, s.route(k).key, Doc(k, v))
     || (Asked(s.route, k).About? && Sent(Asked(s.route, k).key, Found(Doc(k, v))) in s.dbSent)
     || (Asked(s.route, k) == About(k) && SomeServes(s, k, v)))
  }

  lemma FindFromReply(s: State, k: Bytes, v: Bytes)
    requires v != [] && s.route(k).About? && Sent(s.route(k).key, Found(Doc(k, v))) in s.cacheSent
    ensures CanFind(s, k, v)
  {
    var get := AskCache(k, Value(Doc(k, v)));
    CacheTells(s, k, v);
    RunOne(s, get);
    assert ReadsOnly([get]) && EndsInFind(s, Run(s, [get]), k, v);
  }

  lemma FindAfter(s: State, step: Step, k: Bytes, v: Bytes)
    requires Reads(step) && Next(s, step).gets == s.gets && CanFind(Next(s, step), k, v)
    ensures CanFind(s, k, v)
  {
    var t := Next(s, step);
    var more :| ReadsOnly(more) && EndsInFind(t, Run(t, more), k, v);
    RunOne(s, step);
    RunConcat(s, [step], more);
    assert ReadsOnly([step] + more) && EndsInFind(s, Run(s, [step] + more), k, v);
  }

  lemma CacheServes(s: State, c: Id, key: Bytes)
    requires (c, key) in s.caches
    ensures Next(s, CacheHit(c, key)) == s.(cacheSent := s.cacheSent + {Sent(key, Found(s.caches[(c, key)]))})
  {
  }

  lemma FindFromCache(s: State, k: Bytes, v: Bytes)
    requires v != [] && s.route(k).About? && SomeKeeps(s, s.route(k).key, Doc(k, v))
    ensures CanFind(s, k, v)
  {
    var key := s.route(k).key;
    var c: Id :| (c, key) in s.caches && s.caches[(c, key)] == Doc(k, v);
    CacheServes(s, c, key);
    FindFromReply(Next(s, CacheHit(c, key)), k, v);
    FindAfter(s, CacheHit(c, key), k, v);
  }

  lemma FindFromDb(s: State, k: Bytes, v: Bytes)
    requires v != [] && s.route(k).About? && Asked(s.route, k).About?
    requires Sent(Asked(s.route, k).key, Found(Doc(k, v))) in s.dbSent
    ensures CanFind(s, k, v)
  {
    var load := CacheLoad(0, s.route(k).key, Only(Value(Doc(k, v))));
    LoadFinds(s, s.route(k).key, Doc(k, v));
    FindFromReply(Next(s, load), k, v);
    FindAfter(s, load, k, v);
  }

  lemma AnswersFound(s: State, r: Id, k: Bytes, v: Bytes)
    requires Serves(ReplicaOf(s, r), k, v)
    ensures Next(s, DbAnswer(r, k)) == s.(dbSent := s.dbSent + {Sent(k, Found(Doc(k, v)))})
  {
  }

  lemma FindFromNode(s: State, k: Bytes, v: Bytes)
    requires s.route(k).About? && Asked(s.route, k) == About(k) && SomeServes(s, k, v)
    ensures CanFind(s, k, v)
  {
    var r :| Serves(ReplicaOf(s, r), k, v);
    AnswersFound(s, r, k, v);
    FindFromDb(Next(s, DbAnswer(r, k)), k, v);
    FindAfter(s, DbAnswer(r, k), k, v);
  }

  lemma SameReplicasServe(s: State, t: State)
    requires t.replicas == s.replicas
    ensures forall k, v :: SomeServes(t, k, v) <==> SomeServes(s, k, v)
  {
    forall r ensures ReplicaOf(t, r) == ReplicaOf(s, r) {}
    forall k, v | SomeServes(t, k, v) ensures SomeServes(s, k, v) {
      var r :| Serves(ReplicaOf(t, r), k, v);
      assert Serves(ReplicaOf(s, r), k, v);
    }
    forall k, v | SomeServes(s, k, v) ensures SomeServes(t, k, v) {
      var r :| Serves(ReplicaOf(s, r), k, v);
      assert Serves(ReplicaOf(t, r), k, v);
    }
  }

  /** A load that delivers a body received it from a database. */
  lemma LoadWasGiven(s: State, key: Bytes, load: Attempt)
    requires LoadPossible(s, key, load) && CacheNode.FetchData(load).0.Some?
    ensures s.route(key).About? && Sent(s.route(key).key, Found(CacheNode.FetchData(load).0.value)) in s.dbSent
  {
    CacheNode.LoadIsAReply(load);
    var r :| r in load.Replies() && r.Ok() && CacheNode.FetchData(load).0 == Some(r.body);
    assert Genuine(s.dbSent, s.route(key), r);
  }

  lemma NoFindFromLoad(s: State, step: Step, k: Bytes, v: Bytes)
    requires step.CacheLoad? && !FindAhead(s, k, v)
    ensures !FindAhead(Next(s, step), k, v)
  {
    SameReplicasServe(s, Next(s, step));
    if LoadPossible(s, step.key, step.load) && CacheNode.FetchData(step.load).0.Some? {
      LoadWasGiven(s, step.key, step.load);
    }
  }

  lemma NoFindFromGet(s: State, step: Step, k: Bytes, v: Bytes)
    requires step.ClientGet? && !FindAhead(s, k, v)
    ensures var t := Next(s, step);
            t == s ||
            (t == s.(gets := t.gets) && |t.gets| == |s.gets| + 1 && s.gets <= t.gets && !IsFind(t.gets[|s.gets|], k, v))
  {
    if GetPossible(s, step.key, step.fromCaches, step.fromDBs) &&
       Client.CachesDecide(step.key, step.requestTimeout, step.fromCaches) {
      GetWasGiven(s, step);
    }
  }

  lemma GetWasGiven(s: State, step: Step)
    requires step.ClientGet? && GetPossible(s, step.key, step.fromCaches, step.fromDBs)
    requires Client.CachesDecide(step.key, step.requestTimeout, step.fromCaches)
    ensures var outcome := Client.Get(step.key, step.requestTimeout, step.fromCaches, step.fromDBs);
            outcome.0.Some? ==>
              outcome.0.value != [] && s.route(step.key).About? &&
              Sent(s.route(step.key).key, Found(Doc(step.key, outcome.0.value))) in s.cacheSent
  {
    Client.GetIsAReply(step.key, step.requestTimeout, step.fromCaches, step.fromDBs);
    var outcome := Client.Get(step.key, step.requestTimeout, step.fromCaches, step.fromDBs);
    if outcome.0.Some? {
      var r :| r in step.fromCaches.Replies() && r.Ok() && r.body == Doc(step.key, outcome.0.value);
      assert Genuine(s.cacheSent, s.route(step.key), r);
    }
  }

  lemma NoFindFromAnswer(s: State, step: Step, k: Bytes, v: Bytes)
    requires step.DbAnswer? && !FindAhead(s, k, v)
    ensures !FindAhead(Next(s, step), k, v)
  {
    SameReplicasServe(s, Next(s, step));
    assert Serves(ReplicaOf(s, step.r), k, v) ==> SomeServes(s, k, v);
  }

  lemma NoFindFromCaches(s: State, step: Step, k: Bytes, v: Bytes)
    requires step.CacheHit? || step.PeerLoad? || step.Evict? || step.DbReplyGone? || step.CacheReplyGone?
    requires !FindAhead(s, k, v)
    ensures !FindAhead(Next(s, step), k, v) && Next(s, step).gets == s.gets
  {
    SameReplicasServe(s, Next(s, step));
    if v != [] && s.route(k).About? && step.CacheHit? && (step.c, step.key) in s.caches {
      assert s.caches[(step.c, step.key)] == Doc(k, v) ==> SomeKeeps(s, step.key, Doc(k, v));
    }
  }

  /** With nowhere for it to come from, no read makes it come, and no Get of k finds it. */
  lemma NoFindStep(s: State, step: Step, k: Bytes, v: Bytes)
    requires Reads(step) && !FindAhead(s, k, v)
    ensures !FindAhead(Next(s, step), k, v)
    ensures |s.gets| < |Next(s, step).gets| ==> !IsFind(Next(s, step).gets[|Next(s, step).gets| - 1], k, v)
    ensures s.gets <= Next(s, step).gets
  {
    match step
    case CacheLoad(_, _, _) => NoFindFromLoad(s, step, k, v);
    case ClientGet(_, _, _, _) =>
      NoFindFromGet(s, step, k, v);
      SameReplicasServe(s, Next(s, step));
    case DbAnswer(_, _) => NoFindFromAnswer(s, step, k, v);
    case _ => NoFindFromCaches(s, step, k, v);
  }

  lemma {:induction false} NoFindRun(s: State, more: seq<Step>, k: Bytes, v: Bytes)
    requires ReadsOnly(more) && !FindAhead(s, k, v)
    ensures !FindAhead(Run(s, more), k, v) && !EndsInFind(s, Run(s, more), k, v)
  {
    if more != [] {
      var before, step := more[..|more| - 1], more[|more| - 1];
      NoFindRun(s, before, k, v);
      RunGrows(s, before);
      NoFindStep(Run(s, before), step, k, v);
    }
  }

  /**
   In every state, a Get of k can come back from the caches with v, without anything else happening
   than reads, if and only if v is not empty, a question about k reaches a handler of the caches, and
   the document of k and v is now in flight from the caches, or kept by one, or in flight from the
   databases to them, or held by a database node that takes itself for the leader and is asked about k.
   */
  lemma FoundIff(s: State, k: Bytes, v: Bytes)
    ensures CanFind(s, k, v) <==> FindAhead(s, k, v)
  {
    if FindAhead(s, k, v) {
      if Sent(s.route(k).key, Found(Doc(k, v))) in s.cacheSent {
        FindFromReply(s, k, v);
      } else if SomeKeeps(s, s.route(k).key, Doc(k, v)) {
        FindFromCache(s, k, v);
      } else if Asked(s.route, k).About? && Sent(Asked(s.route, k).key, Found(Doc(k, v))) in s.dbSent {
        FindFromDb(s, k, v);
      } else {
        FindFromNode(s, k, v);
      }
    } else {
      forall more | ReadsOnly(more) ensures !EndsInFind(s, Run(s, more), k, v) { NoFindRun(s, more, k, v); }
    }
  }

  lemma FirstAddHeld(k: Bytes, v: Bytes)
    ensures Replay.AddOnly([Replay.Add(k, v)]) && Replay.FirstAdd([Replay.Add(k, v)], k) == Some(v)
  {
  }

  /**
   A client can be told that a key is missing after it, or anyone, has read its value, once a node
   that has applied nothing takes itself for the leader.
   */
  lemma {:induction false} NotFoundAfterFound(route: Route, k: Bytes, v: Bytes)
    requires k != [] && v != [] && Asked(route, k) == About(k)
    ensures exists steps :: ViaService(steps) && HasRead(Run(Init(route), steps), k, v) &&
                            CanMiss(Run(Init(route), steps), k)
  {
    FirstAddHeld(k, v);
    CanReturnIff(route, [Replay.Add(k, v)], k, v);
    var read :| ViaService(read) && HasRead(Run(Init(route), read), k, v);
    var s, lag := Run(Init(route), read), [Restart(1), Believe(1, true)];
    RunGrows(Init(route), read);
    LagsBehind(s, k);
    RunConcat(Init(route), read, lag);
    assert ViaService(read + lag);
  }

  /** Node 1 restarts and takes itself for the leader. */
  lemma LagsBehind(s: State, k: Bytes)
    requires k != [] && s.route(k).About? && Asked(s.route, k) == About(k)
    ensures var t := Run(s, [Restart(1), Believe(1, true)]); t.gets == s.gets && CanMiss(t, k)
  {
    RunTwo(s, Restart(1), Believe(1, true));
    MissFromNode(Next(Next(s, Restart(1)), Believe(1, true)), 1, k);
  }
}
