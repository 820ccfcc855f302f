/** Runs of the store that reach a given read: what can still be read, and when all reads of a key agree. */
module OnceKVRuns {
  import opened Wrappers
  import ByteOrder
  import Replay
  import opened Race
  import opened Wire
  import opened OnceKV

  type Bytes = ByteOrder.Bytes

  lemma RunOne(s: State, a: Step)
    ensures Run(s, [a]) == Next(s, a)
  {
    assert [a][..0] == [];
  }

  lemma RunTwo(s: State, a: Step, b: Step)
    ensures Run(s, [a, b]) == Next(Next(s, a), b)
  {
    assert [a, b][..1] == [a];
    RunOne(s, a);
  }

  // ---- single read ----

  function Only(reply: Reply): Attempt {
    Attempt(Some(reply), 0, [], false)
  }

  const NOBODY: Attempt := Attempt(None, 0, [], false)

  /** The remembered cache replies; there are no databases. */
  function AskCache(key: Bytes, reply: Reply): Step {
    ClientGet(key, 1, Only(reply), NOBODY)
  }

  function Value(body: Body): Reply { Response(OK, body, 0) }

  const MISSING: Reply := Response(NOT_FOUND, NoBytes, 0)

  lemma OnlyReplies(reply: Reply)
    ensures Only(reply).Replies() == [reply] && NOBODY.Replies() == []
  {
  }

  lemma CacheTells(s: State, k: Bytes, v: Bytes)
    requires v != [] && s.route(k).About? && Sent(s.route(k).key, Found(Doc(k, v))) in s.cacheSent
    ensures Next(s, AskCache(k, Value(Doc(k, v)))) == s.(gets := s.gets + [Got(k, (Some(v), None), true)])
  {
    OnlyReplies(Value(Doc(k, v)));
  }

  lemma CacheMisses(s: State, k: Bytes)
    requires CanBeTold(s.route(k), s.cacheSent)
    ensures Next(s, AskCache(k, MISSING)) == s.(gets := s.gets + [Got(k, (None, Some(NotFound)), true)])
  {
    OnlyReplies(MISSING);
  }

  lemma LoadFinds(s: State, key: Bytes, body: Body)
    requires body != NoBytes && s.route(key).About? && Sent(s.route(key).key, Found(body)) in s.dbSent
    ensures Next(s, CacheLoad(0, key, Only(Value(body)))) ==
            s.(caches := s.caches[(0, key) := body], cacheSent := s.cacheSent + {Sent(key, Found(body))})
  {
    OnlyReplies(Value(body));
  }

  lemma LoadMisses(s: State, key: Bytes)
    requires CanBeTold(s.route(key), s.dbSent)
    ensures Next(s, CacheLoad(0, key, Only(MISSING))) == s.(cacheSent := s.cacheSent + {Sent(key, Absent)})
  {
    OnlyReplies(MISSING);
  }

  /** From a database's 200 in flight to a client, through a cache. */
  lemma ReadThrough(s: State, k: Bytes, v: Bytes) returns (more: seq<Step>)
    requires v != [] && Asked(s.route, k) == About(k) && Sent(k, Found(Doc(k, v))) in s.dbSent
    ensures NoCommit(more) && ReadsNow(s, Run(s, more), k, v)
  {
    var c := s.route(k).key;
    var load, get := CacheLoad(0, c, Only(Value(Doc(k, v)))), AskCache(k, Value(Doc(k, v)));
    LoadFinds(s, c, Doc(k, v));
    CacheTells(Next(s, load), k, v);
    more := [load, get];
    RunTwo(s, load, get);
  }

  // ---- what can still be read ----

  function Applied(log: seq<Replay.Command>, n: nat): Replica
    requires n <= |log|
  {
    Replica(n, Replay.Run(log[..n], map[]), false)
  }

  /** A node that has restarted can always catch up, one entry at a time. */
  lemma {:induction false} CatchesUp(s: State, n: nat)
    requires 0 in s.replicas && s.replicas[0] == Replica(0, map[], false) && n <= |s.log|
    ensures Run(s, seq(n, _ => ApplyNext(0))) == s.(replicas := s.replicas[0 := Applied(s.log, n)])
  {
    if n == 0 {
      assert seq(0, _ => ApplyNext(0)) == [];
      assert s.log[..0] == [];
      assert s.replicas[0 := s.replicas[0]] == s.replicas;
    } else {
      CatchesUp(s, n - 1);
      assert seq(n, _ => ApplyNext(0))[..n - 1] == seq(n - 1, _ => ApplyNext(0));
      assert s.log[..n][..n - 1] == s.log[..n - 1];
      ApplyOne(s, n - 1);
    }
  }

  lemma ApplyOne(s: State, n: nat)
    requires n < |s.log|
    ensures Next(s.(replicas := s.replicas[0 := Applied(s.log, n)]), ApplyNext(0)) ==
            s.(replicas := s.replicas[0 := Applied(s.log, n + 1)])
  {
    assert s.log[..n + 1][..n] == s.log[..n];
    assert s.replicas[0 := Applied(s.log, n)][0 := Applied(s.log, n + 1)] == s.replicas[0 := Applied(s.log, n + 1)];
  }

  lemma Restarts(s: State)
    ensures Run(s, [Restart(0)]) == s.(replicas := s.replicas[0 := Replica(0, map[], false)])
  {
    RunOne(s, Restart(0));
  }

  /** Node 0 restarts and applies n entries. */
  lemma RestartsAndApplies(s: State, n: nat) returns (more: seq<Step>)
    requires n <= |s.log|
    ensures NoCommit(more)
    ensures Run(s, more) == s.(replicas := s.replicas[0 := Applied(s.log, n)])
  {
    var apply: seq<Step> := seq(n, _ => ApplyNext(0));
    var blank := s.(replicas := s.replicas[0 := Replica(0, map[], false)]);
    Restarts(s);
    CatchesUp(blank, n);
    RunConcat(s, [Restart(0)], apply);
    more := [Restart(0)] + apply;
    assert blank.replicas[0 := Applied(s.log, n)] == s.replicas[0 := Applied(s.log, n)];
  }

  predicate NoCommit(steps: seq<Step>) {
    forall n | 0 <= n < |steps| :: !steps[n].Commit?
  }

  lemma LeaderAnswers(s: State, k: Bytes, v: Bytes)
    requires 0 in s.replicas && Lookup(s.replicas[0].m, k) == Some(v) && k != [] && v != []
    ensures Answering(s, k, v, Run(s, [Believe(0, true), DbAnswer(0, k)]))
  {
    var leader := Next(s, Believe(0, true));
    assert HandleGet(true, k, leader.replicas[0].m, 0) == Value(Doc(k, v));
    RunTwo(s, Believe(0, true), DbAnswer(0, k));
  }

  /** t is s after node 0 took itself for the leader and sent the value of k. */
  ghost predicate Answering(s: State, k: Bytes, v: Bytes, t: State)
    requires 0 in s.replicas
  {
    && t.route == s.route && t.log == s.log && t.gets == s.gets && t.cacheSent == s.cacheSent
    && t.replicas == s.replicas[0 := s.replicas[0].(believesLeader := true)]
    && Sent(k, Found(Doc(k, v))) in t.dbSent
  }

  ghost predicate ServesNow(s: State, t: State, k: Bytes, v: Bytes) {
    t.route == s.route && t.log == s.log && t.gets == s.gets && Sent(k, Found(Doc(k, v))) in t.dbSent
  }

  ghost predicate ReadsNow(s: State, t: State, k: Bytes, v: Bytes) {
    t.route == s.route && t.log == s.log && t.gets == s.gets + [Got(k, (Some(v), None), true)]
  }

  /** Node 0 restarts, applies n entries, takes itself for the leader and answers about k. */
  lemma Answers(s: State, n: nat, k: Bytes, v: Bytes) returns (more: seq<Step>)
    requires n <= |s.log| && Lookup(Replay.Run(s.log[..n], map[]), k) == Some(v) && k != [] && v != []
    ensures NoCommit(more) && ServesNow(s, Run(s, more), k, v)
  {
    var apply := RestartsAndApplies(s, n);
    var answer: seq<Step> := [Believe(0, true), DbAnswer(0, k)];
    LeaderAnswers(Run(s, apply), k, v);
    more := apply + answer;
    RunConcat(s, apply, answer);
  }

  lemma AnswersHeld(s: State, k: Bytes, v: Bytes) returns (more: seq<Step>)
    requires Held(s.log, k, v) && k != [] && v != []
    ensures NoCommit(more) && ServesNow(s, Run(s, more), k, v)
  {
    var n :| 0 <= n <= |s.log| && Lookup(Replay.Run(s.log[..n], map[]), k) == Some(v);
    more := Answers(s, n, k, v);
  }

  /** Whatever k once held can still be read, from a node that is behind. */
  lemma ReadsHeld(s: State, k: Bytes, v: Bytes) returns (more: seq<Step>)
    requires Held(s.log, k, v) && k != [] && v != [] && Asked(s.route, k) == About(k)
    ensures NoCommit(more) && ReadsNow(s, Run(s, more), k, v)
  {
    var answers := AnswersHeld(s, k, v);
    var t := Run(s, answers);
    var read := ReadThrough(t, k, v);
    more := answers + read;
    RunConcat(s, answers, read);
  }

  /** Some Get of k has returned v. */
  ghost predicate HasRead(s: State, k: Bytes, v: Bytes) {
    exists g | g in s.gets :: g.key == k && g.outcome.1.None? && g.outcome.0 == Some(v)
  }

  lemma ReadNeeds(s: State, k: Bytes, v: Bytes)
    requires Inv(s) && HasRead(s, k, v)
    ensures k != [] && v != [] && Asked(s.route, k) == About(k) && Held(s.log, k, v)
  {
    var g :| g in s.gets && g.key == k && g.outcome.1.None? && g.outcome.0 == Some(v);
    assert GotRight(s.route, s.log, g);
  }

  /** Some Get of k has succeeded. */
  ghost predicate IsRead(s: State, k: Bytes) {
    exists v :: HasRead(s, k, v)
  }

  lemma IsReadWhen(s: State, g: Got)
    requires g in s.gets && g.outcome.1.None? && g.outcome.0.Some?
    ensures HasRead(s, g.key, g.outcome.0.value)
  {
  }

  /**
   From every state of a run through the service, a committed key can still be read in some
   continuation if and only if neither it nor its first value is empty and a question about it
   reaches the databases as a question about it. A key first added with the empty value, and the
   empty key, are taken and never readable.
   */
  lemma ReadableIff(route: Route, steps: seq<Step>, k: Bytes, v: Bytes)
    requires ViaService(steps) && Replay.FirstAdd(Run(Init(route), steps).log, k) == Some(v)
    ensures (exists more :: ViaService(more) && IsRead(Run(Run(Init(route), steps), more), k)) <==>
            k != [] && v != [] && Asked(route, k) == About(k)
  {
    var s := Run(Init(route), steps);
    RunKeepsInv(Init(route), steps);
    RunStaysAddOnly(Init(route), steps);
    RunGrows(Init(route), steps);
    HeldIsFirstAdd(s.log, k, v);
    if k != [] && v != [] && Asked(route, k) == About(k) {
      var more := ReadsHeld(s, k, v);
      var t := Run(s, more);
      IsReadWhen(t, t.gets[|t.gets| - 1]);
      assert ViaService(more) && IsRead(t, k);
    } else {
      forall more: seq<Step> | ViaService(more) ensures !IsRead(Run(s, more), k) {
        if w :| HasRead(Run(s, more), k, w) { OnlyFirstAddIsRead(s, more, k, w); }
      }
    }
  }

  lemma OnlyFirstAddIsRead(s: State, more: seq<Step>, k: Bytes, w: Bytes)
    requires Inv(s) && Replay.AddOnly(s.log) && ViaService(more) && HasRead(Run(s, more), k, w)
    requires Replay.FirstAdd(s.log, k).Some?
    ensures k != [] && w != [] && Asked(s.route, k) == About(k) && Replay.FirstAdd(s.log, k) == Some(w)
  {
    RunKeepsInv(s, more);
    RunStaysAddOnly(s, more);
    RunGrows(s, more);
    FirstAddForEver(s, more, k);
    ReadNeeds(Run(s, more), k, w);
    HeldIsFirstAdd(Run(s, more).log, k, w);
  }

  // ---- when all Gets of a key agree ----

  /** All Gets of k that have succeeded returned the same value. */
  ghost predicate GetsAgree(s: State, k: Bytes) {
    forall v, w | HasRead(s, k, v) && HasRead(s, k, w) :: v == w
  }

  /** k never holds two different values that are not empty. */
  ghost predicate Steady(log: seq<Replay.Command>, k: Bytes) {
    forall v, w | Held(log, k, v) && Held(log, k, w) && v != [] && w != [] :: v == w
  }

  lemma CommitOne(s: State, cmd: Replay.Command)
    ensures Run(s, [Commit(cmd)]) == s.(log := s.log + [cmd])
  {
    RunOne(s, Commit(cmd));
  }

  /** Any log can be committed. */
  lemma {:induction false} Commits(route: Route, log: seq<Replay.Command>) returns (steps: seq<Step>)
    ensures Run(Init(route), steps) == Init(route).(log := log)
    ensures |steps| == |log| && forall n | 0 <= n < |log| :: steps[n] == Commit(log[n])
  {
    if log == [] {
      steps := [];
    } else {
      var before := Commits(route, log[..|log| - 1]);
      CommitOne(Run(Init(route), before), log[|log| - 1]);
      RunConcat(Init(route), before, [Commit(log[|log| - 1])]);
      assert log[..|log| - 1] + [log[|log| - 1]] == log;
      steps := before + [Commit(log[|log| - 1])];
    }
  }

  /** Two values that a key has held can both be read, in one run that commits exactly this log. */
  lemma ReadsBoth(route: Route, log: seq<Replay.Command>, k: Bytes, v: Bytes, w: Bytes) returns (steps: seq<Step>)
    requires Held(log, k, v) && Held(log, k, w) && k != [] && v != [] && w != [] && Asked(route, k) == About(k)
    ensures var s := Run(Init(route), steps);
            s.log == log && s.gets == [Got(k, (Some(v), None), true), Got(k, (Some(w), None), true)]
    ensures forall n | 0 <= n < |log| :: Commit(log[n]) in steps
  {
    var commits := Commits(route, log);
    var first := ReadsHeld(Run(Init(route), commits), k, v);
    RunConcat(Init(route), commits, first);
    var second := ReadsHeld(Run(Init(route), commits + first), k, w);
    RunConcat(Init(route), commits + first, second);
    steps := commits + first + second;
    forall n | 0 <= n < |log| ensures Commit(log[n]) in steps { assert steps[n] == commits[n]; }
  }

  lemma BothReadDisagree(s: State, k: Bytes, v: Bytes, w: Bytes)
    requires s.gets == [Got(k, (Some(v), None), true), Got(k, (Some(w), None), true)] && v != w
    ensures !GetsAgree(s, k)
  {
    assert s.gets[0] in s.gets && s.gets[1] in s.gets;
    IsReadWhen(s, s.gets[0]);
    IsReadWhen(s, s.gets[1]);
  }

  /**
   For every log of commands, with or without Set and Delete: in all runs that commit it, all
   successful Gets of k agree, if and only if k never holds two different non-empty values
   after any prefixes of the log; or k cannot be read at all.
   */
  lemma AgreementIff(route: Route, log: seq<Replay.Command>, k: Bytes)
    ensures (forall steps | Run(Init(route), steps).log == log :: GetsAgree(Run(Init(route), steps), k)) <==>
            Steady(log, k) || k == [] || Asked(route, k) != About(k)
  {
    if Steady(log, k) || k == [] || Asked(route, k) != About(k) {
      forall steps: seq<Step>, v, w | Run(Init(route), steps).log == log &&
          HasRead(Run(Init(route), steps), k, v) && HasRead(Run(Init(route), steps), k, w)
        ensures v == w
      {
        RunKeepsInv(Init(route), steps);
        RunGrows(Init(route), steps);
        ReadNeeds(Run(Init(route), steps), k, v);
        ReadNeeds(Run(Init(route), steps), k, w);
      }
    } else {
      var v, w :| Held(log, k, v) && Held(log, k, w) && v != [] && w != [] && v != w;
      var steps := ReadsBoth(route, log, k, v, w);
      BothReadDisagree(Run(Init(route), steps), k, v, w);
    }
  }

  /** What the service commits is steady; with Delete it need not be. */
  lemma AddOnlyIsSteady(log: seq<Replay.Command>, k: Bytes)
    requires Replay.AddOnly(log)
    ensures Steady(log, k)
  {
    forall v, w | Held(log, k, v) && Held(log, k, w) ensures v == w {
      HeldIsFirstAdd(log, k, v);
      HeldIsFirstAdd(log, k, w);
    }
  }

  lemma DeletedAndAdded(k: Bytes, v: Bytes, w: Bytes)
    ensures var log := [Replay.Add(k, v), Replay.Delete(k), Replay.Add(k, w)]; Held(log, k, v) && Held(log, k, w)
  {
    var log := [Replay.Add(k, v), Replay.Delete(k), Replay.Add(k, w)];
    assert log[..1] == [log[0]] && log[..3][..2] == log[..2] && log[..2][..1] == log[..1] && log[..1][..0] == [];
    assert Replay.Run(log[..1], map[]) == map[k := v];
    assert Replay.Run(log[..2], map[]) == map[];
    assert Replay.Run(log[..3], map[]) == map[k := w];
  }

  /** The guarantee rests on the service committing nothing but Adds: with Delete, two Gets can differ. */
  lemma {:induction false} DeleteBreaksAgreement(route: Route, k: Bytes, v: Bytes, w: Bytes)
    requires k != [] && v != [] && w != [] && Asked(route, k) == About(k)
    ensures exists steps | Commit(Replay.Delete(k)) in steps ::
              Run(Init(route), steps).gets == [Got(k, (Some(v), None), true), Got(k, (Some(w), None), true)]
  {
    var log := [Replay.Add(k, v), Replay.Delete(k), Replay.Add(k, w)];
    DeletedAndAdded(k, v, w);
    var steps := ReadsBoth(route, log, k, v, w);
    assert Commit(log[1]) in steps;
  }

  // ---- two clusters ----

  /** A run through the service that commits this log and in which a Get of k returns v. */
  ghost predicate CanReturn(route: Route, log: seq<Replay.Command>, k: Bytes, v: Bytes) {
    exists steps | ViaService(steps) && Run(Init(route), steps).log == log :: HasRead(Run(Init(route), steps), k, v)
  }

  lemma CommitsAndReads(route: Route, log: seq<Replay.Command>, k: Bytes, v: Bytes) returns (steps: seq<Step>)
    requires Held(log, k, v) && k != [] && v != [] && Asked(route, k) == About(k)
    ensures Run(Init(route), steps).log == log && Run(Init(route), steps).gets == [Got(k, (Some(v), None), true)]
    ensures Replay.AddOnly(log) ==> ViaService(steps)
  {
    var commits := Commits(route, log);
    var s := Run(Init(route), commits);
    var read := ReadsHeld(s, k, v);
    RunConcat(Init(route), commits, read);
    steps := commits + read;
  }

  lemma CanReturnFirstAdd(route: Route, log: seq<Replay.Command>, k: Bytes, v: Bytes)
    requires Replay.AddOnly(log) && Replay.FirstAdd(log, k) == Some(v)
    requires k != [] && v != [] && Asked(route, k) == About(k)
    ensures CanReturn(route, log, k, v)
  {
    HeldIsFirstAdd(log, k, v);
    var steps := CommitsAndReads(route, log, k, v);
    var t := Run(Init(route), steps);
    IsReadWhen(t, t.gets[0]);
  }

  lemma CanReturnIff(route: Route, log: seq<Replay.Command>, k: Bytes, v: Bytes)
    requires Replay.AddOnly(log)
    ensures CanReturn(route, log, k, v) <==>
            k != [] && v != [] && Asked(route, k) == About(k) && Replay.FirstAdd(log, k) == Some(v)
  {
    if CanReturn(route, log, k, v) {
      var steps :| ViaService(steps) && Run(Init(route), steps).log == log && HasRead(Run(Init(route), steps), k, v);
      RunKeepsInv(Init(route), steps);
      RunGrows(Init(route), steps);
      ReadNeeds(Run(Init(route), steps), k, v);
      HeldIsFirstAdd(log, k, v);
    } else if k != [] && v != [] && Asked(route, k) == About(k) && Replay.FirstAdd(log, k) == Some(v) {
      CanReturnFirstAdd(route, log, k, v);
    }
  }

  /**
   Two clusters with logs of their own: two Gets of k, one from each, can differ if and only if both
   first Adds of k can be read and they are different.
   */
  lemma ClustersDisagreeIff(route: Route, a: seq<Replay.Command>, b: seq<Replay.Command>, k: Bytes)
    requires Replay.AddOnly(a) && Replay.AddOnly(b)
    ensures (exists v, w | v != w :: CanReturn(route, a, k, v) && CanReturn(route, b, k, w)) <==>
            k != [] && Asked(route, k) == About(k) && Replay.FirstAdd(a, k) != Replay.FirstAdd(b, k) &&
            Replay.FirstAdd(a, k) !in {None, Some([])} && Replay.FirstAdd(b, k) !in {None, Some([])}
  {
    forall v ensures CanReturn(route, a, k, v) <==>
                     k != [] && v != [] && Asked(route, k) == About(k) && Replay.FirstAdd(a, k) == Some(v)
    {
      CanReturnIff(route, a, k, v);
    }
    forall w ensures CanReturn(route, b, k, w) <==>
                     k != [] && w != [] && Asked(route, k) == About(k) && Replay.FirstAdd(b, k) == Some(w)
    {
      CanReturnIff(route, b, k, w);
    }
    if Replay.FirstAdd(a, k).Some? && Replay.FirstAdd(b, k).Some? {
      var v, w := Replay.FirstAdd(a, k).value, Replay.FirstAdd(b, k).value;
      assert CanReturn(route, a, k, v) && CanReturn(route, b, k, w) && v != w ==>
             exists v, w | v != w :: CanReturn(route, a, k, v) && CanReturn(route, b, k, w);
    }
  }
}
