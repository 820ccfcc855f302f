/** Which nodes start a cluster of their own: the single committed log of the store rests on at most one doing so. */
module Founding {
  import opened History
  import opened Membership
  import opened MembershipHistory
  import LossRuns

  /** Step m reads the published list for a node that has registered. */
  predicate Reads(steps: seq<Step>, m: nat, raft: Raft)
    requires m < |steps|
  {
    steps[m] == FetchPeers(raft) && Is(At(steps, m), raft, Registered)
  }

  /** Step m is the node's last read before step n: it has neither started anew since nor opened its store. */
  predicate LastRead(steps: seq<Step>, m: nat, n: nat, raft: Raft)
    requires m < n <= |steps|
  {
    Reads(steps, m, raft) && forall k | m < k < n :: !Registers(steps[k], raft) && steps[k] != OpenSingle(raft)
  }

  /** And it found nobody. */
  predicate EmptyReadFor(steps: seq<Step>, m: nat, n: nat, raft: Raft)
    requires m < n <= |steps|
  {
    LastRead(steps, m, n, raft) && Peers(At(steps, m)) == []
  }

  lemma PendingIff(steps: seq<Step>, n: nat, raft: Raft)
    requires n <= |steps|
    ensures Is(At(steps, n), raft, Fetched([])) <==> exists m | 0 <= m < n :: EmptyReadFor(steps, m, n, raft)
  {
    PhaseIff(steps, n, raft, Fetched([]));
    var enters, leaves := EntersAt(steps, raft, Fetched([])), LeavesAt(steps, raft, Fetched([]));
    forall m: nat | m < n ensures Since(enters, leaves, m, n) <==> EmptyReadFor(steps, m, n, raft) {
      assert enters(m) <==> Reads(steps, m, raft) && Peers(At(steps, m)) == [];
      forall k: nat | m < k < n ensures leaves(k) <==> Registers(steps[k], raft) || steps[k] == OpenSingle(raft) {
      }
    }
  }

  /**
   Step n brings the node up as a cluster of its own: Raft elects it without asking anyone. That is
   a new cluster, unless the node was already alone in the one it comes from.
   */
  predicate Founds(steps: seq<Step>, n: nat, raft: Raft)
    requires n < |steps|
  {
    steps[n] == OpenSingle(raft) && Is(At(steps, n + 1), raft, Opened(true)) && !Is(At(steps, n), raft, Opened(true))
  }

  lemma OpenStep(s: State, raft: Raft)
    ensures Is(Next(s, OpenSingle(raft)), raft, Opened(true)) && !Is(s, raft, Opened(true)) <==>
            Is(s, raft, Fetched([])) && ElectsItself(raft, FileOf(s, raft))
  {
  }

  /**
   In every run, a node comes up as a cluster of its own if and only if the list that it read was
   empty, whatever has happened in between, and its file of Raft peers names no other node.
   */
  lemma FoundsIff(steps: seq<Step>, n: nat, raft: Raft)
    requires n < |steps| && steps[n] == OpenSingle(raft)
    ensures Founds(steps, n, raft) <==>
            ElectsItself(raft, FileOf(At(steps, n), raft)) && exists m | 0 <= m < n :: EmptyReadFor(steps, m, n, raft)
  {
    PendingIff(steps, n, raft);
    AtNext(steps, n);
    OpenStep(At(steps, n), raft);
  }

  // ---- once somebody is published ----

  /** Step e empties the list; `LostPeers.EmptiedIff` says when a step does. */
  predicate Empties(steps: seq<Step>, e: nat)
    requires e < |steps|
  {
    Peers(At(steps, e)) != [] && Peers(At(steps, e + 1)) == []
  }

  /** Step e emptied the list, and it is still empty at step m. */
  predicate EmptySince(steps: seq<Step>, e: nat, m: nat)
    requires e < m <= |steps|
  {
    Empties(steps, e) && forall k | e < k <= m :: Peers(At(steps, k)) == []
  }

  lemma EmptySinceGrows(steps: seq<Step>, e: nat, m: nat)
    requires e < m < |steps| && EmptySince(steps, e, m) && Peers(At(steps, m + 1)) == []
    ensures EmptySince(steps, e, m + 1)
  {
  }

  lemma {:induction false} EmptiedSince(steps: seq<Step>, c: nat, m: nat) returns (e: nat)
    requires c <= m <= |steps| && Peers(At(steps, c)) != [] && Peers(At(steps, m)) == []
    ensures c <= e < m && EmptySince(steps, e, m)
  {
    var last := m - 1;
    if Peers(At(steps, last)) == [] {
      e := EmptiedSince(steps, c, last);
      EmptySinceGrows(steps, e, last);
    } else {
      e := last;
    }
  }

  /** Once somebody has been published, the list is empty exactly from a step that empties it. */
  lemma EmptyIff(steps: seq<Step>, c: nat, m: nat)
    requires c <= m <= |steps| && Peers(At(steps, c)) != []
    ensures Peers(At(steps, m)) == [] <==> exists e | c <= e < m :: EmptySince(steps, e, m)
  {
    if Peers(At(steps, m)) == [] { var e := EmptiedSince(steps, c, m); }
  }

  /** Step c is the first before which somebody is published. */
  predicate FirstPublished(steps: seq<Step>, c: nat)
    requires c <= |steps|
  {
    Peers(At(steps, c)) != [] && forall k | 0 <= k < c :: Peers(At(steps, k)) == []
  }

  /** The node read the list before anybody was published, or while it was empty after a step that emptied it. */
  predicate ReadInAGap(steps: seq<Step>, c: nat, m: nat)
    requires m <= |steps|
  {
    m < c || exists e | c <= e < m :: EmptySince(steps, e, m)
  }

  /**
   Once somebody has been published, a further node comes up as a cluster of its own if and only if
   its file names no other node, and it had read the list before the first publication or while it was
   empty after a sweep emptied it.
   */
  lemma FurtherFounderIff(steps: seq<Step>, c: nat, n: nat, raft: Raft)
    requires c <= n < |steps| && FirstPublished(steps, c) && steps[n] == OpenSingle(raft)
    ensures Founds(steps, n, raft) <==>
            ElectsItself(raft, FileOf(At(steps, n), raft)) &&
            exists m | 0 <= m < n && LastRead(steps, m, n, raft) :: ReadInAGap(steps, c, m)
  {
    FoundsIff(steps, n, raft);
    forall m | 0 <= m < n ensures Peers(At(steps, m)) == [] <==> ReadInAGap(steps, c, m) {
      if c <= m { EmptyIff(steps, c, m); }
    }
    forall m | 0 <= m < n && LastRead(steps, m, n, raft)
      ensures EmptyReadFor(steps, m, n, raft) <==> ReadInAGap(steps, c, m)
    {
    }
  }

  /**
   From any moment at which somebody is published, and as long as no sweep empties the list, a node
   comes up as a cluster of its own if and only if its file names no other node and it had read
   the list before that moment, when it was empty.
   */
  lemma FoundsLateIff(steps: seq<Step>, c: nat, n: nat, raft: Raft)
    requires c <= n < |steps| && Peers(At(steps, c)) != [] && steps[n] == OpenSingle(raft)
    requires forall e | c <= e < n :: !Empties(steps, e)
    ensures Founds(steps, n, raft) <==>
            ElectsItself(raft, FileOf(At(steps, n), raft)) && exists m | 0 <= m < c :: EmptyReadFor(steps, m, n, raft)
  {
    FoundsIff(steps, n, raft);
    if m :| 0 <= m < n && EmptyReadFor(steps, m, n, raft) {
      if c <= m { EmptyIff(steps, c, m); }
    }
  }

  /** With nobody left who has read an empty list, nobody starts a cluster until a sweep writes an empty one. */
  lemma NobodyFoundsAgain(steps: seq<Step>, c: nat, n: nat, raft: Raft)
    requires c <= n < |steps| && Peers(At(steps, c)) != []
    requires !Is(At(steps, c), raft, Fetched([])) && forall e | c <= e < n :: !Empties(steps, e)
    ensures !Founds(steps, n, raft)
  {
    if Founds(steps, n, raft) {
      FoundsLateIff(steps, c, n, raft);
      PendingIff(steps, c, raft);
      var m :| 0 <= m < c && EmptyReadFor(steps, m, n, raft);
      assert EmptyReadFor(steps, m, c, raft);
    }
  }

  // ---- members ----

  lemma FileStep(s: State, step: Step, raft: Raft)
    requires !ElectsItself(raft, FileOf(s, raft)) && ElectsItself(raft, FileOf(Next(s, step), raft))
    ensures step.LearnPeers? && step.raft == raft && ElectsItself(raft, step.peers)
  {
  }

  /**
   A member, whose file names another node, never comes up as a cluster of its own again, however
   often it restarts and whatever it reads, unless Raft makes it write a file that names no other node.
   */
  lemma {:induction false} MemberFoundsNothing(steps: seq<Step>, c: nat, n: nat, raft: Raft)
    requires c <= n < |steps| && !ElectsItself(raft, FileOf(At(steps, c), raft))
    requires forall k | c <= k < n && steps[k].LearnPeers? && steps[k].raft == raft ::
               !ElectsItself(raft, steps[k].peers)
    ensures !ElectsItself(raft, FileOf(At(steps, n), raft)) && !Founds(steps, n, raft)
  {
    if c < n {
      var last := n - 1;
      MemberFoundsNothing(steps, c, last, raft);
      AtNext(steps, last);
      if ElectsItself(raft, FileOf(At(steps, n), raft)) { FileStep(At(steps, last), steps[last], raft); }
    }
    if Founds(steps, n, raft) { FoundsIff(steps, n, raft); }
  }

  // ---- two clusters ----

  lemma BothFetchNothing(a: Raft, b: Raft, ha: Http, hb: Http) returns (steps: seq<Step>)
    requires a != b
    ensures Is(Run(INIT, steps), a, Fetched([])) && Is(Run(INIT, steps), b, Fetched([]))
    ensures Run(INIT, steps).files == map[]
  {
    var registered := [Register(a, ha)] + [Register(b, hb)];
    RunOne(INIT, Register(a, ha));
    RunSnoc(INIT, [Register(a, ha)], Register(b, hb));
    steps := registered + [FetchPeers(a)] + [FetchPeers(b)];
    RunSnoc(INIT, registered, FetchPeers(a));
    RunSnoc(INIT, registered + [FetchPeers(a)], FetchPeers(b));
  }

  lemma OpensAlone(s: State, a: Raft, b: Raft, phase: Phase)
    requires a != b && Is(s, a, Fetched([])) && ElectsItself(a, FileOf(s, a)) && Is(s, b, phase)
    ensures Is(Next(s, OpenSingle(a)), a, Opened(true)) && Is(Next(s, OpenSingle(a)), b, phase)
    ensures Next(s, OpenSingle(a)).files == s.files
  {
  }

  /** Two nodes that read the list before either publishes both start a cluster. */
  lemma {:induction false} TwoNodesBothBootstrap(a: Raft, b: Raft, ha: Http, hb: Http)
    requires a != b
    ensures exists steps :: Is(Run(INIT, steps), a, Opened(true)) && Is(Run(INIT, steps), b, Opened(true))
  {
    var fetched := BothFetchNothing(a, b, ha, hb);
    var half := fetched + [OpenSingle(a)];
    RunSnoc(INIT, fetched, OpenSingle(a));
    OpensAlone(Run(INIT, fetched), a, b, Fetched([]));
    var steps := half + [OpenSingle(b)];
    RunSnoc(INIT, half, OpenSingle(b));
    OpensAlone(Run(INIT, half), b, a, Opened(true));
    assert Is(Run(INIT, steps), a, Opened(true)) && Is(Run(INIT, steps), b, Opened(true));
  }

  /** A sweep empties the list, and node b starts, for the first time or again, and reads it. */
  function SweepThenRead(s: State, b: Raft, hb: Http): State {
    Next(Next(Next(s, SweepWrite(0)), Register(b, hb)), FetchPeers(b))
  }

  lemma ReadsNobody(s: State, b: Raft, hb: Http)
    requires s.sweeps == map[0 := Writing([])]
    ensures var t := SweepThenRead(s, b, hb);
            Is(t, b, Fetched([])) && t.files == s.files && t.joined == s.joined && Peers(t) == [] &&
            t.nodes == s.nodes[b := t.nodes[b]]
  {
    LossRuns.SweepErases(s);
  }

  lemma RunsToRead(before: seq<Step>, b: Raft, hb: Http) returns (steps: seq<Step>)
    ensures before <= steps && Run(INIT, steps) == SweepThenRead(Run(INIT, before), b, hb)
  {
    RunSnoc(INIT, before, SweepWrite(0));
    RunSnoc(INIT, before + [SweepWrite(0)], Register(b, hb));
    RunSnoc(INIT, before + [SweepWrite(0)] + [Register(b, hb)], FetchPeers(b));
    steps := before + [SweepWrite(0)] + [Register(b, hb)] + [FetchPeers(b)];
  }

  predicate UpAlone(s: State, a: Raft, b: Raft, ha: Http) {
    Is(s, a, Running) && Peers(s) == [ha] && b !in s.nodes
  }

  /** Node a is up and published, a sweep empties the list, and b, which was not there, starts a second cluster. */
  lemma {:induction false} SecondClusterAfterSweep(a: Raft, b: Raft, ha: Http, hb: Http)
    requires a != b
    ensures exists before, steps | before <= steps && UpAlone(Run(INIT, before), a, b, ha) ::
              Is(Run(INIT, steps), a, Running) && Is(Run(INIT, steps), b, Opened(true))
  {
    var before := LossRuns.SweepAboutToErase(a, ha);
    assert UpAlone(Run(INIT, before), a, b, ha);
    ReadsNobody(Run(INIT, before), b, hb);
    var read := RunsToRead(before, b, hb);
    OpensAlone(Run(INIT, read), b, a, Running);
    RunSnoc(INIT, read, OpenSingle(b));
    assert before <= read + [OpenSingle(b)];
  }

  lemma LearnsPeers(s: State, a: Raft, b: Raft)
    requires a != b && Is(s, b, Running) && {a, b} <= s.joined
    ensures var t := Next(s, LearnPeers(b, [b, a]));
            t.sweeps == s.sweeps && t.joined == s.joined && !ElectsItself(b, FileOf(t, b))
  {
  }

  lemma OpensAsMember(s: State, b: Raft)
    requires Is(s, b, Fetched([])) && !ElectsItself(b, FileOf(s, b))
    ensures Is(Next(s, OpenSingle(b)), b, Opened(false))
  {
  }

  /** The list that b reads is empty, b belongs to a cluster, and opening its store founds none. */
  predicate ComesBackAsMember(steps: seq<Step>, b: Raft) {
    steps != [] &&
    var n := |steps| - 1;
    && steps[n] == OpenSingle(b) && Peers(At(steps, n)) == [] && Is(At(steps, n), b, Fetched([]))
    && b in At(steps, n).joined
    && Is(Run(INIT, steps), b, Opened(false)) && !Founds(steps, n, b)
  }

  /** Node b joins a, a sweep empties the list, and b restarts and reads it: it stays in its cluster. */
  lemma {:induction false} RestartedMemberFoundsNothing(a: Raft, b: Raft, ha: Http, hb: Http)
    requires a != b && ha != hb
    ensures exists steps :: ComesBackAsMember(steps, b)
  {
    var meanwhile := LossRuns.PublishedMeanwhile(a, b, ha, hb);
    LearnsPeers(Run(INIT, meanwhile), a, b);
    var learned := meanwhile + [LearnPeers(b, [b, a])];
    RunSnoc(INIT, meanwhile, LearnPeers(b, [b, a]));
    ReadsNobody(Run(INIT, learned), b, hb);
    var read := RunsToRead(learned, b, hb);
    OpensAsMember(Run(INIT, read), b);
    RunSnoc(INIT, read, OpenSingle(b));
    var steps := read + [OpenSingle(b)];
    assert steps[..|read|] == read && steps[..|steps|] == steps;
    assert ComesBackAsMember(steps, b);
  }
}
