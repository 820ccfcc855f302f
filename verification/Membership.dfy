/**
 How database nodes publish their addresses: each node registers, reads the published list, then
 either opens its store to start a cluster of its own or joins the one it found; a leader publishes
 after it has let a node in; the master removes nodes that do not answer. Every read and write of the
 meta store and of a node's file of Raft peers is a step of its own.
 */
module Membership {
  import opened Wrappers
  import opened ByteOrder
  import opened DbMaster
  import Sorting

  type Raft = Bytes
  type Http = Bytes
  type Id = nat

  /** Opened: with single-node mode allowed; `alone` says whether Raft then elects the node without asking anyone. */
  datatype Phase = Registered | Fetched(peers: seq<Http>) | Opened(alone: bool) | Joining | Running

  datatype Node = Node(http: Http, phase: Phase)

  /** An updatePeers call, due or under way: the Raft peers that it saw, and the addresses found for the first ones. */
  datatype Update = Due(leader: Raft) | Looking(leader: Raft, view: seq<Raft>, found: seq<Http>) {
    predicate Finished() { Looking? && |view| <= |found| }
  }

  /** A heartbeat under way: the addresses that failed, or the list about to be written. */
  datatype Sweep = Failed(gone: set<Http>) | Writing(peers: seq<Http>)

  datatype State = State(
    registry: map<Raft, Http>,
    published: Option<seq<Http>>,
    nodes: map<Raft, Node>,
    files: map<Raft, seq<Raft>>,
    joined: set<Raft>,
    updates: map<Id, Update>,
    sweeps: map<Id, Sweep>)

  const INIT := State(map[], None, map[], map[], {}, map[], map[])

  datatype Step =
    | Register(raft: Raft, http: Http)
    | FetchPeers(raft: Raft)
    | OpenSingle(raft: Raft)
    | PublishSelf(raft: Raft)
    | OpenToJoin(raft: Raft)
    | HandleJoin(leader: Raft, raft: Raft, u: Id, committed: bool, heard: bool)
    | LearnPeers(raft: Raft, peers: seq<Raft>)
    | StartUpdate(u: Id)
    | LookUp(u: Id)
    | Publish(u: Id)
    | Ping(w: Id, failed: set<Http>)
    | SweepRead(w: Id)
    | SweepWrite(w: Id)

  function Peers(s: State): seq<Http> {
    if s.published.Some? then s.published.value else []
  }

  /** The published peers that failed their ping. */
  function Among(peers: seq<Http>, failed: set<Http>): (hit: set<Http>)
    ensures forall p :: p in hit <==> p in peers && p in failed
  {
    set p | p in peers && p in failed
  }

  predicate Is(s: State, raft: Raft, phase: Phase) {
    raft in s.nodes && s.nodes[raft].phase == phase
  }

  function Enter(s: State, raft: Raft, phase: Phase): State
    requires raft in s.nodes
  {
    s.(nodes := s.nodes[raft := s.nodes[raft].(phase := phase)])
  }

  /** The Raft peers that the file on the node's disk names; the file outlives the process. */
  function FileOf(s: State, raft: Raft): seq<Raft> {
    if raft in s.files then s.files[raft] else []
  }

  /** With more than one peer in the file single-node mode stays off; with a peer of its own a node needs votes. */
  predicate ElectsItself(raft: Raft, file: seq<Raft>) {
    |file| <= 1 && forall r | r in file :: r == raft
  }

  /** The peer set of the entry that adds raft. */
  function Added(raft: Raft, leader: Raft, file: seq<Raft>): (peers: seq<Raft>)
    ensures forall r :: r in peers <==> r == raft || r == leader || r in file
    ensures forall r :: multiset(peers)[r] ==
                        (if r == raft then 1 else 0) + (if r == leader then 1 else multiset(file)[r])
  {
    KeepCounts(file, {leader});
    [raft, leader] + Keep(file, {leader})
  }

  predicate IsOpen(s: State, raft: Raft) {
    raft in s.nodes && (s.nodes[raft].phase.Opened? || s.nodes[raft].phase in {Joining, Running})
  }

  /** A process that starts anew has none of the old one's calls under way. */
  function WithoutCallsOf(updates: map<Id, Update>, raft: Raft): map<Id, Update> {
    map u | u in updates && updates[u].leader != raft :: updates[u]
  }

  /** A step that is not possible leaves the state alone. */
  function Next(s: State, step: Step): State {
    match step
    case Register(raft, http) =>
      s.(registry := s.registry[raft := http], nodes := s.nodes[raft := Node(http, Registered)],
         updates := WithoutCallsOf(s.updates, raft))
    case FetchPeers(raft) =>
      if Is(s, raft, Registered) then Enter(s, raft, Fetched(Peers(s))) else s
    case OpenSingle(raft) =>
      if Is(s, raft, Fetched([])) then
        var alone := ElectsItself(raft, FileOf(s, raft));
        Enter(s, raft, Opened(alone)).(joined := if alone then s.joined + {raft} else s.joined)
      else s
    case PublishSelf(raft) =>
      if raft in s.nodes && s.nodes[raft].phase.Opened? then
        Enter(s, raft, Running).(published := Some([s.nodes[raft].http]))
      else s
    case OpenToJoin(raft) =>
      if raft in s.nodes && s.nodes[raft].phase.Fetched? && s.nodes[raft].phase.peers != [] then Enter(s, raft, Joining)
      else s
    case HandleJoin(leader, raft, u, committed, heard) =>
      if Is(s, leader, Running) && Is(s, raft, Joining) && raft !in FileOf(s, leader) && u !in s.updates then
        (if committed && heard then Enter(s, raft, Running) else s).(
          joined := s.joined + {leader, raft},
          files := s.files[leader := Added(raft, leader, FileOf(s, leader))],
          updates := if committed then s.updates[u := Due(leader)] else s.updates)
      else s
    case LearnPeers(raft, peers) =>
      if IsOpen(s, raft) && forall r | r in peers :: r in s.joined then s.(files := s.files[raft := peers]) else s
    case StartUpdate(u) =>
      if u in s.updates && s.updates[u].Due? && s.updates[u].leader in s.nodes then
        var leader := s.updates[u].leader;
        var view := FileOf(s, leader);
        s.(updates := s.updates[u := Looking(leader, view, if view == [] then [s.nodes[leader].http] else [])])
      else s
    case LookUp(u) =>
      if u !in s.updates || s.updates[u].Due? || s.updates[u].Finished() then s
      else
        var Looking(leader, view, found) := s.updates[u];
        var peer := view[|found|];
        if peer in s.registry then s.(updates := s.updates[u := Looking(leader, view, found + [s.registry[peer]])])
        else s.(updates := s.updates - {u})
    case Publish(u) =>
      if u in s.updates && s.updates[u].Finished() then
        s.(published := Some(SortStrings(s.updates[u].found)), updates := s.updates - {u})
      else s
    case Ping(w, failed) =>
      s.(sweeps := s.sweeps[w := Failed(Among(Peers(s), failed))])
    case SweepRead(w) =>
      if w !in s.sweeps || s.sweeps[w].Writing? then s
      else
        var gone := s.sweeps[w].gone;
        if exists p | p in Peers(s) :: p in gone then s.(sweeps := s.sweeps[w := Writing(Keep(Peers(s), gone))])
        else s.(sweeps := s.sweeps - {w})
    case SweepWrite(w) =>
      if w in s.sweeps && s.sweeps[w].Writing? then
        s.(published := Some(SortStrings(s.sweeps[w].peers)), sweeps := s.sweeps - {w})
      else s
  }

  function Run(s: State, steps: seq<Step>): State {
    if steps == [] then s else Next(Run(s, steps[..|steps| - 1]), steps[|steps| - 1])
  }

  /** The HTTP addresses that the steps of a run register. */
  function Known(steps: seq<Step>): (known: set<Http>)
    ensures forall h :: h in known <==> exists n | 0 <= n < |steps| :: steps[n].Register? && steps[n].http == h
  {
    set n | 0 <= n < |steps| && steps[n].Register? :: steps[n].http
  }

  predicate AllIn(peers: seq<Http>, known: set<Http>) {
    forall p | p in peers :: p in known
  }

  ghost predicate Inv(s: State, known: set<Http>) {
    ListInv(s.published, known) && NodeInv(s, known) && UpdateInv(s, known) && SweepInv(s, known)
  }

  ghost predicate ListInv(published: Option<seq<Http>>, known: set<Http>) {
    published.Some? ==> Sorting.Sorted(published.value, Leq) && AllIn(published.value, known)
  }

  ghost predicate NodeInv(s: State, known: set<Http>) {
    && (forall r | r in s.registry :: s.registry[r] in known)
    && (forall r | r in s.nodes :: r in s.registry && s.nodes[r].http in known)
    && (forall r | r in s.joined :: r in s.registry)
    && (forall r | r in s.files :: forall peer | peer in s.files[r] :: peer in s.joined)
  }

  ghost predicate UpdateInv(s: State, known: set<Http>) {
    forall u | u in s.updates && s.updates[u].Looking? ::
      && (forall r | r in s.updates[u].view :: r in s.joined)
      && AllIn(s.updates[u].found, known)
      && (s.updates[u].view == [] ==> s.updates[u].found != [])
  }

  ghost predicate SweepInv(s: State, known: set<Http>) {
    forall w | w in s.sweeps && s.sweeps[w].Writing? :: AllIn(s.sweeps[w].peers, known)
  }

  lemma InvGrows(s: State, known: set<Http>, more: set<Http>)
    requires Inv(s, known) && known <= more
    ensures Inv(s, more)
  {
  }

  lemma NodeStepKeepsInv(s: State, known: set<Http>, step: Step)
    requires Inv(s, known) && (step.Register? ==> step.http in known)
    requires step.Register? || step.FetchPeers? || step.OpenSingle? || step.PublishSelf? || step.OpenToJoin?
    ensures Inv(Next(s, step), known)
  {
  }

  lemma HandleJoinKeepsInv(s: State, known: set<Http>, step: Step)
    requires Inv(s, known) && step.HandleJoin?
    ensures Inv(Next(s, step), known)
  {
  }

  lemma LearnPeersKeepsInv(s: State, known: set<Http>, step: Step)
    requires Inv(s, known) && step.LearnPeers?
    ensures Inv(Next(s, step), known)
  {
  }

  lemma StartUpdateKeepsInv(s: State, known: set<Http>, step: Step)
    requires Inv(s, known) && step.StartUpdate?
    ensures Inv(Next(s, step), known)
  {
  }

  lemma LookUpKeepsInv(s: State, known: set<Http>, step: Step)
    requires Inv(s, known) && step.LookUp?
    ensures Inv(Next(s, step), known)
  {
  }

  lemma PublishKeepsInv(s: State, known: set<Http>, step: Step)
    requires Inv(s, known) && step.Publish?
    ensures Inv(Next(s, step), known)
  {
  }

  lemma PingKeepsInv(s: State, known: set<Http>, step: Step)
    requires Inv(s, known) && step.Ping?
    ensures Inv(Next(s, step), known)
  {
  }

  lemma SweepReadKeepsInv(s: State, known: set<Http>, step: Step)
    requires Inv(s, known) && step.SweepRead?
    ensures Inv(Next(s, step), known)
  {
  }

  lemma SweepWriteKeepsInv(s: State, known: set<Http>, step: Step)
    requires Inv(s, known) && step.SweepWrite?
    ensures Inv(Next(s, step), known)
  {
  }

  lemma StepKeepsInv(s: State, known: set<Http>, step: Step)
    requires Inv(s, known) && (step.Register? ==> step.http in known)
    ensures Inv(Next(s, step), known)
  {
    match step
    case HandleJoin(_, _, _, _, _) => HandleJoinKeepsInv(s, known, step);
    case LearnPeers(_, _) => LearnPeersKeepsInv(s, known, step);
    case StartUpdate(_) => StartUpdateKeepsInv(s, known, step);
    case LookUp(_) => LookUpKeepsInv(s, known, step);
    case Publish(_) => PublishKeepsInv(s, known, step);
    case Ping(_, _) => PingKeepsInv(s, known, step);
    case SweepRead(_) => SweepReadKeepsInv(s, known, step);
    case SweepWrite(_) => SweepWriteKeepsInv(s, known, step);
    case _ => NodeStepKeepsInv(s, known, step);
  }

  lemma {:induction false} RunKeepsInv(steps: seq<Step>)
    ensures Inv(Run(INIT, steps), Known(steps))
  {
    if steps != [] {
      var before, step := steps[..|steps| - 1], steps[|steps| - 1];
      RunKeepsInv(before);
      assert steps == before + [step];
      InvGrows(Run(INIT, before), Known(before), Known(steps));
      StepKeepsInv(Run(INIT, before), Known(steps), step);
    }
  }

  /** In every run the published list is sorted and names only HTTP addresses that nodes have registered. */
  lemma PublishedIsSortedAndRegistered(steps: seq<Step>)
    requires Run(INIT, steps).published.Some?
    ensures Sorting.Sorted(Run(INIT, steps).published.value, Leq)
    ensures forall p | p in Run(INIT, steps).published.value :: p in Known(steps)
  {
    RunKeepsInv(steps);
  }

  /** Nodes register before they join, so updatePeers finds an address for every peer and never gives up. */
  lemma {:induction false} UpdateNeverGivesUp(steps: seq<Step>, u: Id)
    requires u in Run(INIT, steps).updates
    ensures u in Run(INIT, steps + [LookUp(u)]).updates
    ensures var update := Run(INIT, steps).updates[u];
            update.Looking? ==> forall r | r in update.view :: r in Run(INIT, steps).registry
  {
    RunKeepsInv(steps);
    RunSnoc(INIT, steps, LookUp(u));
  }

  lemma RunSnoc(s: State, steps: seq<Step>, step: Step)
    ensures Run(s, steps + [step]) == Next(Run(s, steps), step)
  {
    assert (steps + [step])[..|steps|] == steps;
  }

  lemma {:induction false} RunConcat(s: State, a: seq<Step>, b: seq<Step>)
    ensures Run(s, a + b) == Run(Run(s, a), b)
  {
    if b == [] {
      assert a + b == a;
    } else {
      assert (a + b)[..|a + b| - 1] == a + b[..|b| - 1];
      RunConcat(s, a, b[..|b| - 1]);
    }
  }

  lemma RunOne(s: State, step: Step)
    ensures Run(s, [step]) == Next(s, step)
  {
    assert [step][..0] == [];
  }

  lemma LooksUpOne(s: State, u: Id, leader: Raft, view: seq<Raft>, found: seq<Http>)
    requires |found| < |view| && view[|found|] in s.registry
    ensures Next(s.(updates := s.updates[u := Looking(leader, view, found)]), LookUp(u)) ==
            s.(updates := s.updates[u := Looking(leader, view, found + [s.registry[view[|found|]]])])
  {
    var half, whole := Looking(leader, view, found), Looking(leader, view, found + [s.registry[view[|found|]]]);
    assert s.updates[u := half][u := whole] == s.updates[u := whole];
  }

  /** The look-ups of one update, with nothing in between, collect the addresses that updatePeers publishes. */
  lemma {:induction false} LookUpsCollect(s: State, u: Id, n: nat)
    requires u in s.updates && s.updates[u].Looking? && |s.updates[u].found| + n <= |s.updates[u].view|
    requires forall r | r in s.updates[u].view :: r in s.registry
    ensures var Looking(leader, view, found) := s.updates[u];
            Run(s, seq(n, _ => LookUp(u))) ==
            s.(updates := s.updates[u :=
                  Looking(leader, view, found + Addresses(s.registry, view[|found|..][..n]).value)])
  {
    var Looking(leader, view, found) := s.updates[u];
    var rest := view[|found|..];
    if n == 0 {
      assert rest[..0] == [] && found + [] == found;
      assert s.updates[u := Looking(leader, view, found)] == s.updates;
    } else {
      LookUpsCollect(s, u, n - 1);
      assert seq(n, _ => LookUp(u))[..n - 1] == seq(n - 1, _ => LookUp(u));
      var before, after := Addresses(s.registry, rest[..n - 1]).value, Addresses(s.registry, rest[..n]).value;
      assert view[|found + before|] == rest[n - 1] && rest[n - 1] in view;
      assert after == before + [s.registry[rest[n - 1]]];
      assert found + before + [s.registry[rest[n - 1]]] == found + after;
      LooksUpOne(s, u, leader, view, found + before);
    }
  }

  /** The state before step n of a run. */
  function At(steps: seq<Step>, n: nat): State
    requires n <= |steps|
  {
    Run(INIT, steps[..n])
  }

  lemma AtNext(steps: seq<Step>, n: nat)
    requires n < |steps|
    ensures At(steps, n + 1) == Next(At(steps, n), steps[n])
  {
    assert steps[..n + 1][..n] == steps[..n];
  }

  lemma AtKeepsInv(steps: seq<Step>, n: nat)
    requires n <= |steps|
    ensures Inv(At(steps, n), Known(steps[..n]))
  {
    RunKeepsInv(steps[..n]);
  }
}
