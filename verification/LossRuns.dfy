/** Runs in which the published list loses a node that has joined and never failed. */
module LossRuns {
  import opened Wrappers
  import ByteOrder
  import opened DbMaster
  import opened Membership
  import opened LostPeers

  predicate NoPing(steps: seq<Step>) {
    forall n | 0 <= n < |steps| :: !steps[n].Ping?
  }

  /** Node a, which runs alone and is published. */
  function Solo(a: Raft, ha: Http): State {
    State(map[a := ha], Some([ha]), map[a := Node(ha, Running)], map[], {a}, map[], map[])
  }

  lemma StartsAlone(a: Raft, ha: Http) returns (steps: seq<Step>)
    ensures Run(INIT, steps) == Solo(a, ha) && NoPing(steps)
  {
    RunOne(INIT, Register(a, ha));
    var s := INIT.(registry := map[a := ha], nodes := map[a := Node(ha, Registered)]);
    assert Next(INIT, Register(a, ha)) == s;
    RunSnoc(INIT, [Register(a, ha)], FetchPeers(a));
    var read := [Register(a, ha)] + [FetchPeers(a)];
    assert Run(INIT, read) == s.(nodes := map[a := Node(ha, Fetched([]))]);
    RunSnoc(INIT, read, OpenSingle(a));
    assert Run(INIT, read + [OpenSingle(a)]) == s.(nodes := map[a := Node(ha, Opened(true))], joined := {a});
    RunSnoc(INIT, read + [OpenSingle(a)], PublishSelf(a));
    steps := read + [OpenSingle(a)] + [PublishSelf(a)];
  }

  // ---- a node joins and is published ----

  function With(s: State, raft: Raft, http: Http, phase: Phase): State {
    s.(registry := s.registry[raft := http], nodes := s.nodes[raft := Node(http, phase)])
  }

  /** Node b has been let in by a, which owes the update u. */
  function In(s: State, a: Raft, b: Raft, hb: Http, u: Id): State {
    With(s, b, hb, Running).(joined := s.joined + {a, b}, files := s.files[a := Added(b, a, FileOf(s, a))],
                             updates := s.updates[u := Due(a)])
  }

  lemma RegisterSteps(s: State, b: Raft, ha: Http, hb: Http)
    requires s.published == Some([ha]) && forall w | w in s.updates :: s.updates[w].leader != b
    ensures Next(s, Register(b, hb)) == With(s, b, hb, Registered)
    ensures Next(With(s, b, hb, Registered), FetchPeers(b)) == With(s, b, hb, Fetched([ha]))
  {
    assert WithoutCallsOf(s.updates, b) == s.updates;
  }

  lemma OpensToJoin(s: State, b: Raft, ha: Http, hb: Http)
    ensures Next(With(s, b, hb, Fetched([ha])), OpenToJoin(b)) == With(s, b, hb, Joining)
  {
  }

  lemma JoinStep(s: State, a: Raft, b: Raft, hb: Http, u: Id)
    requires Is(s, a, Running) && a != b && b !in FileOf(s, a) && u !in s.updates
    ensures Next(With(s, b, hb, Joining), HandleJoin(a, b, u, true, true)) == In(s, a, b, hb, u)
  {
  }

  /** Node b finds a published and is let in. */
  lemma Joins(s: State, a: Raft, b: Raft, ha: Http, hb: Http, u: Id) returns (steps: seq<Step>)
    requires Is(s, a, Running) && a != b && s.published == Some([ha]) && b !in FileOf(s, a) && u !in s.updates
    requires forall w | w in s.updates :: s.updates[w].leader != b
    ensures Run(s, steps) == In(s, a, b, hb, u) && NoPing(steps)
  {
    RegisterSteps(s, b, ha, hb);
    OpensToJoin(s, b, ha, hb);
    JoinStep(s, a, b, hb, u);
    RunOne(s, Register(b, hb));
    RunSnoc(s, [Register(b, hb)], FetchPeers(b));
    var fetched := [Register(b, hb)] + [FetchPeers(b)];
    RunSnoc(s, fetched, OpenToJoin(b));
    RunSnoc(s, fetched + [OpenToJoin(b)], HandleJoin(a, b, u, true, true));
    steps := fetched + [OpenToJoin(b)] + [HandleJoin(a, b, u, true, true)];
  }

  /** The leader that owes u can look all its Raft peers up. */
  predicate Ready(s: State, u: Id, a: Raft) {
    && u in s.updates && s.updates[u] == Due(a) && a in s.nodes
    && FileOf(s, a) != [] && forall r | r in FileOf(s, a) :: r in s.registry
  }

  /** It does, with nothing in between. */
  lemma LooksUp(s: State, u: Id, a: Raft) returns (steps: seq<Step>)
    requires Ready(s, u, a)
    ensures Run(s, steps) ==
            s.(updates := s.updates[u := Looking(a, FileOf(s, a), Addresses(s.registry, FileOf(s, a)).value)])
    ensures NoPing(steps)
  {
    var view := FileOf(s, a);
    var t := s.(updates := s.updates[u := Looking(a, view, [])]);
    RunOne(s, StartUpdate(u));
    LookUpsCollect(t, u, |view|);
    assert view[0..][..|view|] == view;
    var look: seq<Step> := seq(|view|, _ => LookUp(u));
    RunConcat(s, [StartUpdate(u)], look);
    var found := Addresses(s.registry, view).value;
    assert [] + found == found;
    assert t.updates[u := Looking(a, view, found)] == s.updates[u := Looking(a, view, found)];
    steps := [StartUpdate(u)] + look;
  }

  /** It looks them all up and publishes them. */
  lemma Updates(s: State, u: Id, a: Raft) returns (steps: seq<Step>)
    requires Ready(s, u, a)
    ensures Run(s, steps) ==
            s.(published := Some(ByteOrder.SortStrings(Addresses(s.registry, FileOf(s, a)).value)),
               updates := s.updates - {u})
    ensures NoPing(steps)
  {
    var looked := LooksUp(s, u, a);
    RunSnoc(s, looked, Publish(u));
    var update := Looking(a, FileOf(s, a), Addresses(s.registry, FileOf(s, a)).value);
    assert s.updates[u := update] - {u} == s.updates - {u};
    steps := looked + [Publish(u)];
  }

  /** All Raft peers being registered, a can take b in and then look all its peers up. */
  predicate CanTakeIn(s: State, a: Raft, b: Raft, ha: Http, u: Id) {
    && Is(s, a, Running) && a != b && s.published == Some([ha]) && b !in FileOf(s, a) && u !in s.updates
    && (forall w | w in s.updates :: s.updates[w].leader != b)
    && a in s.registry && forall r | r in FileOf(s, a) :: r in s.registry
  }

  lemma TakenInIsReady(s: State, a: Raft, b: Raft, ha: Http, hb: Http, u: Id)
    requires CanTakeIn(s, a, b, ha, u)
    ensures Ready(In(s, a, b, hb, u), u, a)
    ensures FileOf(In(s, a, b, hb, u), a) == Added(b, a, FileOf(s, a))
  {
  }

  /** Node b joins, and a looks all its peers up. */
  lemma JoinsAndIsFound(s: State, a: Raft, b: Raft, ha: Http, hb: Http, u: Id) returns (steps: seq<Step>)
    requires CanTakeIn(s, a, b, ha, u)
    ensures var t, peers := In(s, a, b, hb, u), Added(b, a, FileOf(s, a));
            (forall r | r in peers :: r in t.registry) &&
            Run(s, steps) == t.(updates := t.updates[u := Looking(a, peers, Addresses(t.registry, peers).value)])
    ensures NoPing(steps)
  {
    TakenInIsReady(s, a, b, ha, hb, u);
    var join := Joins(s, a, b, ha, hb, u);
    var look := LooksUp(In(s, a, b, hb, u), u, a);
    RunConcat(s, join, look);
    steps := join + look;
  }

  lemma FirstIsPublished(registry: map<Raft, Http>, peers: seq<Raft>, http: Http)
    requires peers != [] && Lookup(registry, peers[0]) == Some(http) && forall r | r in peers :: r in registry
    ensures http in ByteOrder.SortStrings(Addresses(registry, peers).value)
  {
    assert Addresses(registry, peers).value[0] == http;
  }

  /** Node b joins, and a publishes all its peers. */
  lemma JoinsAndIsPublished(s: State, a: Raft, b: Raft, ha: Http, hb: Http, u: Id) returns (steps: seq<Step>)
    requires CanTakeIn(s, a, b, ha, u)
    ensures NoPing(steps) && PublishedIn(s, Run(s, steps), a, b, hb, u)
  {
    TakenInIsReady(s, a, b, ha, hb, u);
    var join := Joins(s, a, b, ha, hb, u);
    var update := Updates(In(s, a, b, hb, u), u, a);
    RunConcat(s, join, update);
    FirstIsPublished(In(s, a, b, hb, u).registry, Added(b, a, FileOf(s, a)), hb);
    steps := join + update;
  }

  /** In t node b is in and published, and the update that a owed is done. */
  predicate PublishedIn(s: State, t: State, a: Raft, b: Raft, hb: Http, u: Id) {
    && hb in Peers(t) && Is(t, b, Running) && t.nodes[b].http == hb && {a, b} <= t.joined
    && t.sweeps == s.sweeps && t.updates == s.updates[u := Due(a)] - {u}
  }

  // ---- a sweep that read too early ----

  lemma PingStep(s: State, ha: Http)
    requires s.published == Some([ha]) && s.sweeps == map[]
    ensures Next(s, Ping(0, {ha})) == s.(sweeps := map[0 := Failed({ha})])
  {
    assert Among([ha], {ha}) == {ha};
  }

  lemma SweepStep(s: State, ha: Http)
    requires s.published == Some([ha]) && s.sweeps == map[0 := Failed({ha})]
    ensures Next(s, SweepRead(0)) == s.(sweeps := map[0 := Writing([])])
  {
    assert ha in Peers(s);
    assert Keep([ha], {ha}) == [] by { assert forall p :: p !in Keep([ha], {ha}); }
  }

  /** A sweep sees a fail, and the list it is about to write is empty. */
  lemma SweepAboutToErase(a: Raft, ha: Http) returns (steps: seq<Step>)
    ensures Run(INIT, steps) == Solo(a, ha).(sweeps := map[0 := Writing([])])
    ensures forall n | 0 <= n < |steps| && steps[n].Ping? :: steps[n].failed == {ha}
  {
    var running := StartsAlone(a, ha);
    var s := Solo(a, ha);
    PingStep(s, ha);
    SweepStep(s.(sweeps := map[0 := Failed({ha})]), ha);
    RunSnoc(INIT, running, Ping(0, {ha}));
    RunSnoc(INIT, running + [Ping(0, {ha})], SweepRead(0));
    steps := running + [Ping(0, {ha})] + [SweepRead(0)];
  }

  lemma SweepErases(s: State)
    requires s.sweeps == map[0 := Writing([])]
    ensures Next(s, SweepWrite(0)) == s.(published := Some([]), sweeps := map[])
  {
    assert ByteOrder.SortStrings([]) == [];
  }

  /** Nodes a and b form a cluster, b is published, and a sweep is about to write the empty list. */
  predicate DoomedList(s: State, a: Raft, b: Raft, hb: Http) {
    && Is(s, b, Running) && {a, b} <= s.joined && b in s.nodes && s.nodes[b].http == hb && hb in Peers(s)
    && s.sweeps == map[0 := Writing([])]
  }

  lemma PublishedMeanwhile(a: Raft, b: Raft, ha: Http, hb: Http) returns (steps: seq<Step>)
    requires a != b && ha != hb
    ensures NeverFailed(steps, hb) && DoomedList(Run(INIT, steps), a, b, hb)
  {
    var start := SweepAboutToErase(a, ha);
    var s := Run(INIT, start);
    var join := JoinsAndIsPublished(s, a, b, ha, hb, 0);
    RunConcat(INIT, start, join);
    steps := start + join;
  }

  /** Node b joins and is published, and a sweep then erases it although it never failed. */
  lemma {:induction false} SweepErasesLivePeer(a: Raft, b: Raft, ha: Http, hb: Http)
    requires a != b && ha != hb
    ensures exists steps | NeverFailed(steps, hb) ::
              Is(Run(INIT, steps), b, Running) && b in Run(INIT, steps).joined && Run(INIT, steps).published == Some([])
  {
    var meanwhile := PublishedMeanwhile(a, b, ha, hb);
    SweepErases(Run(INIT, meanwhile));
    RunSnoc(INIT, meanwhile, SweepWrite(0));
    assert NeverFailed(meanwhile + [SweepWrite(0)], hb);
  }

  // ---- an update that looked too early ----

  /** Nodes a and b form a cluster, and a has looked both up but has not published them yet. */
  function Late(a: Raft, b: Raft, ha: Http, hb: Http): State {
    State(map[a := ha, b := hb], Some([ha]), map[a := Node(ha, Running), b := Node(hb, Running)],
          map[a := [b, a]], {a, b}, map[1 := Looking(a, [b, a], [hb, ha])], map[])
  }

  lemma AboutToPublish(a: Raft, b: Raft, ha: Http, hb: Http) returns (steps: seq<Step>)
    requires a != b
    ensures Run(INIT, steps) == Late(a, b, ha, hb) && NoPing(steps)
  {
    var running := StartsAlone(a, ha);
    var s := Solo(a, ha);
    var join := JoinsAndIsFound(s, a, b, ha, hb, 1);
    assert Added(b, a, FileOf(s, a)) == [b, a];
    assert Addresses(map[a := ha, b := hb], [b, a]).value == [hb, ha];
    RunConcat(INIT, running, join);
    steps := running + join;
  }

  lemma OldListWins(s: State, a: Raft, b: Raft, ha: Http, hb: Http, hc: Http)
    requires 1 in s.updates && s.updates[1] == Looking(a, [b, a], [hb, ha]) && hc !in {ha, hb}
    ensures Next(s, Publish(1)).nodes == s.nodes && Next(s, Publish(1)).joined == s.joined
    ensures hc !in Peers(Next(s, Publish(1)))
  {
  }

  /** The update that includes c has been published; the older one has not. */
  predicate Overtaken(s: State, a: Raft, b: Raft, c: Raft, ha: Http, hb: Http, hc: Http) {
    && hc in Peers(s) && Is(s, c, Running) && c in s.joined
    && 1 in s.updates && s.updates[1] == Looking(a, [b, a], [hb, ha])
  }

  lemma ThirdPublished(a: Raft, b: Raft, c: Raft, ha: Http, hb: Http, hc: Http) returns (steps: seq<Step>)
    requires a != b && a != c && b != c
    ensures NoPing(steps) && Overtaken(Run(INIT, steps), a, b, c, ha, hb, hc)
  {
    var start := AboutToPublish(a, b, ha, hb);
    var s := Late(a, b, ha, hb);
    var join := JoinsAndIsPublished(s, a, c, ha, hc, 2);
    RunConcat(INIT, start, join);
    steps := start + join;
  }

  /** Without any sweep: an update that had seen only a and b is published last, and drops c, which has joined. */
  lemma {:induction false} StaleUpdateErasesLivePeer(a: Raft, b: Raft, c: Raft, ha: Http, hb: Http, hc: Http)
    requires a != b && a != c && b != c && hc !in {ha, hb}
    ensures exists steps | NoPing(steps) ::
              hc in Peers(Run(INIT, steps)) && hc !in Peers(Run(INIT, steps + [Publish(1)])) &&
              Is(Run(INIT, steps + [Publish(1)]), c, Running) && c in Run(INIT, steps + [Publish(1)]).joined
  {
    var steps := ThirdPublished(a, b, c, ha, hb, hc);
    OldListWins(Run(INIT, steps), a, b, ha, hb, hc);
    RunSnoc(INIT, steps, Publish(1));
  }
}
