/** How the published list loses peers: three kinds of step overwrite it with what they had read before. */
module LostPeers {
  import opened Wrappers
  import opened DbMaster
  import opened Membership

  // ---- a sweep ----

  ghost predicate ReadsNow(s: State, w: Id) {
    w in s.sweeps && s.sweeps[w].Failed? && exists p | p in Peers(s) :: p in s.sweeps[w].gone
  }

  /** What sweep w is about to write before step n, it read at step m. */
  ghost predicate SweepFrom(steps: seq<Step>, m: nat, n: nat, w: Id)
    requires m < n <= |steps|
  {
    && steps[m] == SweepRead(w) && ReadsNow(At(steps, m), w)
    && forall k | m < k < n :: steps[k] != SweepWrite(w) && !(steps[k].Ping? && steps[k].w == w)
  }

  lemma WritingStays(s: State, step: Step, w: Id)
    requires w in s.sweeps && s.sweeps[w].Writing? && step != SweepWrite(w) && !(step.Ping? && step.w == w)
    ensures w in Next(s, step).sweeps && Next(s, step).sweeps[w] == s.sweeps[w]
  {
  }

  lemma WritingBegins(s: State, step: Step, w: Id)
    requires w in Next(s, step).sweeps && Next(s, step).sweeps[w].Writing?
    ensures (step == SweepRead(w) && ReadsNow(s, w)) ||
            (w in s.sweeps && s.sweeps[w].Writing? && step != SweepWrite(w) && !(step.Ping? && step.w == w))
  {
  }

  lemma ReadStep(s: State, w: Id)
    requires ReadsNow(s, w)
    ensures var t := Next(s, SweepRead(w));
            w in t.sweeps && t.sweeps[w] == Writing(Keep(Peers(s), s.sweeps[w].gone))
  {
  }

  lemma {:induction false} SweepHolds(steps: seq<Step>, m: nat, n: nat, w: Id)
    requires m < n <= |steps| && SweepFrom(steps, m, n, w)
    ensures w in At(steps, n).sweeps
    ensures At(steps, n).sweeps[w] == Writing(Keep(Peers(At(steps, m)), At(steps, m).sweeps[w].gone))
  {
    var last := n - 1;
    AtNext(steps, last);
    if m < last {
      SweepHolds(steps, m, last, w);
      WritingStays(At(steps, last), steps[last], w);
    } else {
      ReadStep(At(steps, m), w);
    }
  }

  lemma {:induction false} SweepHasRead(steps: seq<Step>, n: nat, w: Id)
    requires n <= |steps| && w in At(steps, n).sweeps && At(steps, n).sweeps[w].Writing?
    ensures exists m | 0 <= m < n :: SweepFrom(steps, m, n, w)
  {
    if n > 0 {
      AtNext(steps, n - 1);
      WritingBegins(At(steps, n - 1), steps[n - 1], w);
      if steps[n - 1] == SweepRead(w) && ReadsNow(At(steps, n - 1), w) {
        assert SweepFrom(steps, n - 1, n, w);
      } else {
        SweepHasRead(steps, n - 1, w);
        var m :| 0 <= m < n - 1 && SweepFrom(steps, m, n - 1, w);
        assert SweepFrom(steps, m, n, w);
      }
    }
  }

  /** Step n writes a sweep's list, which the sweep had read at a step where p was not in it, or had failed. */
  ghost predicate SweepLoses(steps: seq<Step>, n: nat, p: Http)
    requires n < |steps|
  {
    steps[n].SweepWrite? && exists m | 0 <= m < n && SweepFrom(steps, m, n, steps[n].w) ::
      p !in Peers(At(steps, m)) || p in At(steps, m).sweeps[steps[n].w].gone
  }

  lemma SweepWrites(s: State, w: Id, kept: seq<Http>)
    requires w in s.sweeps && s.sweeps[w] == Writing(kept)
    ensures forall p :: p in Peers(Next(s, SweepWrite(w))) <==> p in kept
    ensures Peers(Next(s, SweepWrite(w))) == [] <==> kept == []
    ensures multiset(Peers(Next(s, SweepWrite(w)))) == multiset(kept)
  {
  }

  lemma NothingToWrite(s: State, w: Id)
    requires !(w in s.sweeps && s.sweeps[w].Writing?)
    ensures Next(s, SweepWrite(w)) == s
  {
  }

  lemma SweepWritesRead(steps: seq<Step>, m: nat, n: nat, w: Id)
    requires m < n < |steps| && SweepFrom(steps, m, n, w) && steps[n] == SweepWrite(w)
    ensures forall p :: p in Peers(At(steps, n + 1)) <==> p in Peers(At(steps, m)) && p !in At(steps, m).sweeps[w].gone
    ensures forall p :: multiset(Peers(At(steps, n + 1)))[p] ==
                        if p in At(steps, m).sweeps[w].gone then 0 else multiset(Peers(At(steps, m)))[p]
  {
    KeepCounts(Peers(At(steps, m)), At(steps, m).sweeps[w].gone);
    SweepHolds(steps, m, n, w);
    AtNext(steps, n);
    SweepWrites(At(steps, n), w, Keep(Peers(At(steps, m)), At(steps, m).sweeps[w].gone));
  }

  lemma SweepWriteIff(steps: seq<Step>, n: nat, w: Id)
    requires n < |steps| && steps[n] == SweepWrite(w)
    ensures (exists m | 0 <= m < n :: SweepFrom(steps, m, n, w)) || At(steps, n + 1) == At(steps, n)
  {
    var s := At(steps, n);
    if w in s.sweeps && s.sweeps[w].Writing? {
      SweepHasRead(steps, n, w);
    } else {
      AtNext(steps, n);
      NothingToWrite(s, w);
    }
  }

  lemma SweepLosesIff(steps: seq<Step>, n: nat, p: Http)
    requires n < |steps| && steps[n].SweepWrite? && p in Peers(At(steps, n))
    ensures p !in Peers(At(steps, n + 1)) <==> SweepLoses(steps, n, p)
  {
    var w := steps[n].w;
    SweepWriteIff(steps, n, w);
    forall m | 0 <= m < n && SweepFrom(steps, m, n, w)
      ensures p !in Peers(At(steps, n + 1)) <==> p !in Peers(At(steps, m)) || p in At(steps, m).sweeps[w].gone
    {
      SweepWritesRead(steps, m, n, w);
    }
  }

  // ---- an update ----

  predicate Begins(s: State, step: Step, u: Id) {
    step == StartUpdate(u) && u in s.updates && s.updates[u].Due? && s.updates[u].leader in s.nodes
  }

  /** What the update reads when it begins: the leader's file of Raft peers. */
  function View(s: State, u: Id): seq<Raft>
    requires u in s.updates
  {
    FileOf(s, s.updates[u].leader)
  }

  predicate IsLooking(s: State, u: Id) {
    u in s.updates && s.updates[u].Looking?
  }

  predicate Ends(s: State, step: Step, u: Id) {
    step == Publish(u) && u in s.updates && s.updates[u].Finished()
  }

  /** The look-up finds that p is registered for the next Raft peer of the view. */
  predicate Finds(s: State, step: Step, u: Id, p: Http) {
    && step == LookUp(u) && IsLooking(s, u) && !s.updates[u].Finished()
    && Lookup(s.registry, s.updates[u].view[|s.updates[u].found|]) == Some(p)
  }

  /** A leader that sees no Raft peers publishes itself. */
  predicate Itself(s: State, step: Step, u: Id, p: Http) {
    Begins(s, step, u) && View(s, u) == [] && s.nodes[s.updates[u].leader].http == p
  }

  /** Update u, under way before step n, saw its Raft peers at step m. */
  predicate UpdateFrom(steps: seq<Step>, m: nat, n: nat, u: Id)
    requires m < n <= |steps|
  {
    && Begins(At(steps, m), steps[m], u)
    && forall k | m < k < n :: !Begins(At(steps, k), steps[k], u) && !Ends(At(steps, k), steps[k], u)
  }

  lemma UpdateBegins(s: State, step: Step, u: Id)
    requires IsLooking(Next(s, step), u)
    ensures Begins(s, step, u) || (IsLooking(s, u) && !Ends(s, step, u))
  {
  }

  lemma UpdateGoesOn(steps: seq<Step>, n: nat, u: Id)
    requires n < |steps| && !Begins(At(steps, n), steps[n], u) && !Ends(At(steps, n), steps[n], u)
    ensures forall m | 0 <= m < n && UpdateFrom(steps, m, n, u) :: UpdateFrom(steps, m, n + 1, u)
  {
  }

  lemma {:induction false} UpdateHasStart(steps: seq<Step>, n: nat, u: Id)
    requires n <= |steps| && IsLooking(At(steps, n), u)
    ensures exists m | 0 <= m < n :: UpdateFrom(steps, m, n, u)
  {
    if n > 0 {
      var last := n - 1;
      var s := At(steps, last);
      AtNext(steps, last);
      UpdateBegins(s, steps[last], u);
      if Begins(s, steps[last], u) {
        assert UpdateFrom(steps, last, n, u);
      } else {
        UpdateHasStart(steps, last, u);
        UpdateGoesOn(steps, last, u);
      }
    }
  }

  lemma FoundStep(s: State, step: Step, u: Id, p: Http)
    requires IsLooking(Next(s, step), u) && !Begins(s, step, u)
    ensures IsLooking(s, u) && Next(s, step).updates[u].view == s.updates[u].view
    ensures p in Next(s, step).updates[u].found <==> p in s.updates[u].found || Finds(s, step, u, p)
  {
  }

  lemma StartStep(s: State, step: Step, u: Id)
    requires Begins(s, step, u)
    ensures IsLooking(Next(s, step), u) && Next(s, step).updates[u].view == View(s, u)
    ensures forall p :: p in Next(s, step).updates[u].found <==> Itself(s, step, u, p)
    ensures View(s, u) != [] ==> Next(s, step).updates[u].found == []
  {
  }

  lemma {:induction false} ViewKept(steps: seq<Step>, m: nat, n: nat, u: Id)
    requires m < n <= |steps| && UpdateFrom(steps, m, n, u) && IsLooking(At(steps, n), u)
    ensures At(steps, n).updates[u].view == View(At(steps, m), u)
  {
    var last := n - 1;
    AtNext(steps, last);
    if m == last {
      StartStep(At(steps, m), steps[m], u);
    } else {
      FoundStep(At(steps, last), steps[last], u, []);
      ViewKept(steps, m, last, u);
    }
  }

  /** Some look-up of the update between steps m and n finds p. */
  predicate SomeFind(steps: seq<Step>, m: nat, n: nat, u: Id, p: Http)
    requires m < n <= |steps|
  {
    exists k | m < k < n :: Finds(At(steps, k), steps[k], u, p)
  }

  lemma SomeFindNext(steps: seq<Step>, m: nat, n: nat, u: Id, p: Http)
    requires m < n < |steps|
    ensures SomeFind(steps, m, n + 1, u, p) <==>
            SomeFind(steps, m, n, u, p) || Finds(At(steps, n), steps[n], u, p)
  {
  }

  lemma {:induction false} FoundIff(steps: seq<Step>, m: nat, n: nat, u: Id, p: Http)
    requires m < n <= |steps| && UpdateFrom(steps, m, n, u) && IsLooking(At(steps, n), u)
    ensures p in At(steps, n).updates[u].found <==>
            Itself(At(steps, m), steps[m], u, p) || SomeFind(steps, m, n, u, p)
  {
    var last := n - 1;
    AtNext(steps, last);
    if m == last {
      StartStep(At(steps, m), steps[m], u);
    } else {
      FoundStep(At(steps, last), steps[last], u, p);
      FoundIff(steps, m, last, u, p);
      SomeFindNext(steps, m, last, u, p);
    }
  }

  /** Step n publishes an update that had seen its Raft peers before, and found p for none of them. */
  ghost predicate UpdateLoses(steps: seq<Step>, n: nat, p: Http)
    requires n < |steps|
  {
    steps[n].Publish? && Ends(At(steps, n), steps[n], steps[n].u) &&
    exists m | 0 <= m < n && UpdateFrom(steps, m, n, steps[n].u) ::
      !Itself(At(steps, m), steps[m], steps[n].u, p) && !SomeFind(steps, m, n, steps[n].u, p)
  }

  lemma UpdateLosesIff(steps: seq<Step>, n: nat, p: Http)
    requires n < |steps| && steps[n].Publish? && p in Peers(At(steps, n))
    ensures p !in Peers(At(steps, n + 1)) <==> UpdateLoses(steps, n, p)
  {
    AtNext(steps, n);
    var u := steps[n].u;
    if Ends(At(steps, n), steps[n], u) {
      UpdateHasStart(steps, n, u);
      forall m | 0 <= m < n && UpdateFrom(steps, m, n, u)
        ensures p !in Peers(At(steps, n + 1)) <==>
                !Itself(At(steps, m), steps[m], u, p) && !SomeFind(steps, m, n, u, p)
      {
        FoundIff(steps, m, n, u, p);
      }
    }
  }

  // ---- every step ----

  /** A node that has read an empty list publishes itself only. */
  predicate FirstNodeLoses(steps: seq<Step>, n: nat, p: Http)
    requires n < |steps|
  {
    steps[n].PublishSelf? && PublishesItself(At(steps, n), steps[n].raft, p)
  }

  predicate PublishesItself(s: State, raft: Raft, p: Http) {
    raft in s.nodes && s.nodes[raft].phase.Opened? && s.nodes[raft].http != p
  }

  lemma OtherStepsKeepList(s: State, step: Step, p: Http)
    requires !step.SweepWrite? && !step.Publish? && p in Peers(s)
    ensures p !in Peers(Next(s, step)) <==> step.PublishSelf? && PublishesItself(s, step.raft, p)
  {
  }

  /**
   In every run, and for every step: a published peer leaves the list if and only if the step is a
   sweep's write, and the list that the sweep had read did not have it or it had failed; or an
   update's publication, and no look-up of the update found it; or that of a node which had read an
   empty list and publishes itself.
   */
  lemma LeavesIff(steps: seq<Step>, n: nat, p: Http)
    requires n < |steps| && p in Peers(At(steps, n))
    ensures p !in Peers(At(steps, n + 1)) <==>
            SweepLoses(steps, n, p) || UpdateLoses(steps, n, p) || FirstNodeLoses(steps, n, p)
  {
    if steps[n].SweepWrite? {
      SweepLosesIff(steps, n, p);
    } else if steps[n].Publish? {
      UpdateLosesIff(steps, n, p);
    } else {
      AtNext(steps, n);
      OtherStepsKeepList(At(steps, n), steps[n], p);
    }
  }

  /** Step n writes a sweep's list, and p was in the list that it had read, and had not failed. */
  ghost predicate SweepBrings(steps: seq<Step>, n: nat, p: Http)
    requires n < |steps|
  {
    steps[n].SweepWrite? && exists m | 0 <= m < n && SweepFrom(steps, m, n, steps[n].w) ::
      p in Peers(At(steps, m)) && p !in At(steps, m).sweeps[steps[n].w].gone
  }

  /** Step n publishes an update that had found p for one of the Raft peers that it had seen. */
  ghost predicate UpdateBrings(steps: seq<Step>, n: nat, p: Http)
    requires n < |steps|
  {
    steps[n].Publish? && Ends(At(steps, n), steps[n], steps[n].u) &&
    exists m | 0 <= m < n && UpdateFrom(steps, m, n, steps[n].u) ::
      Itself(At(steps, m), steps[m], steps[n].u, p) || SomeFind(steps, m, n, steps[n].u, p)
  }

  /** A node that has read an empty list publishes p, which is its own address. */
  predicate FirstNodeBrings(s: State, step: Step, p: Http) {
    step.PublishSelf? && step.raft in s.nodes && s.nodes[step.raft].phase.Opened? && s.nodes[step.raft].http == p
  }

  lemma SweepBringsIff(steps: seq<Step>, n: nat, p: Http)
    requires n < |steps| && steps[n].SweepWrite? && p !in Peers(At(steps, n))
    ensures p in Peers(At(steps, n + 1)) <==> SweepBrings(steps, n, p)
  {
    var w := steps[n].w;
    SweepWriteIff(steps, n, w);
    forall m | 0 <= m < n && SweepFrom(steps, m, n, w)
      ensures p in Peers(At(steps, n + 1)) <==> p in Peers(At(steps, m)) && p !in At(steps, m).sweeps[w].gone
    {
      SweepWritesRead(steps, m, n, w);
    }
  }

  lemma NothingToPublish(s: State, u: Id)
    requires !Ends(s, Publish(u), u)
    ensures Next(s, Publish(u)) == s
  {
  }

  lemma UpdateBringsIff(steps: seq<Step>, n: nat, p: Http)
    requires n < |steps| && steps[n].Publish? && p !in Peers(At(steps, n))
    ensures p in Peers(At(steps, n + 1)) <==> UpdateBrings(steps, n, p)
  {
    AtNext(steps, n);
    var u := steps[n].u;
    if Ends(At(steps, n), steps[n], u) {
      PublishStep(At(steps, n), u, p);
      UpdateHasStart(steps, n, u);
      forall m | 0 <= m < n && UpdateFrom(steps, m, n, u)
        ensures p in Peers(At(steps, n + 1)) <==>
                Itself(At(steps, m), steps[m], u, p) || SomeFind(steps, m, n, u, p)
      {
        FoundIff(steps, m, n, u, p);
      }
    } else {
      NothingToPublish(At(steps, n), u);
    }
  }

  lemma OtherStepsBring(s: State, step: Step, p: Http)
    requires !step.SweepWrite? && !step.Publish? && p !in Peers(s)
    ensures p in Peers(Next(s, step)) <==> FirstNodeBrings(s, step, p)
  {
  }

  /**
   In every run, and for every step: an address enters the list if and only if the step is a sweep's
   write and the sweep had read it and it had not failed; or an update's publication, and a look-up
   of the update found it; or that of a node which had read an empty list and has this address.
   */
  lemma EntersIff(steps: seq<Step>, n: nat, p: Http)
    requires n < |steps| && p !in Peers(At(steps, n))
    ensures p in Peers(At(steps, n + 1)) <==>
            SweepBrings(steps, n, p) || UpdateBrings(steps, n, p) || FirstNodeBrings(At(steps, n), steps[n], p)
  {
    if steps[n].SweepWrite? {
      SweepBringsIff(steps, n, p);
    } else if steps[n].Publish? {
      UpdateBringsIff(steps, n, p);
    } else {
      AtNext(steps, n);
      OtherStepsBring(At(steps, n), steps[n], p);
    }
  }

  /** No heartbeat of the run finds that this address does not answer. */
  predicate NeverFailed(steps: seq<Step>, http: Http) {
    forall n | 0 <= n < |steps| && steps[n].Ping? :: http !in steps[n].failed
  }

  lemma GoneStep(s: State, step: Step, w: Id, p: Http)
    requires w in Next(s, step).sweeps && Next(s, step).sweeps[w].Failed? && p in Next(s, step).sweeps[w].gone
    ensures (step.Ping? && p in step.failed) || (w in s.sweeps && s.sweeps[w].Failed? && p in s.sweeps[w].gone)
  {
  }

  lemma {:induction false} NeverGone(steps: seq<Step>, n: nat, w: Id, p: Http)
    requires n <= |steps| && NeverFailed(steps, p) && w in At(steps, n).sweeps && At(steps, n).sweeps[w].Failed?
    ensures p !in At(steps, n).sweeps[w].gone
  {
    if n > 0 && p in At(steps, n).sweeps[w].gone {
      AtNext(steps, n - 1);
      GoneStep(At(steps, n - 1), steps[n - 1], w, p);
      NeverGone(steps, n - 1, w, p);
    }
  }

  /** For a peer that never fails: a sweep loses it exactly when the list that the sweep had read did not have it. */
  lemma LivePeerLeavesIff(steps: seq<Step>, n: nat, p: Http)
    requires n < |steps| && p in Peers(At(steps, n)) && NeverFailed(steps, p)
    ensures p !in Peers(At(steps, n + 1)) <==>
            (steps[n].SweepWrite? &&
              exists m | 0 <= m < n && SweepFrom(steps, m, n, steps[n].w) :: p !in Peers(At(steps, m))) ||
            UpdateLoses(steps, n, p) || FirstNodeLoses(steps, n, p)
  {
    LeavesIff(steps, n, p);
    if steps[n].SweepWrite? {
      forall m | 0 <= m < n && SweepFrom(steps, m, n, steps[n].w) ensures p !in At(steps, m).sweeps[steps[n].w].gone {
        NeverGone(steps, m, steps[n].w, p);
      }
    }
  }

  lemma OthersDoNotEmpty(s: State, known: set<Http>, step: Step)
    requires Inv(s, known) && !step.SweepWrite? && Peers(s) != []
    ensures Peers(Next(s, step)) != []
  {
  }

  ghost predicate AllGone(s: State, w: Id) {
    w in s.sweeps && s.sweeps[w].Failed? && forall p | p in Peers(s) :: p in s.sweeps[w].gone
  }

  /** Step n writes a sweep's list, and every peer that the sweep had read had failed. */
  ghost predicate SweepEmpties(steps: seq<Step>, n: nat)
    requires n < |steps|
  {
    steps[n].SweepWrite? &&
    exists m | 0 <= m < n && SweepFrom(steps, m, n, steps[n].w) :: AllGone(At(steps, m), steps[n].w)
  }

  lemma EmptyWhenAllGone(steps: seq<Step>, m: nat, n: nat, w: Id)
    requires m < n < |steps| && SweepFrom(steps, m, n, w) && steps[n] == SweepWrite(w)
    ensures Peers(At(steps, n + 1)) == [] <==> AllGone(At(steps, m), w)
  {
    SweepWritesRead(steps, m, n, w);
    var s, left := At(steps, m), Peers(At(steps, n + 1));
    if left != [] {
      var q := left[0];
      assert q in Peers(At(steps, n + 1));
      assert q in Peers(s) && q !in s.sweeps[w].gone;
    }
  }

  /** The list becomes empty exactly by the write of a sweep for which every peer that it had read had failed. */
  lemma EmptiedIff(steps: seq<Step>, n: nat)
    requires n < |steps| && Peers(At(steps, n)) != []
    ensures Peers(At(steps, n + 1)) == [] <==> SweepEmpties(steps, n)
  {
    if steps[n].SweepWrite? {
      SweepWriteIff(steps, n, steps[n].w);
      forall m | 0 <= m < n && SweepFrom(steps, m, n, steps[n].w)
        ensures Peers(At(steps, n + 1)) == [] <==> AllGone(At(steps, m), steps[n].w)
      {
        EmptyWhenAllGone(steps, m, n, steps[n].w);
      }
    } else {
      AtNext(steps, n);
      AtKeepsInv(steps, n);
      OthersDoNotEmpty(At(steps, n), Known(steps[..n]), steps[n]);
    }
  }

  // ---- an update while nobody in its view registers anew ----

  lemma RegistryStays(s: State, step: Step, r: Raft)
    requires r in s.registry && !(step.Register? && step.raft == r)
    ensures r in Next(s, step).registry && Next(s, step).registry[r] == s.registry[r]
  {
  }

  /** Up to step n none of these Raft peers registers anew. */
  lemma {:induction false} RegistryFixed(steps: seq<Step>, m: nat, n: nat, view: seq<Raft>)
    requires m <= n <= |steps| && forall r | r in view :: r in At(steps, m).registry
    requires forall k | m <= k < n && steps[k].Register? :: steps[k].raft !in view
    ensures forall r | r in view :: Lookup(At(steps, n).registry, r) == Lookup(At(steps, m).registry, r)
  {
    if m < n {
      RegistryFixed(steps, m, n - 1, view);
      AtNext(steps, n - 1);
      forall r | r in view ensures Lookup(At(steps, n).registry, r) == Lookup(At(steps, m).registry, r) {
        RegistryStays(At(steps, n - 1), steps[n - 1], r);
      }
    }
  }

  /** The addresses found so far are those of the first peers of the view. */
  predicate Collected(update: Update, registry: map<Raft, Http>)
    requires update.Looking?
  {
    && |update.found| <= |update.view|
    && forall i | 0 <= i < |update.found| :: Lookup(registry, update.view[i]) == Some(update.found[i])
  }

  lemma CollectStep(s: State, step: Step, u: Id, registry: map<Raft, Http>)
    requires IsLooking(Next(s, step), u) && !Begins(s, step, u) && IsLooking(s, u)
    requires Collected(s.updates[u], registry)
    requires forall r | r in s.updates[u].view :: Lookup(s.registry, r) == Lookup(registry, r)
    ensures Collected(Next(s, step).updates[u], registry)
  {
  }

  lemma {:induction false} Collects(steps: seq<Step>, m: nat, n: nat, u: Id)
    requires m < n <= |steps| && UpdateFrom(steps, m, n, u) && IsLooking(At(steps, n), u) && View(At(steps, m), u) != []
    requires forall k | m < k < n && steps[k].Register? :: steps[k].raft !in View(At(steps, m), u)
    ensures Collected(At(steps, n).updates[u], At(steps, m).registry)
  {
    var last := n - 1;
    AtNext(steps, last);
    if m == last {
      StartStep(At(steps, m), steps[m], u);
    } else {
      FoundStep(At(steps, last), steps[last], u, []);
      Collects(steps, m, last, u);
      ViewKept(steps, m, last, u);
      AtKeepsInv(steps, m);
      RegistryFixed(steps, m, last, View(At(steps, m), u));
      CollectStep(At(steps, last), steps[last], u, At(steps, m).registry);
    }
  }

  lemma PublishStep(s: State, u: Id, p: Http)
    requires Ends(s, Publish(u), u)
    ensures p in Peers(Next(s, Publish(u))) <==> p in s.updates[u].found
    ensures multiset(Peers(Next(s, Publish(u)))) == multiset(s.updates[u].found)
  {
  }

  /**
   Whatever happens between an update's look at its Raft peers and its publication, as long as none
   of them registers anew: it publishes exactly the addresses that they had when it looked, so that
   it drops whoever is not among them.
   */
  lemma UpdatePublishesIff(steps: seq<Step>, m: nat, n: nat, p: Http)
    requires m < n < |steps| && steps[n].Publish? && UpdateFrom(steps, m, n, steps[n].u)
    requires Ends(At(steps, n), steps[n], steps[n].u) && View(At(steps, m), steps[n].u) != []
    requires forall k | m < k < n && steps[k].Register? :: steps[k].raft !in View(At(steps, m), steps[n].u)
    ensures p in Peers(At(steps, n + 1)) <==>
            exists r | r in View(At(steps, m), steps[n].u) :: Lookup(At(steps, m).registry, r) == Some(p)
    ensures var found := Addresses(At(steps, m).registry, View(At(steps, m), steps[n].u));
            found.Some? && multiset(Peers(At(steps, n + 1))) == multiset(found.value)
  {
    AtNext(steps, n);
    PublishStep(At(steps, n), steps[n].u, p);
    Collects(steps, m, n, steps[n].u);
    ViewKept(steps, m, n, steps[n].u);
    FoundAmong(At(steps, n).updates[steps[n].u], At(steps, m).registry, p);
    AtKeepsInv(steps, m);
    FoundAreAddresses(At(steps, n).updates[steps[n].u], At(steps, m).registry);
  }

  lemma FoundAreAddresses(update: Update, registry: map<Raft, Http>)
    requires update.Finished() && Collected(update, registry) && forall r | r in update.view :: r in registry
    ensures Addresses(registry, update.view) == Some(update.found)
  {
    assert Addresses(registry, update.view).value == update.found;
  }

  lemma FoundAmong(update: Update, registry: map<Raft, Http>, p: Http)
    requires update.Finished() && Collected(update, registry)
    ensures p in update.found <==> exists r | r in update.view :: Lookup(registry, r) == Some(p)
  {
    forall i | 0 <= i < |update.view| ensures update.view[i] in update.view && update.found[i] in update.found {
    }
  }
}
