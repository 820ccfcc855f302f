/**
 What each part of the state of `Membership` says about the run that led to it: who runs, who has
 joined, what is on a node's disk, which calls are under way, whom a sweep is going to remove.
 */
module MembershipHistory {
  import opened Wrappers
  import opened History
  import opened Membership
  import opened LostPeers

  predicate Registers(step: Step, raft: Raft) {
    step.Register? && step.raft == raft
  }

  function RegistersAt(steps: seq<Step>, raft: Raft): nat -> bool {
    (n: nat) => n < |steps| && Registers(steps[n], raft)
  }

  // ---- registration ----

  function AddressOf(s: State, raft: Raft): Option<Http> {
    if raft in s.nodes then Some(s.nodes[raft].http) else None
  }

  lemma RegistryStep(s: State, step: Step, raft: Raft)
    ensures Lookup(Next(s, step).registry, raft) ==
            if Registers(step, raft) then Some(step.http) else Lookup(s.registry, raft)
  {
  }

  lemma AddressStep(s: State, step: Step, raft: Raft)
    ensures AddressOf(Next(s, step), raft) == if Registers(step, raft) then Some(step.http) else AddressOf(s, raft)
  {
  }

  function AddressesOf(steps: seq<Step>, raft: Raft): nat -> (Option<Http>, Option<Http>) {
    (n: nat) =>
      if n <= |steps| then (AddressOf(At(steps, n), raft), Lookup(At(steps, n).registry, raft)) else (None, None)
  }

  lemma AddressKept(steps: seq<Step>, m: nat, n: nat, raft: Raft)
    requires m <= n <= |steps| && forall k: nat | m <= k < n :: !RegistersAt(steps, raft)(k)
    ensures AddressesOf(steps, raft)(n) == AddressesOf(steps, raft)(m)
  {
    forall k: nat | m <= k < n && !RegistersAt(steps, raft)(k)
      ensures AddressesOf(steps, raft)(k + 1) == AddressesOf(steps, raft)(k)
    {
      AtNext(steps, k);
      RegistryStep(At(steps, k), steps[k], raft);
      AddressStep(At(steps, k), steps[k], raft);
    }
    KeptSince(RegistersAt(steps, raft), AddressesOf(steps, raft), m, n);
  }

  /** A node's address, in the node itself and in the meta store, is that of its last registration. */
  lemma RegisteredAs(steps: seq<Step>, m: nat, n: nat, raft: Raft)
    requires n <= |steps| && Since(RegistersAt(steps, raft), RegistersAt(steps, raft), m, n)
    ensures AddressOf(At(steps, n), raft) == Lookup(At(steps, n).registry, raft) == Some(steps[m].http)
  {
    AtNext(steps, m);
    RegistryStep(At(steps, m), steps[m], raft);
    AddressStep(At(steps, m), steps[m], raft);
    AddressKept(steps, m + 1, n, raft);
  }

  /** Before the first there is none. */
  lemma NotRegistered(steps: seq<Step>, n: nat, raft: Raft)
    requires n <= |steps| && forall k: nat | k < n :: !RegistersAt(steps, raft)(k)
    ensures AddressOf(At(steps, n), raft) == Lookup(At(steps, n).registry, raft) == None
  {
    AddressKept(steps, 0, n, raft);
  }

  // ---- phases ----

  /** A running node that does not know the joining one yet adds it to its Raft peers. */
  predicate LetsIn(s: State, step: Step) {
    && step.HandleJoin? && Is(s, step.leader, Running) && Is(s, step.raft, Joining)
    && step.raft !in FileOf(s, step.leader) && step.u !in s.updates
  }

  /** A joining node is let in and hears of it. */
  predicate IsLetIn(s: State, step: Step, raft: Raft) {
    LetsIn(s, step) && step.raft == raft && step.committed && step.heard
  }

  /** How a node opens its store after it has read this list. */
  function Opening(raft: Raft, peers: seq<Http>): Step {
    if peers == [] then OpenSingle(raft) else OpenToJoin(raft)
  }

  predicate Enters(s: State, step: Step, raft: Raft, phase: Phase) {
    match phase
    case Registered => Registers(step, raft)
    case Fetched(peers) => step == FetchPeers(raft) && Is(s, raft, Registered) && Peers(s) == peers
    case Opened(alone) =>
      step == OpenSingle(raft) && Is(s, raft, Fetched([])) && alone == ElectsItself(raft, FileOf(s, raft))
    case Joining =>
      step == OpenToJoin(raft) && raft in s.nodes && s.nodes[raft].phase.Fetched? && s.nodes[raft].phase.peers != []
    case Running =>
      (step == PublishSelf(raft) && raft in s.nodes && s.nodes[raft].phase.Opened?) || IsLetIn(s, step, raft)
  }

  predicate Leaves(s: State, step: Step, raft: Raft, phase: Phase) {
    Registers(step, raft) ||
    match phase
    case Registered => step == FetchPeers(raft)
    case Fetched(peers) => step == Opening(raft, peers)
    case Opened(_) => step == PublishSelf(raft)
    case Joining => IsLetIn(s, step, raft)
    case Running => false
  }

  predicate PhaseTurns(s: State, step: Step, raft: Raft, phase: Phase) {
    Is(Next(s, step), raft, phase) <==>
    Enters(s, step, raft, phase) || (Is(s, raft, phase) && !Leaves(s, step, raft, phase))
  }

  predicate Concerns(step: Step, raft: Raft) {
    (step.Register? || step.FetchPeers? || step.OpenSingle? || step.PublishSelf? || step.OpenToJoin? ||
     step.HandleJoin?) && step.raft == raft
  }

  lemma OthersLeavePhase(s: State, step: Step, raft: Raft)
    requires !Concerns(step, raft)
    ensures forall phase :: Is(Next(s, step), raft, phase) <==> Is(s, raft, phase)
  {
  }

  lemma RegisterTurns(s: State, step: Step, raft: Raft, phase: Phase)
    requires step.Register? && step.raft == raft
    ensures PhaseTurns(s, step, raft, phase)
  {
  }

  lemma FetchTurns(s: State, step: Step, raft: Raft, phase: Phase)
    requires step.FetchPeers? && step.raft == raft
    ensures PhaseTurns(s, step, raft, phase)
  {
  }

  lemma OpenSingleTurns(s: State, step: Step, raft: Raft, phase: Phase)
    requires step.OpenSingle? && step.raft == raft
    ensures PhaseTurns(s, step, raft, phase)
  {
  }

  lemma PublishTurns(s: State, step: Step, raft: Raft, phase: Phase)
    requires step.PublishSelf? && step.raft == raft
    ensures PhaseTurns(s, step, raft, phase)
  {
  }

  lemma OpenToJoinTurns(s: State, step: Step, raft: Raft, phase: Phase)
    requires step.OpenToJoin? && step.raft == raft
    ensures PhaseTurns(s, step, raft, phase)
  {
  }

  lemma JoinTurns(s: State, step: Step, raft: Raft, phase: Phase)
    requires step.HandleJoin? && step.raft == raft
    ensures PhaseTurns(s, step, raft, phase)
  {
  }

  lemma EveryPhaseTurns(s: State, step: Step, raft: Raft, phase: Phase)
    ensures PhaseTurns(s, step, raft, phase)
  {
    if !Concerns(step, raft) {
      OthersLeavePhase(s, step, raft);
    } else {
      match step
      case Register(_, _) => RegisterTurns(s, step, raft, phase);
      case FetchPeers(_) => FetchTurns(s, step, raft, phase);
      case OpenSingle(_) => OpenSingleTurns(s, step, raft, phase);
      case PublishSelf(_) => PublishTurns(s, step, raft, phase);
      case OpenToJoin(_) => OpenToJoinTurns(s, step, raft, phase);
      case HandleJoin(_, _, _, _, _) => JoinTurns(s, step, raft, phase);
    }
  }

  function EntersAt(steps: seq<Step>, raft: Raft, phase: Phase): nat -> bool {
    (n: nat) => n < |steps| && Enters(At(steps, n), steps[n], raft, phase)
  }

  function LeavesAt(steps: seq<Step>, raft: Raft, phase: Phase): nat -> bool {
    (n: nat) => n < |steps| && Leaves(At(steps, n), steps[n], raft, phase)
  }

  /** A node is in a phase exactly from a step that took it there until one takes it on or it starts anew. */
  lemma PhaseIff(steps: seq<Step>, n: nat, raft: Raft, phase: Phase)
    requires n <= |steps|
    ensures Is(At(steps, n), raft, phase) <==>
            exists m: nat :: Since(EntersAt(steps, raft, phase), LeavesAt(steps, raft, phase), m, n)
  {
    var holds: nat -> bool := (k: nat) => k <= |steps| && Is(At(steps, k), raft, phase);
    forall k: nat | k < n
      ensures holds(k + 1) <==> EntersAt(steps, raft, phase)(k) || (holds(k) && !LeavesAt(steps, raft, phase)(k))
    {
      AtNext(steps, k);
      EveryPhaseTurns(At(steps, k), steps[k], raft, phase);
    }
    HoldsSince(EntersAt(steps, raft, phase), LeavesAt(steps, raft, phase), holds, n);
  }

  // ---- who is a member ----

  /** The step makes the node a member: it comes up as a cluster of its own, or is added to one, or adds to its own. */
  predicate MakesMember(s: State, step: Step, raft: Raft) {
    || (step == OpenSingle(raft) && Is(s, raft, Fetched([])) && ElectsItself(raft, FileOf(s, raft)))
    || (LetsIn(s, step) && (step.raft == raft || step.leader == raft))
  }

  function MakesMemberAt(steps: seq<Step>, raft: Raft): nat -> bool {
    (n: nat) => n < |steps| && MakesMember(At(steps, n), steps[n], raft)
  }

  lemma MemberStep(s: State, step: Step, raft: Raft)
    ensures raft in Next(s, step).joined <==> raft in s.joined || MakesMember(s, step, raft)
  {
  }

  /** A node is a member exactly if a step has made it one. */
  lemma MemberIff(steps: seq<Step>, n: nat, raft: Raft)
    requires n <= |steps|
    ensures raft in At(steps, n).joined <==> exists m: nat :: Since(MakesMemberAt(steps, raft), Never(), m, n)
  {
    var member: nat -> bool := (k: nat) => k <= |steps| && raft in At(steps, k).joined;
    forall k: nat | k < n ensures member(k + 1) <==> MakesMemberAt(steps, raft)(k) || (member(k) && !Never()(k)) {
      AtNext(steps, k);
      MemberStep(At(steps, k), steps[k], raft);
    }
    HoldsSince(MakesMemberAt(steps, raft), Never(), member, n);
  }

  // ---- the files of Raft peers ----

  predicate Writes(s: State, step: Step, raft: Raft) {
    || (LetsIn(s, step) && step.leader == raft)
    || (step.LearnPeers? && step.raft == raft && IsOpen(s, raft) && forall r | r in step.peers :: r in s.joined)
  }

  function WritesAt(steps: seq<Step>, raft: Raft): nat -> bool {
    (n: nat) => n < |steps| && Writes(At(steps, n), steps[n], raft)
  }

  /** The peers written: those of a Raft entry, or the added one, the leader, and the other peers it had. */
  ghost predicate Wrote(s: State, step: Step, raft: Raft, file: seq<Raft>) {
    if step.LearnPeers? then file == step.peers
    else step.HandleJoin? &&
         forall r :: multiset(file)[r] == (if r == step.raft then 1 else 0) +
                                          (if r == raft then 1 else multiset(FileOf(s, raft))[r])
  }

  lemma JoinWrites(s: State, step: Step, raft: Raft)
    requires LetsIn(s, step) && step.leader == raft
    ensures Wrote(s, step, raft, FileOf(Next(s, step), raft))
  {
  }

  lemma OthersLeaveFile(s: State, step: Step, raft: Raft)
    requires !Writes(s, step, raft)
    ensures FileOf(Next(s, step), raft) == FileOf(s, raft)
  {
  }

  lemma FileStep(s: State, step: Step, raft: Raft)
    ensures if Writes(s, step, raft) then Wrote(s, step, raft, FileOf(Next(s, step), raft))
            else FileOf(Next(s, step), raft) == FileOf(s, raft)
  {
    if LetsIn(s, step) && step.leader == raft {
      JoinWrites(s, step, raft);
    } else if !Writes(s, step, raft) {
      OthersLeaveFile(s, step, raft);
    }
  }

  function Files(steps: seq<Step>, raft: Raft): nat -> seq<Raft> {
    (n: nat) => if n <= |steps| then FileOf(At(steps, n), raft) else []
  }

  lemma FileStays(steps: seq<Step>, k: nat, raft: Raft)
    requires k < |steps| && !WritesAt(steps, raft)(k)
    ensures Files(steps, raft)(k + 1) == Files(steps, raft)(k)
  {
    AtNext(steps, k);
    FileStep(At(steps, k), steps[k], raft);
  }

  lemma FileKept(steps: seq<Step>, m: nat, n: nat, raft: Raft)
    requires m <= n <= |steps| && forall k: nat | m <= k < n :: !WritesAt(steps, raft)(k)
    ensures Files(steps, raft)(n) == Files(steps, raft)(m)
  {
    forall k: nat | m <= k < n && !WritesAt(steps, raft)(k)
      ensures Files(steps, raft)(k + 1) == Files(steps, raft)(k)
    {
      FileStays(steps, k, raft);
    }
    KeptSince(WritesAt(steps, raft), Files(steps, raft), m, n);
  }

  /** The file names what was last written into it, however often the node has restarted. */
  lemma FileIsAsWritten(steps: seq<Step>, m: nat, n: nat, raft: Raft)
    requires n <= |steps| && Since(WritesAt(steps, raft), WritesAt(steps, raft), m, n)
    ensures Wrote(At(steps, m), steps[m], raft, FileOf(At(steps, n), raft))
  {
    AtNext(steps, m);
    FileStep(At(steps, m), steps[m], raft);
    FileKept(steps, m + 1, n, raft);
  }

  /** And nobody before the first write. */
  lemma FileIsEmpty(steps: seq<Step>, n: nat, raft: Raft)
    requires n <= |steps| && forall k: nat | k < n :: !WritesAt(steps, raft)(k)
    ensures FileOf(At(steps, n), raft) == []
  {
    FileKept(steps, 0, n, raft);
  }

  // ---- updates ----

  predicate IsDue(s: State, u: Id, leader: Raft) {
    u in s.updates && s.updates[u] == Due(leader)
  }

  predicate MakesDue(s: State, step: Step, u: Id, leader: Raft) {
    LetsIn(s, step) && step.committed && step.u == u && step.leader == leader
  }

  function MakesDueAt(steps: seq<Step>, u: Id, leader: Raft): nat -> bool {
    (n: nat) => n < |steps| && MakesDue(At(steps, n), steps[n], u, leader)
  }

  /** The update begins, or dies with its process. */
  function BeginsOrDiesAt(steps: seq<Step>, u: Id, leader: Raft): nat -> bool {
    (n: nat) => n < |steps| && (Begins(At(steps, n), steps[n], u) || Registers(steps[n], leader))
  }

  lemma DueStep(s: State, step: Step, u: Id, leader: Raft)
    ensures IsDue(Next(s, step), u, leader) <==>
            MakesDue(s, step, u, leader) ||
            (IsDue(s, u, leader) && !Begins(s, step, u) && !Registers(step, leader))
  {
  }

  /** An update is due exactly when its leader let a node in, and neither began it nor started anew since. */
  lemma DueIff(steps: seq<Step>, n: nat, u: Id, leader: Raft)
    requires n <= |steps|
    ensures IsDue(At(steps, n), u, leader) <==>
            exists m: nat :: Since(MakesDueAt(steps, u, leader), BeginsOrDiesAt(steps, u, leader), m, n)
  {
    var due: nat -> bool := (k: nat) => k <= |steps| && IsDue(At(steps, k), u, leader);
    forall k: nat | k < n
      ensures due(k + 1) <==>
              MakesDueAt(steps, u, leader)(k) || (due(k) && !BeginsOrDiesAt(steps, u, leader)(k))
    {
      AtNext(steps, k);
      DueStep(At(steps, k), steps[k], u, leader);
    }
    HoldsSince(MakesDueAt(steps, u, leader), BeginsOrDiesAt(steps, u, leader), due, n);
  }

  predicate IsLookingFor(s: State, u: Id, leader: Raft) {
    IsLooking(s, u) && s.updates[u].leader == leader
  }

  predicate BeginsFor(s: State, step: Step, u: Id, leader: Raft) {
    Begins(s, step, u) && s.updates[u].leader == leader
  }

  function BeginsAt(steps: seq<Step>, u: Id, leader: Raft): nat -> bool {
    (n: nat) => n < |steps| && BeginsFor(At(steps, n), steps[n], u, leader)
  }

  /** The update is published, or dies with its process. */
  function EndsOrDiesAt(steps: seq<Step>, u: Id, leader: Raft): nat -> bool {
    (n: nat) => n < |steps| && (Ends(At(steps, n), steps[n], u) || Registers(steps[n], leader))
  }

  lemma LookingBegins(s: State, step: Step, u: Id, leader: Raft)
    requires IsLookingFor(Next(s, step), u, leader)
    ensures BeginsFor(s, step, u, leader) ||
            (IsLookingFor(s, u, leader) && !Ends(s, step, u) && !Registers(step, leader))
  {
  }

  lemma LookingStays(s: State, known: set<Http>, step: Step, u: Id, leader: Raft)
    requires Inv(s, known)
    requires BeginsFor(s, step, u, leader) ||
             (IsLookingFor(s, u, leader) && !Ends(s, step, u) && !Registers(step, leader))
    ensures IsLookingFor(Next(s, step), u, leader)
  {
  }

  lemma LookingStep(s: State, known: set<Http>, step: Step, u: Id, leader: Raft)
    requires Inv(s, known)
    ensures IsLookingFor(Next(s, step), u, leader) <==>
            BeginsFor(s, step, u, leader) ||
            (IsLookingFor(s, u, leader) && !Ends(s, step, u) && !Registers(step, leader))
  {
    if IsLookingFor(Next(s, step), u, leader) {
      LookingBegins(s, step, u, leader);
    } else if BeginsFor(s, step, u, leader) ||
              (IsLookingFor(s, u, leader) && !Ends(s, step, u) && !Registers(step, leader)) {
      LookingStays(s, known, step, u, leader);
    }
  }

  /** An update is under way exactly from its beginning until it is published or its leader starts anew. */
  lemma LookingIff(steps: seq<Step>, n: nat, u: Id, leader: Raft)
    requires n <= |steps|
    ensures IsLookingFor(At(steps, n), u, leader) <==>
            exists m: nat :: Since(BeginsAt(steps, u, leader), EndsOrDiesAt(steps, u, leader), m, n)
  {
    var looking: nat -> bool := (k: nat) => k <= |steps| && IsLookingFor(At(steps, k), u, leader);
    forall k: nat | k < n
      ensures looking(k + 1) <==>
              BeginsAt(steps, u, leader)(k) || (looking(k) && !EndsOrDiesAt(steps, u, leader)(k))
    {
      AtNext(steps, k);
      AtKeepsInv(steps, k);
      LookingStep(At(steps, k), Known(steps[..k]), steps[k], u, leader);
    }
    HoldsSince(BeginsAt(steps, u, leader), EndsOrDiesAt(steps, u, leader), looking, n);
  }

  // ---- sweeps ----

  predicate IsGone(s: State, w: Id, p: Http) {
    w in s.sweeps && s.sweeps[w].Failed? && p in s.sweeps[w].gone
  }

  predicate FindsGone(s: State, step: Step, w: Id, p: Http) {
    step.Ping? && step.w == w && p in step.failed && p in Peers(s)
  }

  function FindsGoneAt(steps: seq<Step>, w: Id, p: Http): nat -> bool {
    (n: nat) => n < |steps| && FindsGone(At(steps, n), steps[n], w, p)
  }

  predicate GoesOn(step: Step, w: Id) {
    (step.Ping? && step.w == w) || step == SweepRead(w)
  }

  function GoesOnAt(steps: seq<Step>, w: Id): nat -> bool {
    (n: nat) => n < |steps| && GoesOn(steps[n], w)
  }

  lemma GoneStep(s: State, step: Step, w: Id, p: Http)
    ensures IsGone(Next(s, step), w, p) <==> FindsGone(s, step, w, p) || (IsGone(s, w, p) && !GoesOn(step, w))
  {
  }

  /** A sweep is about to remove exactly the peers that were published and failed when it last pinged. */
  lemma GoneIff(steps: seq<Step>, n: nat, w: Id, p: Http)
    requires n <= |steps|
    ensures IsGone(At(steps, n), w, p) <==> exists m: nat :: Since(FindsGoneAt(steps, w, p), GoesOnAt(steps, w), m, n)
  {
    var gone: nat -> bool := (k: nat) => k <= |steps| && IsGone(At(steps, k), w, p);
    forall k: nat | k < n ensures gone(k + 1) <==> FindsGoneAt(steps, w, p)(k) || (gone(k) && !GoesOnAt(steps, w)(k)) {
      AtNext(steps, k);
      GoneStep(At(steps, k), steps[k], w, p);
    }
    HoldsSince(FindsGoneAt(steps, w, p), GoesOnAt(steps, w), gone, n);
  }
}
