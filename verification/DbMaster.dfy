/**
 db/master/master.go and the membership part of db/node/service/service.go: the loops over peer
 lists, each against the function that says what it computes.
 */
module DbMaster {
  import opened Wrappers
  import opened ByteOrder
  import Sorting

  // ---- removeNodes ----

  function Keep(peers: seq<Bytes>, gone: set<Bytes>): (kept: seq<Bytes>)
    ensures forall p :: p in kept <==> p in peers && p !in gone
  {
    if peers == [] then []
    else
      assert peers == peers[..|peers| - 1] + [peers[|peers| - 1]];
      Keep(peers[..|peers| - 1], gone) + if peers[|peers| - 1] in gone then [] else [peers[|peers| - 1]]
  }

  lemma {:induction false} KeepSorted(peers: seq<Bytes>, gone: set<Bytes>)
    requires Sorting.Sorted(peers, Leq)
    ensures Sorting.Sorted(Keep(peers, gone), Leq)
  {
    if peers != [] {
      var front := peers[..|peers| - 1];
      KeepSorted(front, gone);
      var kept := Keep(front, gone);
      forall j | 0 <= j < |kept| ensures Leq(kept[j], peers[|peers| - 1]) {
        assert kept[j] in kept;
        var i :| 0 <= i < |front| && front[i] == kept[j];
        assert peers[i] == kept[j];
      }
    }
  }

  /** What removal keeps, it keeps as often as it was there; what failed is gone altogether. */
  lemma {:induction false} KeepCounts(peers: seq<Bytes>, gone: set<Bytes>)
    ensures forall p :: multiset(Keep(peers, gone))[p] == if p in gone then 0 else multiset(peers)[p]
  {
    if peers != [] {
      KeepCounts(peers[..|peers| - 1], gone);
      assert peers == peers[..|peers| - 1] + [peers[|peers| - 1]];
    }
  }

  /** The elements of `part` stand in `whole` at the given places, from left to right. */
  predicate InOrder(part: seq<Bytes>, whole: seq<Bytes>, places: seq<nat>) {
    && |places| == |part|
    && (forall i | 0 <= i < |places| :: places[i] < |whole| && whole[places[i]] == part[i])
    && (forall i, j | 0 <= i < j < |places| :: places[i] < places[j])
  }

  lemma {:induction false} KeepInOrder(peers: seq<Bytes>, gone: set<Bytes>) returns (places: seq<nat>)
    ensures InOrder(Keep(peers, gone), peers, places)
  {
    if peers == [] {
      places := [];
    } else {
      var front := peers[..|peers| - 1];
      places := KeepInOrder(front, gone);
      OneMoreInOrder(Keep(front, gone), front, places, peers[|peers| - 1]);
      assert peers == front + [peers[|peers| - 1]];
      if peers[|peers| - 1] !in gone {
        places := places + [|front|];
      } else {
        assert Keep(peers, gone) == Keep(front, gone);
      }
    }
  }

  lemma OneMoreInOrder(part: seq<Bytes>, whole: seq<Bytes>, places: seq<nat>, x: Bytes)
    requires InOrder(part, whole, places)
    ensures InOrder(part, whole + [x], places) && InOrder(part + [x], whole + [x], places + [|whole|])
  {
  }

  /** The loop of removeNodes over the list it has just read. */
  method RemoveNodes(current: seq<Bytes>, nodes: seq<Bytes>) returns (newPeers: seq<Bytes>, changed: bool)
    ensures newPeers == Keep(current, set n | n in nodes)
    ensures forall p :: multiset(newPeers)[p] == if p in nodes then 0 else multiset(current)[p]
    ensures exists places :: InOrder(newPeers, current, places)
    ensures changed <==> exists p | p in current :: p in nodes
    ensures !changed ==> newPeers == current
  {
    var gone := set n | n in nodes;
    newPeers, changed := [], false;
    for i := 0 to |current|
      invariant newPeers == Keep(current[..i], gone)
      invariant changed <==> exists p | p in current[..i] :: p in nodes
      invariant !changed ==> newPeers == current[..i]
    {
      assert current[..i + 1] == current[..i] + [current[i]];
      assert current[..i + 1][..i] == current[..i];
      if current[i] !in gone {
        newPeers := newPeers + [current[i]];
      } else {
        changed := true;
      }
    }
    assert current[..|current|] == current;
    KeepCounts(current, gone);
    ghost var places := KeepInOrder(current, gone);
  }

  // ---- updatePeers ----

  /** The registered HTTP addresses of a list of Raft addresses; None when one is not registered. */
  function Addresses(registry: map<Bytes, Bytes>, raftPeers: seq<Bytes>): (r: Option<seq<Bytes>>)
    ensures r.Some? <==> forall p | p in raftPeers :: p in registry
    ensures r.Some? ==>
              |r.value| == |raftPeers| && forall i | 0 <= i < |raftPeers| :: r.value[i] == registry[raftPeers[i]]
  {
    if forall i | 0 <= i < |raftPeers| :: raftPeers[i] in registry then
      Some(seq(|raftPeers|, i requires 0 <= i < |raftPeers| => registry[raftPeers[i]]))
    else
      None
  }

  /** updatePeers with nothing happening in between: what it publishes, or None when it gives up. */
  method UpdatePeers(self: Bytes, registry: map<Bytes, Bytes>, raftPeers: seq<Bytes>)
    returns (published: Option<seq<Bytes>>)
    ensures published.Some? <==> forall p | p in raftPeers :: p in registry
    ensures published.Some? ==> Sorting.Sorted(published.value, Leq)
    ensures published.Some? && raftPeers == [] ==> published.value == [self]
    ensures published.Some? && raftPeers != [] ==>
              multiset(published.value) == multiset(Addresses(registry, raftPeers).value)
  {
    if raftPeers == [] { return Some([self]); }
    var peers := [];
    for i := 0 to |raftPeers|
      invariant |peers| == i
      invariant forall j | 0 <= j < i :: raftPeers[j] in registry && peers[j] == registry[raftPeers[j]]
    {
      if raftPeers[i] !in registry { return None; }
      peers := peers + [registry[raftPeers[i]]];
    }
    assert peers == Addresses(registry, raftPeers).value;
    return Some(SortStrings(peers));
  }

  // ---- tryToJoin ----

  /** The first k peers are those up to the first that is not the node itself and accepts, or all of them. */
  predicate StopsAt(self: Bytes, peers: seq<Bytes>, accepts: seq<bool>, k: nat)
    requires k <= |peers| == |accepts|
  {
    && (forall i | 0 <= i < k - 1 :: peers[i] == self || !accepts[i])
    && (k == |peers| || (k > 0 && peers[k - 1] != self && accepts[k - 1]))
  }

  /**
   tryToJoin: asks the published peers in turn, never itself, until one answers 200; `accepts[i]`
   says whether peer i would. A node that is alone in the list cannot join, so it cannot come back.
   */
  method TryToJoin(self: Bytes, peers: seq<Bytes>, accepts: seq<bool>)
    returns (ok: bool, asked: seq<Bytes>, ghost upTo: nat)
    requires |accepts| == |peers|
    ensures ok <==> peers == [] || exists i | 0 <= i < |peers| :: peers[i] != self && accepts[i]
    ensures upTo <= |peers| && StopsAt(self, peers, accepts, upTo) && asked == Keep(peers[..upTo], {self})
  {
    asked, upTo := [], 0;
    if peers == [] { return true, asked, upTo; }
    for i := 0 to |peers|
      invariant upTo == i && asked == Keep(peers[..i], {self})
      invariant forall j | 0 <= j < i :: peers[j] == self || !accepts[j]
    {
      assert peers[..i + 1][..i] == peers[..i];
      upTo := i + 1;
      if peers[i] == self { continue; }
      asked := asked + [peers[i]];
      if accepts[i] { return true, asked, upTo; }
    }
    ok := false;
  }

  /** So it asks published peers only, never itself, and everyone who has only itself and refusing peers before him. */
  lemma AskedWhenReached(self: Bytes, peers: seq<Bytes>, accepts: seq<bool>, upTo: nat, i: nat)
    requires upTo <= |peers| == |accepts| && StopsAt(self, peers, accepts, upTo)
    requires i < |peers| && forall j | 0 <= j < i :: peers[j] == self || !accepts[j]
    ensures forall p | p in Keep(peers[..upTo], {self}) :: p in peers
    ensures self !in Keep(peers[..upTo], {self}) && (peers[i] == self || peers[i] in Keep(peers[..upTo], {self}))
  {
    assert peers[..upTo][i] == peers[i];
  }
}
