/** cache/node/node.go: a cache node filling from the databases. */
module CacheNode {
  import opened Wrappers
  import opened ByteOrder
  import opened Race
  import opened Wire

  /** Node.find: the reply to GET /i/key/<key> at one database. */
  function Find(url: Bytes, reply: Reply): (a: Answer<Body>)
    ensures a.url == url && a.Proper()
    ensures a.value.Some? <==> reply.Ok() && reply.body != NoBytes
    ensures a.value.Some? ==> a.value.value == reply.body
    ensures a.err == Some(NotFound) <==> reply.Missing()
  {
    match reply
    case Response(status, body, d) =>
      if status == NOT_FOUND then Answer(url, None, d, Some(NotFound))
      else if status == OK && body != NoBytes then Answer(url, Some(body), d, None)
      else Answer(url, None, d, Some(Other))
    case _ => Answer(url, None, 0, Some(Other))
  }

  function FindAll(replies: seq<(Bytes, Reply)>): (answers: seq<Answer<Body>>)
    ensures |answers| == |replies|
    ensures forall i | 0 <= i < |replies| :: answers[i] == Find(replies[i].0, replies[i].1)
    ensures forall a | a in answers :: a.Proper()
  {
    seq(|replies|, i requires 0 <= i < |replies| => Find(replies[i].0, replies[i].1))
  }

  /** fetchData: the fast database decides unless it is unset or fails; then all are asked. */
  function FetchData(load: Attempt): (Option<Body>, Option<Err>) {
    var race := DbRaceResult(FindAll(load.order), load.n, load.timedOut);
    match load.fast
    case None => race
    case Some(reply) =>
      var a := Find([], reply);
      if a.err.None? || a.err == Some(NotFound) then (a.value, a.err) else race
  }

  /** handleGetKey: how the outcome of a load is put to the client. */
  function Answered(outcome: (Option<Body>, Option<Err>), duration: nat): Reply {
    if outcome.1 == Some(NotFound) then Response(NOT_FOUND, NoBytes, duration)
    else if outcome.1.Some? || outcome.0.None? then Response(INTERNAL_ERROR, Junk, duration)
    else Response(OK, outcome.0.value, duration)
  }

  /**
   A load without an error hands over the body of a 200 reply that it received, byte for byte; it
   reports not-found only if some reply did.
   */
  lemma LoadIsAReply(load: Attempt)
    requires load.Possible()
    ensures FetchData(load).1.None? <==> FetchData(load).0.Some?
    ensures FetchData(load).1.None? ==>
              exists r | r in load.Replies() :: r.Ok() && r.body != NoBytes && FetchData(load).0 == Some(r.body)
    ensures FetchData(load).1 == Some(NotFound) ==> exists r | r in load.Replies() :: r.Missing()
  {
    var answers := FindAll(load.order);
    NoneGood(answers);
    var winner := FirstGood(answers);
    if winner.Some? {
      var i :| 0 <= i < |answers| && answers[i] == winner.value;
      assert load.order[i].1 in load.Replies();
    }
  }

  // ---- what settles a load ----

  /** A body, whatever it says, or a 404. */
  predicate Decisive(r: Reply) {
    r.Missing() || (r.Ok() && r.body != NoBytes)
  }

  /**
   A load, in every case: the reply that settles the attempt, that is the fast database's if it is
   decisive, else the first decisive one in time; if there is none, an error other than not-found.
   */
  lemma LoadIsSettled(load: Attempt)
    requires load.Possible()
    ensures forall r | load.SettledBy(Decisive, r) ::
              Decisive(r) && FetchData(load) == if r.Missing() then (None, Some(NotFound)) else (Some(r.body), None)
    ensures !load.Settled(Decisive) ==> FetchData(load).0.None? && FetchData(load).1 !in {None, Some(NotFound)}
  {
    if load.fast.Some? && Decisive(load.fast.value) {
      assert load.SettledBy(Decisive, load.fast.value);
    } else {
      RaceIsSettled(load);
      if !load.timedOut && !load.Settled(Decisive) {
        forall i | 0 <= i < |load.order| ensures !load.FirstDecisive(Decisive, i) {
          assert load.FirstDecisive(Decisive, i) ==> load.SettledBy(Decisive, load.order[i].1);
        }
      }
    }
  }

  lemma RaceIsSettled(load: Attempt)
    requires load.Possible()
    ensures var result := DbRaceResult(FindAll(load.order), load.n, load.timedOut);
            && (forall i | !load.timedOut && 0 <= i < |load.order| && load.FirstDecisive(Decisive, i) ::
                  var r := load.order[i].1;
                  result == if r.Missing() then (None, Some(NotFound)) else (Some(r.body), None))
            && (load.timedOut || (forall i | 0 <= i < |load.order| :: !load.FirstDecisive(Decisive, i)) ==>
                  result.0.None? && result.1 !in {None, Some(NotFound)})
  {
    var answers := FindAll(load.order);
    DbRaceIs(answers, load.n, load.timedOut);
    forall i | 0 <= i < |load.order| && load.FirstDecisive(Decisive, i) ensures FirstGoodAt(answers, i) {
      forall j | 0 <= j < i ensures !answers[j].Good() { assert !Decisive(load.order[j].1); }
    }
    forall i | 0 <= i < |answers| && answers[i].Good()
      ensures exists j | 0 <= j <= i :: load.FirstDecisive(Decisive, j)
    {
      var first := SomebodyIsFirst(load, Decisive, i);
    }
  }

  /** Loads with this reply of the fast database all come to the same. */
  ghost predicate LoadIgnoresRace(fast: Option<Reply>) {
    forall t: Attempt, u: Attempt | t.Possible() && u.Possible() && t.fast == fast && u.fast == fast ::
      FetchData(t) == FetchData(u)
  }

  /** The fast database is believed alone, whatever the others would say, exactly when its reply is decisive. */
  lemma RaceIgnoredIff(fast: Option<Reply>)
    ensures LoadIgnoresRace(fast) <==> fast.Some? && Decisive(fast.value)
  {
    if fast.Some? && Decisive(fast.value) {
      forall t: Attempt | t.Possible() && t.fast == fast
        ensures FetchData(t) == if fast.value.Missing() then (None, Some(NotFound)) else (Some(fast.value.body), None)
      {
        assert t.SettledBy(Decisive, fast.value);
        LoadIsSettled(t);
      }
    } else {
      var t := Attempt(fast, 1, [([], Response(404, NoBytes, 0))], false);
      var u := Attempt(fast, 1, [([], Response(200, Junk, 0))], false);
      assert t.FirstDecisive(Decisive, 0) && u.FirstDecisive(Decisive, 0);
      assert t.SettledBy(Decisive, t.order[0].1) && u.SettledBy(Decisive, u.order[0].1);
      LoadIsSettled(t);
      LoadIsSettled(u);
      assert t.Possible() && u.Possible() && FetchData(t) != FetchData(u);
    }
  }

  /** The arguments of the setFastDB goroutines that a load starts: a failed fast database is forgotten at once. */
  function FastSettings(load: Attempt): seq<Bytes> {
    var race := if load.n == 0 then [] else if load.timedOut || FirstGood(FindAll(load.order)).None? then [[]]
                else [FirstGood(FindAll(load.order)).value.url];
    if load.fast.None? then race
    else if Find([], load.fast.value).err in {None, Some(NotFound)} then []
    else [[]] + race
  }

  /** The first good answer is that of the first decisive reply. */
  lemma WinnerIs(load: Attempt)
    ensures forall i | 0 <= i < |load.order| && load.FirstDecisive(Decisive, i) ::
              FirstGood(FindAll(load.order)) == Some(FindAll(load.order)[i])
    ensures FirstGood(FindAll(load.order)).Some? ==> exists i | 0 <= i < |load.order| :: load.FirstDecisive(Decisive, i)
  {
    var answers := FindAll(load.order);
    forall i | 0 <= i < |load.order| && load.FirstDecisive(Decisive, i) ensures FirstGood(answers) == Some(answers[i]) {
      FirstGoodIsFirst(answers, i);
    }
    NoneGood(answers);
    if FirstGood(answers).Some? {
      var i :| 0 <= i < |answers| && answers[i] == FirstGood(answers).value;
      var first := SomebodyIsFirst(load, Decisive, i);
    }
  }

  /**
   A load leaves the fast database alone if its reply is decisive. Otherwise it forgets it, if there
   was one, and then remembers the database whose reply was the first decisive one in time; if there
   is none, it forgets again; and without databases there is no race.
   */
  lemma FastSettingsAre(load: Attempt)
    requires load.Possible()
    ensures load.fast.Some? && Decisive(load.fast.value) ==> FastSettings(load) == []
    ensures !(load.fast.Some? && Decisive(load.fast.value)) ==>
              var forgotten := if load.fast.Some? then [[]] else [];
              && (load.n == 0 ==> FastSettings(load) == forgotten)
              && (load.n > 0 && !load.Settled(Decisive) ==> FastSettings(load) == forgotten + [[]])
              && (!load.timedOut ==> forall i | 0 <= i < |load.order| && load.FirstDecisive(Decisive, i) ::
                    FastSettings(load) == forgotten + [load.order[i].0])
  {
    WinnerIs(load);
    if !(load.fast.Some? && Decisive(load.fast.value)) && !load.timedOut {
      forall i | 0 <= i < |load.order| && load.FirstDecisive(Decisive, i) ensures load.Settled(Decisive) {
        assert load.SettledBy(Decisive, load.order[i].1);
      }
    }
  }

  /** The mutable part of a cache node. */
  class CacheNode {
    var dbs: seq<Bytes>
    var peers: seq<Bytes>
    var pool: seq<Bytes>
    var fastDB: Bytes
    /** Arguments of the setFastDB goroutines that have been started and have not run. */
    var pending: seq<Bytes>
    /** Databases whose value or not-found once won a race. */
    ghost var proven: set<Bytes>

    /** The fast database is unset or one that has won a race; the pool knows exactly the peers. */
    ghost predicate Valid()
      reads this
    {
      && (fastDB == [] || fastDB in proven)
      && (forall url | url in pending :: url == [] || url in proven)
      && pool == peers
    }

    constructor (peers: seq<Bytes>, dbs: seq<Bytes>)
      ensures Valid() && this.peers == peers && this.dbs == dbs && fastDB == [] && pending == []
    {
      this.peers, this.dbs, pool := peers, dbs, peers;
      fastDB, pending, proven := [], [], {};
    }

    /** fetchData. `fast` is what the fast database replies if it is asked. */
    method Fetch(fast: Reply, order: seq<(Bytes, Reply)>, timedOut: bool)
      returns (body: Option<Body>, err: Option<Err>)
      requires Valid() && |order| <= |dbs|
      modifies this`pending, this`proven
      ensures Valid() && old(proven) <= proven
      ensures forall url | url in proven - old(proven) ::
                url == [] || exists a | a in FindAll(order) :: a.Good() && a.url == url
      ensures var load := Attempt(if fastDB == [] then None else Some(fast), |dbs|, order, timedOut);
              (body, err) == FetchData(load) && pending == old(pending) + FastSettings(load)
    {
      var settings := [];
      if fastDB != [] {
        var a := Find(fastDB, fast);
        if a.err == Some(NotFound) || a.err.None? { return a.value, a.err; }
        settings := [[]];
      }
      var setFast;
      body, err, setFast := TryAllDBFind(FindAll(order), |dbs|, timedOut);
      NoneGood(FindAll(order));
      if setFast.Some? {
        settings := settings + [setFast.value];
        proven := proven + {setFast.value};
      }
      pending := pending + settings;
    }

    /** One pending setFastDB goroutine runs; they run in any order. */
    method SetFastDB(i: nat)
      requires Valid() && i < |pending|
      modifies this`fastDB, this`pending
      ensures Valid() && fastDB == old(pending)[i]
      ensures pending == old(pending)[..i] + old(pending)[i + 1..]
    {
      fastDB := pending[i];
      pending := pending[..i] + pending[i + 1..];
    }

    /** handleMeta: takes over the master's lists, sorted; an unchanged pair of lists is left alone. */
    method HandleMeta(newPeers: seq<Bytes>, newDBs: seq<Bytes>)
      requires Valid()
      modifies this`peers, this`dbs, this`pool
      ensures Valid()
      ensures peers == SortStrings(newPeers) && dbs == SortStrings(newDBs)
    {
      var ps, ds := SortStrings(newPeers), SortStrings(newDBs);
      if peers == ps && dbs == ds { return; }
      pool := ps;
      peers := ps;
      dbs := ds;
    }
  }
}
