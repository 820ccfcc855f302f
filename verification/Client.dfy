/** client/kv.go: reading a key through the caches first and the databases second. */
module Client {
  import opened Wrappers
  import opened ByteOrder
  import opened Race
  import opened Wire

  /** parseData: the value of a document about the key that was asked for, unless it is empty. */
  function ParseData(body: Body, key: Bytes): (v: Option<Bytes>)
    ensures forall x :: v == Some(x) <==> x != [] && body == Doc(key, x)
  {
    match body
    case Doc(k, v) => if k != key || v == [] then None else Some(v)
    case _ => None
  }

  /** KV.find: everything but a value and a 404 costs the whole request timeout. */
  function Find(key: Bytes, requestTimeout: nat, url: Bytes, reply: Reply): (a: Answer<Bytes>)
    ensures a.url == url && a.Proper()
    ensures forall x :: a.value == Some(x) <==> reply.Ok() && x != [] && reply.body == Doc(key, x)
    ensures a.err == Some(NotFound) <==> reply.Missing()
    ensures !a.Good() ==> a.duration == requestTimeout
    ensures a.Good() ==> reply.Response? && a.duration == reply.duration
    ensures a.err == Some(Timeout) <==> reply.TimedOut? || (reply.Response? && reply.status !in {200, 404})
  {
    match reply
    case TimedOut => Answer(url, None, requestTimeout, Some(Timeout))
    case Broken => Answer(url, None, requestTimeout, Some(Other))
    case Response(status, body, duration) =>
      if status == NOT_FOUND then Answer(url, None, duration, Some(NotFound))
      else if status == OK then
        var value := ParseData(body, key);
        if value.Some? then Answer(url, value, duration, None) else Answer(url, None, requestTimeout, Some(Other))
      else Answer(url, None, requestTimeout, Some(Timeout))
  }

  function FindAll(key: Bytes, requestTimeout: nat, replies: seq<(Bytes, Reply)>): (answers: seq<Answer<Bytes>>)
    ensures |answers| == |replies|
    ensures forall i | 0 <= i < |replies| :: answers[i] == Find(key, requestTimeout, replies[i].0, replies[i].1)
  {
    seq(|replies|, i requires 0 <= i < |replies| => Find(key, requestTimeout, replies[i].0, replies[i].1))
  }

  type Outcome = (Option<Bytes>, Option<Err>)

  /** The remembered server decides with a value or a 404; on any other error all servers are asked. */
  function FastFirst(key: Bytes, requestTimeout: nat, fast: Option<Reply>, race: Outcome): Outcome {
    match fast
    case None => race
    case Some(reply) =>
      var a := Find(key, requestTimeout, [], reply);
      if a.err.None? || a.err == Some(NotFound) then (a.value, a.err) else race
  }

  /** KV.cache */
  function AskCaches(key: Bytes, requestTimeout: nat, t: Attempt): Outcome {
    FastFirst(key, requestTimeout, t.fast,
              CacheRaceResult(FindAll(key, requestTimeout, t.order), t.n, t.timedOut))
  }

  /** KV.get */
  function AskDBs(key: Bytes, requestTimeout: nat, t: Attempt): Outcome {
    FastFirst(key, requestTimeout, t.fast,
              DbRaceResult(FindAll(key, requestTimeout, t.order), t.n, t.timedOut))
  }

  /** Whether Get stops at what the caches say: a value and a not-found are believed. */
  predicate CachesDecide(key: Bytes, requestTimeout: nat, caches: Attempt) {
    var cached := AskCaches(key, requestTimeout, caches);
    cached.1.None? || cached.1 == Some(NotFound)
  }

  /** KV.Get: the databases are asked when the caches do not decide. */
  function Get(key: Bytes, requestTimeout: nat, caches: Attempt, dbs: Attempt): Outcome {
    if CachesDecide(key, requestTimeout, caches) then AskCaches(key, requestTimeout, caches)
    else AskDBs(key, requestTimeout, dbs)
  }

  /** The outcome is grounded in a reply that the attempt received. */
  ghost predicate IsAReply(key: Bytes, t: Attempt, result: Outcome) {
    && (result.1.None? <==> result.0.Some?)
    && (result.0.Some? ==> result.0.value != [])
    && (result.0.Some? ==> exists r | r in t.Replies() :: r.Ok() && r.body == Doc(key, result.0.value))
    && (result.1 == Some(NotFound) ==> exists r | r in t.Replies() :: r.Missing())
  }

  lemma RaceIsAReply(key: Bytes, requestTimeout: nat, t: Attempt)
    requires t.Possible()
    ensures IsAReply(key, t, CacheRaceResult(FindAll(key, requestTimeout, t.order), t.n, t.timedOut))
    ensures IsAReply(key, t, DbRaceResult(FindAll(key, requestTimeout, t.order), t.n, t.timedOut))
  {
    var answers := FindAll(key, requestTimeout, t.order);
    NoneGood(answers);
    forall a | a in answers ensures IsAReply(key, t, (a.value, a.err)) {
      var i :| 0 <= i < |answers| && answers[i] == a;
      assert t.order[i].1 in t.Replies();
    }
  }

  /** What the caches say, and what the databases say, was said by one of them. */
  lemma AttemptIsAReply(key: Bytes, requestTimeout: nat, t: Attempt)
    requires t.Possible()
    ensures IsAReply(key, t, AskCaches(key, requestTimeout, t))
    ensures IsAReply(key, t, AskDBs(key, requestTimeout, t))
  {
    RaceIsAReply(key, requestTimeout, t);
  }

  /**
   A Get that succeeds returns the non-empty value of a 200 reply about its own key that some
   server gave it; one that reports not-found was told so by a server. The servers are caches if
   the caches decide and databases otherwise.
   */
  lemma GetIsAReply(key: Bytes, requestTimeout: nat, caches: Attempt, dbs: Attempt)
    requires caches.Possible() && dbs.Possible()
    ensures IsAReply(key, if CachesDecide(key, requestTimeout, caches) then caches else dbs,
                     Get(key, requestTimeout, caches, dbs))
  {
    AttemptIsAReply(key, requestTimeout, caches);
    AttemptIsAReply(key, requestTimeout, dbs);
  }

  // ---- what settles a Get ----

  /** A value for the key or a 404. */
  predicate Decisive(key: Bytes, r: Reply) {
    r.Missing() || (r.Ok() && r.body.Doc? && r.body.key == key && r.body.value != [])
  }

  function For(key: Bytes): Reply -> bool {
    r => Decisive(key, r)
  }

  /** What a decisive reply says. */
  function Said(r: Reply): Outcome
    requires r.Missing() || (r.Ok() && r.body.Doc?)
  {
    if r.Missing() then (None, Some(NotFound)) else (Some(r.body.value), None)
  }

  /** A result that leaves the question open: an error other than not-found. */
  predicate Open(result: Outcome) {
    result.0.None? && result.1.Some? && result.1 != Some(NotFound)
  }

  lemma DecisiveIsGood(key: Bytes, requestTimeout: nat, url: Bytes, r: Reply)
    ensures var a := Find(key, requestTimeout, url, r);
            (a.Good() <==> Decisive(key, r)) && (Decisive(key, r) ==> (a.value, a.err) == Said(r)) &&
            (!Decisive(key, r) ==> Open((a.value, a.err)))
  {
  }

  lemma RaceIsSettled(key: Bytes, requestTimeout: nat, t: Attempt)
    requires t.Possible() && !(t.fast.Some? && Decisive(key, t.fast.value))
    ensures forall r | t.SettledBy(For(key), r) ::
              Decisive(key, r) && AskCaches(key, requestTimeout, t) == Said(r) == AskDBs(key, requestTimeout, t)
    ensures !t.Settled(For(key)) ==> Open(AskCaches(key, requestTimeout, t)) && Open(AskDBs(key, requestTimeout, t))
  {
    var answers := FindAll(key, requestTimeout, t.order);
    CacheRaceIs(answers, t.n, t.timedOut);
    DbRaceIs(answers, t.n, t.timedOut);
    forall i | 0 <= i < |answers|
      ensures answers[i].Good() <==> Decisive(key, t.order[i].1)
      ensures Decisive(key, t.order[i].1) ==> (answers[i].value, answers[i].err) == Said(t.order[i].1)
      ensures !Decisive(key, t.order[i].1) ==> Open((answers[i].value, answers[i].err))
    {
      DecisiveIsGood(key, requestTimeout, t.order[i].0, t.order[i].1);
    }
    forall i | 0 <= i < |t.order| && t.FirstDecisive(For(key), i) ensures FirstGoodAt(answers, i) {
      forall j | 0 <= j < i ensures !answers[j].Good() { assert !For(key)(t.order[j].1); }
    }
    if !t.Settled(For(key)) && !t.timedOut { NobodySettles(key, requestTimeout, t); }
  }

  lemma NobodySettles(key: Bytes, requestTimeout: nat, t: Attempt)
    requires !(t.fast.Some? && Decisive(key, t.fast.value)) && !t.timedOut && !t.Settled(For(key))
    ensures forall a | a in FindAll(key, requestTimeout, t.order) :: !a.Good()
  {
    var answers := FindAll(key, requestTimeout, t.order);
    forall a | a in answers ensures !a.Good() {
      var i: nat :| i < |answers| && answers[i] == a;
      DecisiveIsGood(key, requestTimeout, t.order[i].0, t.order[i].1);
      if For(key)(t.order[i].1) {
        var first := SomebodyIsFirst(t, For(key), i);
        assert t.SettledBy(For(key), t.order[first].1);
      }
    }
  }

  /** What the caches say, and what the databases say: the reply that settles the attempt, else an error. */
  lemma AttemptIsSettled(key: Bytes, requestTimeout: nat, t: Attempt)
    requires t.Possible()
    ensures forall r | t.SettledBy(For(key), r) ::
              Decisive(key, r) && AskCaches(key, requestTimeout, t) == Said(r) == AskDBs(key, requestTimeout, t)
    ensures !t.Settled(For(key)) ==> Open(AskCaches(key, requestTimeout, t)) && Open(AskDBs(key, requestTimeout, t))
  {
    if t.fast.Some? && Decisive(key, t.fast.value) {
      DecisiveIsGood(key, requestTimeout, [], t.fast.value);
      assert For(key)(t.fast.value);
      assert t.SettledBy(For(key), t.fast.value);
    } else {
      if t.fast.Some? { DecisiveIsGood(key, requestTimeout, [], t.fast.value); }
      RaceIsSettled(key, requestTimeout, t);
    }
  }

  /**
   Get, in every case: the reply that settles the attempt at the caches, that is the remembered
   cache's if it is decisive, else the first decisive one in time; if there is none, likewise at the
   databases; if there is none there either, an error other than not-found.
   */
  lemma GetIsSettled(key: Bytes, requestTimeout: nat, caches: Attempt, dbs: Attempt)
    requires caches.Possible() && dbs.Possible()
    ensures var result := Get(key, requestTimeout, caches, dbs);
            && (forall r | caches.SettledBy(For(key), r) :: Decisive(key, r) && result == Said(r))
            && (!caches.Settled(For(key)) ==>
                  (forall r | dbs.SettledBy(For(key), r) :: Decisive(key, r) && result == Said(r)) &&
                  (!dbs.Settled(For(key)) ==> Open(result)))
  {
    AttemptIsSettled(key, requestTimeout, caches);
    AttemptIsSettled(key, requestTimeout, dbs);
  }

  /** The race of an attempt with one server that gives this reply. */
  function RaceOf(fast: Option<Reply>, r: Reply): Attempt {
    Attempt(fast, 1, [([], r)], false)
  }

  /** Attempts at the caches with this remembered reply all come to the same. */
  ghost predicate GetIgnoresRace(key: Bytes, requestTimeout: nat, fast: Option<Reply>) {
    forall t: Attempt, u: Attempt, dbs: Attempt
      | t.Possible() && u.Possible() && dbs.Possible() && t.fast == fast && u.fast == fast ::
      Get(key, requestTimeout, t, dbs) == Get(key, requestTimeout, u, dbs)
  }

  /** And so do attempts at the databases. */
  ghost predicate DbsIgnoreRace(key: Bytes, requestTimeout: nat, fast: Option<Reply>) {
    forall t: Attempt, u: Attempt | t.Possible() && u.Possible() && t.fast == fast && u.fast == fast ::
      AskDBs(key, requestTimeout, t) == AskDBs(key, requestTimeout, u)
  }

  /** The remembered server is believed alone, whatever the others would say, exactly when its reply is decisive. */
  lemma RaceIgnoredIff(key: Bytes, requestTimeout: nat, fast: Option<Reply>)
    ensures GetIgnoresRace(key, requestTimeout, fast) <==> fast.Some? && Decisive(key, fast.value)
    ensures DbsIgnoreRace(key, requestTimeout, fast) <==> fast.Some? && Decisive(key, fast.value)
  {
    if fast.Some? && Decisive(key, fast.value) {
      forall t: Attempt | t.Possible() && t.fast == fast
        ensures AskDBs(key, requestTimeout, t) == Said(fast.value)
        ensures forall dbs: Attempt | dbs.Possible() :: Get(key, requestTimeout, t, dbs) == Said(fast.value)
      {
        FastSettles(key, requestTimeout, t);
      }
    } else {
      var missing, found := Response(404, NoBytes, 0), Response(200, Doc(key, [0]), 0);
      RaceOfOne(key, requestTimeout, fast, missing);
      RaceOfOne(key, requestTimeout, fast, found);
      var t, u := RaceOf(fast, missing), RaceOf(fast, found);
      assert t.Possible() && u.Possible() && t.fast == u.fast == fast;
      assert Get(key, requestTimeout, t, t) != Get(key, requestTimeout, u, t);
      assert AskDBs(key, requestTimeout, t) != AskDBs(key, requestTimeout, u);
    }
  }

  lemma FastSettles(key: Bytes, requestTimeout: nat, t: Attempt)
    requires t.Possible() && t.fast.Some? && Decisive(key, t.fast.value)
    ensures AskDBs(key, requestTimeout, t) == Said(t.fast.value)
    ensures forall dbs: Attempt | dbs.Possible() :: Get(key, requestTimeout, t, dbs) == Said(t.fast.value)
  {
    assert For(key)(t.fast.value);
    assert t.SettledBy(For(key), t.fast.value);
    AttemptIsSettled(key, requestTimeout, t);
    forall dbs: Attempt | dbs.Possible() ensures Get(key, requestTimeout, t, dbs) == Said(t.fast.value) {
      GetIsSettled(key, requestTimeout, t, dbs);
    }
  }

  lemma RaceOfOne(key: Bytes, requestTimeout: nat, fast: Option<Reply>, r: Reply)
    requires !(fast.Some? && Decisive(key, fast.value)) && Decisive(key, r)
    ensures var t := RaceOf(fast, r);
            AskDBs(key, requestTimeout, t) == Said(r) &&
            forall dbs: Attempt | dbs.Possible() :: Get(key, requestTimeout, t, dbs) == Said(r)
  {
    var t := RaceOf(fast, r);
    assert For(key)(r) && t.FirstDecisive(For(key), 0) && t.order[0].1 == r;
    assert t.SettledBy(For(key), r);
    AttemptIsSettled(key, requestTimeout, t);
    forall dbs: Attempt | dbs.Possible() ensures Get(key, requestTimeout, t, dbs) == Said(r) {
      GetIsSettled(key, requestTimeout, t, dbs);
    }
  }

  /** What the databases do can matter only when no cache that was asked gave a value or a not-found in time. */
  lemma DatabasesAreAFallback(key: Bytes, requestTimeout: nat, caches: Attempt, dbs: Attempt, others: Attempt)
    requires caches.Possible()
    requires Get(key, requestTimeout, caches, dbs) != Get(key, requestTimeout, caches, others)
    ensures caches.fast.Some? ==> !Find(key, requestTimeout, [], caches.fast.value).Good()
    ensures caches.n == 0 || caches.timedOut ||
            forall i | 0 <= i < |caches.order| :: !Find(key, requestTimeout, [], caches.order[i].1).Good()
  {
    var answers := FindAll(key, requestTimeout, caches.order);
    NoneGood(answers);
    if FirstGood(answers).None? {
      forall i | 0 <= i < |caches.order| ensures !Find(key, requestTimeout, [], caches.order[i].1).Good() {
        assert answers[i] in answers;
      }
    } else {
      assert exists i :: 0 <= i < |answers| && answers[i] == FirstGood(answers).value;
    }
  }
}
