/**
 The "ask every server, first good answer wins" races: tryAllCaches and tryAllDBFind.

 Each server's goroutine ends in one critical section. A run of a race is the sequence of answers
 in the order in which those critical sections execute, which is arbitrary.
 */
module Race {
  import opened Wrappers
  import opened ByteOrder

  datatype Err = NotFound | Timeout | Other

  /** What one `find` returned; a value of None stands for the empty string or no bytes. */
  datatype Answer<V> = Answer(url: Bytes, value: Option<V>, duration: nat, err: Option<Err>) {
    predicate Good() {
      value.Some? || err == Some(NotFound)
    }

    /** An error comes without a value and a value without an error. */
    predicate Proper() {
      err.None? <==> value.Some?
    }
  }

  // ---- what the races are meant to deliver ----

  function FirstGood<V>(answers: seq<Answer<V>>): Option<Answer<V>> {
    if answers == [] then None
    else
      var before := FirstGood(answers[..|answers| - 1]);
      if before.Some? then before
      else if answers[|answers| - 1].Good() then Some(answers[|answers| - 1])
      else None
  }

  /** FirstGood is the good answer that completed before every other good one. */
  lemma {:induction false} FirstGoodIsFirst<V>(answers: seq<Answer<V>>, n: nat)
    requires n < |answers| && answers[n].Good() && forall i | 0 <= i < n :: !answers[i].Good()
    ensures FirstGood(answers) == Some(answers[n])
  {
    var before := answers[..|answers| - 1];
    if n < |before| { FirstGoodIsFirst(before, n); } else { NoneGood(before); }
  }

  lemma {:induction false} NoneGood<V>(answers: seq<Answer<V>>)
    ensures FirstGood(answers).None? <==> forall a | a in answers :: !a.Good()
    ensures FirstGood(answers).Some? ==> FirstGood(answers).value in answers && FirstGood(answers).value.Good()
  {
    if answers != [] {
      NoneGood(answers[..|answers| - 1]);
      assert answers == answers[..|answers| - 1] + [answers[|answers| - 1]];
    }
  }

  /** tryAllCaches emits the first good answer, or the last one of all when every server has failed. */
  function CacheWinner<V>(answers: seq<Answer<V>>, n: nat): Option<Answer<V>> {
    if FirstGood(answers).Some? then FirstGood(answers)
    else if answers != [] && |answers| == n then Some(answers[n - 1])
    else None
  }

  /** Answer j is the last to complete among those of least duration, and in time. */
  ghost predicate Fastest<V>(answers: seq<Answer<V>>, limit: nat, j: int) {
    && 0 <= j < |answers| && answers[j].duration <= limit
    && (forall i | 0 <= i < |answers| :: answers[j].duration <= answers[i].duration)
    && (forall i | j < i < |answers| :: answers[j].duration < answers[i].duration)
  }

  // ---- tryAllCaches ----

  /** The variables shared by the goroutines of one tryAllCaches call, and the answers so far. */
  class CacheRace<V(==)> {
    const n: nat
    const requestTimeout: nat
    var fetched: bool
    var completeCount: nat
    var fastURL: Bytes
    var minDuration: nat
    var resErr: Option<Err>
    var data: seq<Option<V>>
    var completed: nat
    ghost var seen: seq<Answer<V>>

    ghost predicate Valid()
      reads this
    {
      && n > 0 && completeCount == |seen| <= n
      && completed == (if |seen| == n then 1 else 0)
      && fetched == CacheWinner(seen, n).Some?
      && data == (if fetched then [CacheWinner(seen, n).value.value] else [])
      && resErr == (if fetched then CacheWinner(seen, n).value.err else None)
      && FastSoFar(seen, requestTimeout, minDuration, fastURL)
    }

    constructor (n: nat, requestTimeout: nat)
      requires n > 0
      ensures Valid() && seen == [] && this.n == n && this.requestTimeout == requestTimeout
    {
      this.n, this.requestTimeout := n, requestTimeout;
      fetched, completeCount, fastURL, minDuration := false, 0, [], requestTimeout;
      resErr, data, completed, seen := None, [], 0, [];
    }

    /** The critical section's first half: a later answer of equal duration takes the lead. */
    method NoteDuration(a: Answer<V>)
      requires FastSoFar(seen, requestTimeout, minDuration, fastURL)
      modifies this`minDuration, this`fastURL
      ensures FastSoFar(seen + [a], requestTimeout, minDuration, fastURL)
    {
      FastStep(seen, requestTimeout, minDuration, fastURL, a);
      if a.duration <= minDuration {
        minDuration := a.duration;
        fastURL := a.url;
      }
    }

    /** The critical section of one goroutine. */
    method Complete(a: Answer<V>)
      requires Valid() && |seen| < n
      modifies this
      ensures Valid() && seen == old(seen) + [a]
    {
      NoteDuration(a);
      WinnerStep(seen, n, a);
      seen := seen + [a];
      completeCount := completeCount + 1;
      var last := completeCount == n;
      if last { completed := completed + 1; }
      if !fetched && (last || a.value.Some? || a.err == Some(NotFound)) {
        fetched, resErr, data := true, a.err, data + [a.value];
      }
    }
  }

  /** What minDuration and fastURL mean after some answers. */
  ghost predicate FastSoFar<V>(answers: seq<Answer<V>>, limit: nat, min: nat, url: Bytes) {
    || (min == limit && url == [] && forall a | a in answers :: a.duration > limit)
    || exists j :: Fastest(answers, limit, j) && url == answers[j].url && min == answers[j].duration
  }

  lemma FastStep<V>(before: seq<Answer<V>>, limit: nat, min: nat, url: Bytes, a: Answer<V>)
    requires FastSoFar(before, limit, min, url)
    ensures if a.duration <= min then FastSoFar(before + [a], limit, a.duration, a.url)
            else FastSoFar(before + [a], limit, min, url)
  {
    var after := before + [a];
    if a.duration <= min {
      assert Fastest(after, limit, |before|);
    } else if j :| Fastest(before, limit, j) && url == before[j].url && min == before[j].duration {
      assert Fastest(after, limit, j);
    }
  }

  lemma WinnerStep<V>(before: seq<Answer<V>>, n: nat, a: Answer<V>)
    requires |before| < n
    ensures CacheWinner(before + [a], n) ==
            if CacheWinner(before, n).Some? then CacheWinner(before, n)
            else if a.Good() || |before| + 1 == n then Some(a)
            else None
  {
    assert (before + [a])[..|before|] == before;
  }

  /** The result of one tryAllCaches call. */
  function CacheRaceResult<V>(answers: seq<Answer<V>>, n: nat, timedOut: bool): (Option<V>, Option<Err>) {
    if n == 0 then (None, Some(Other))
    else if timedOut || CacheWinner(answers, n).None? then (None, Some(Timeout))
    else (CacheWinner(answers, n).value.value, CacheWinner(answers, n).value.err)
  }

  /**
   tryAllCaches over n servers. `answers` are those whose critical sections ran; `timedOut` says
   that the caller's timer fired before it received from the data channel. The fast cache is
   replaced once all n goroutines are through.
   */
  method TryAllCaches<V(==)>(answers: seq<Answer<V>>, n: nat, requestTimeout: nat, timedOut: bool)
    returns (value: Option<V>, err: Option<Err>, fastCache: Option<Bytes>)
    requires |answers| <= n
    ensures (value, err) == CacheRaceResult(answers, n, timedOut)
    ensures fastCache.Some? ==> |answers| == n && fastCache.value != [] &&
                                exists j :: Fastest(answers, requestTimeout, j) && fastCache.value == answers[j].url
    ensures |answers| == n && fastCache.None? ==>
              forall j | Fastest(answers, requestTimeout, j) :: answers[j].url == []
  {
    if n == 0 { return None, Some(Other), None; }
    var race := new CacheRace<V>(n, requestTimeout);
    for i := 0 to |answers|
      invariant race.Valid() && race.n == n && race.requestTimeout == requestTimeout
      invariant race.seen == answers[..i]
    {
      race.Complete(answers[i]);
      assert answers[..i + 1] == answers[..i] + [answers[i]];
    }
    assert answers[..|answers|] == answers;
    fastCache := if race.completed == 1 && race.fastURL != [] then Some(race.fastURL) else None;
    if timedOut || race.data == [] { return None, Some(Timeout), fastCache; }
    return race.data[0], race.resErr, fastCache;
  }

  /** Answer i is the first to complete with a value or a not-found. */
  predicate FirstGoodAt<V>(answers: seq<Answer<V>>, i: int) {
    0 <= i < |answers| && answers[i].Good() && forall j | 0 <= j < i :: !answers[j].Good()
  }

  /**
   What tryAllCaches delivers, in every case: nothing without servers or when the timer wins; else
   the first good answer; else, once every server has failed, what the last one reported.
   */
  lemma CacheRaceIs<V>(answers: seq<Answer<V>>, n: nat, timedOut: bool)
    requires |answers| <= n
    ensures var result := CacheRaceResult(answers, n, timedOut);
            && (n == 0 ==> result == (None, Some(Other)))
            && (n > 0 && timedOut ==> result == (None, Some(Timeout)))
            && (n > 0 && !timedOut ==>
                  && (forall i | FirstGoodAt(answers, i) :: result == (answers[i].value, answers[i].err))
                  && ((forall a | a in answers :: !a.Good()) ==>
                        result == if |answers| == n then (answers[n - 1].value, answers[n - 1].err)
                                  else (None, Some(Timeout))))
  {
    NoneGood(answers);
    forall i | FirstGoodAt(answers, i) ensures FirstGood(answers) == Some(answers[i]) {
      FirstGoodIsFirst(answers, i);
    }
  }

  /** Once all n servers have answered, exactly one result is there, and it is an error only if no value won. */
  lemma AllAnswered<V>(answers: seq<Answer<V>>, n: nat)
    requires n > 0 && |answers| == n && forall a | a in answers :: a.Proper()
    ensures CacheWinner(answers, n).Some? && CacheWinner(answers, n).value in answers
    ensures var (value, err) := CacheRaceResult(answers, n, false);
            (err.None? <==> value.Some?) &&
            (err.Some? && err != Some(NotFound) <==> forall a | a in answers :: !a.Good())
  {
    NoneGood(answers);
  }

  /**
   A failed server costs the whole timeout. The remembered fast cache is one that failed exactly
   when no server took less than the timeout and the last of those that took it failed.
   */
  lemma FastCacheFailedIff<V>(answers: seq<Answer<V>>, limit: nat, j: int)
    requires Fastest(answers, limit, j)
    requires forall a | a in answers && !a.Good() :: a.duration == limit
    ensures !answers[j].Good() <==>
            (forall a | a in answers :: a.duration >= limit) &&
            exists i | 0 <= i < |answers| ::
              !answers[i].Good() && forall l | i < l < |answers| :: answers[l].duration > limit
  {
    if !answers[j].Good() {
      assert answers[j] in answers;
      assert forall l | j < l < |answers| :: answers[l].duration > limit;
    }
    if i :| 0 <= i < |answers| && !answers[i].Good() && forall l | i < l < |answers| :: answers[l].duration > limit {
      assert answers[i] in answers && answers[j] in answers;
    }
  }

  /** It happens: one cache answers, but only just in time, and after it another one times out. */
  lemma FastCacheCanHaveFailed<V>(slow: Bytes, dead: Bytes, value: V, limit: nat)
    ensures var answers := [Answer(slow, Some(value), limit, None), Answer(dead, None, limit, Some(Timeout))];
            Fastest(answers, limit, 1) && !answers[1].Good() &&
            CacheRaceResult(answers, 2, false) == (Some(value), None)
  {
    var answers := [Answer(slow, Some(value), limit, None), Answer(dead, None, limit, Some(Timeout))];
    FirstGoodIsFirst(answers, 0);
  }

  // ---- tryAllDBFind ----

  /** The variables shared by the goroutines of one tryAllDBFind call. completeCount is never incremented. */
  class DbRace<V(==)> {
    const n: nat
    var got: bool
    var completeCount: nat
    var fastURL: Bytes
    var resErr: Option<Err>
    var data: seq<Option<V>>
    ghost var seen: seq<Answer<V>>

    ghost predicate Valid()
      reads this
    {
      && n > 0 && completeCount == 0
      && got == FirstGood(seen).Some?
      && data == (if got then [FirstGood(seen).value.value] else [])
      && (got ==> resErr == FirstGood(seen).value.err && fastURL == FirstGood(seen).value.url)
    }

    constructor (n: nat)
      requires n > 0
      ensures Valid() && seen == [] && this.n == n
    {
      this.n := n;
      got, completeCount, fastURL, resErr, data, seen := false, 0, [], None, [], [];
    }

    /** The critical section of one goroutine. */
    method Complete(a: Answer<V>)
      requires Valid()
      modifies this
      ensures Valid() && seen == old(seen) + [a]
    {
      assert (seen + [a])[..|seen|] == seen;
      seen := seen + [a];
      if a.value.Some? || a.err == Some(NotFound) || completeCount == n {
        if !got {
          got, fastURL, resErr, data := true, a.url, a.err, data + [a.value];
        }
      }
    }
  }

  function DbRaceResult<V>(answers: seq<Answer<V>>, n: nat, timedOut: bool): (Option<V>, Option<Err>) {
    if n == 0 then (None, Some(Other))
    else if timedOut || FirstGood(answers).None? then (None, Some(Timeout))
    else (FirstGood(answers).value.value, FirstGood(answers).value.err)
  }

  /** tryAllDBFind; fastDB is the argument of the setFastDB call it starts, if it starts one. */
  method TryAllDBFind<V(==)>(answers: seq<Answer<V>>, n: nat, timedOut: bool)
    returns (value: Option<V>, err: Option<Err>, fastDB: Option<Bytes>)
    requires |answers| <= n
    ensures (value, err) == DbRaceResult(answers, n, timedOut)
    ensures n == 0 ==> fastDB.None?
    ensures n > 0 && (timedOut || FirstGood(answers).None?) ==> fastDB == Some([])
    ensures n > 0 && !timedOut && FirstGood(answers).Some? ==> fastDB == Some(FirstGood(answers).value.url)
  {
    if n == 0 { return None, Some(Other), None; }
    var race := new DbRace<V>(n);
    for i := 0 to |answers|
      invariant race.Valid() && race.n == n && race.seen == answers[..i]
    {
      race.Complete(answers[i]);
      assert answers[..i + 1] == answers[..i] + [answers[i]];
    }
    assert answers[..|answers|] == answers;
    if timedOut || race.data == [] { return None, Some(Timeout), Some([]); }
    value, err := race.data[0], race.resErr;
    NoneGood(answers);
    fastDB := if value.Some? || err == Some(NotFound) then Some(race.fastURL) else None;
  }

  /**
   What tryAllDBFind delivers, in every case: nothing without servers; else the first good answer
   unless the timer wins; and nothing but the timer's error when there is none.
   */
  lemma DbRaceIs<V>(answers: seq<Answer<V>>, n: nat, timedOut: bool)
    requires |answers| <= n
    ensures var result := DbRaceResult(answers, n, timedOut);
            && (n == 0 ==> result == (None, Some(Other)))
            && (n > 0 && (timedOut || forall a | a in answers :: !a.Good()) ==> result == (None, Some(Timeout)))
            && (n > 0 && !timedOut ==>
                  forall i | FirstGoodAt(answers, i) :: result == (answers[i].value, answers[i].err))
  {
    NoneGood(answers);
    forall i | FirstGoodAt(answers, i) ensures FirstGood(answers) == Some(answers[i]) {
      FirstGoodIsFirst(answers, i);
    }
  }

  /**
   An answer is delivered exactly when some server had one and the timer did not win; it is then a
   server's own answer, and a missing error means a value. When every server fails the caller is
   left to its timer, whatever the servers reported and however early.
   */
  lemma DbRaceDelivers<V>(answers: seq<Answer<V>>, n: nat, timedOut: bool)
    requires 0 < n && |answers| <= n && forall a | a in answers :: a.Proper()
    ensures var (value, err) := DbRaceResult(answers, n, timedOut);
            (err.None? <==> value.Some?) &&
            (err == Some(Timeout) || exists a | a in answers :: a.Good() && a.value == value && a.err == err) &&
            (err == Some(Timeout) <==> timedOut || forall a | a in answers :: !a.Good())
  {
    NoneGood(answers);
  }
}
