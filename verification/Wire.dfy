/** HTTP replies as their receivers tell them apart, and a database node's answer to a read. */
module Wire {
  import opened Wrappers
  import opened ByteOrder
  import opened Replay

  /** A reply body: no bytes, bytes that do not decode, or the JSON document of a key and its value. */
  datatype Body = NoBytes | Junk | Doc(key: Bytes, value: Bytes)

  /** The end of one request: a timer fired, the transport failed, or a response came. */
  datatype Reply = TimedOut | Broken | Response(status: int, body: Body, duration: nat) {
    predicate Ok() {
      Response? && status == OK
    }
    predicate Missing() {
      Response? && status == NOT_FOUND
    }
  }

  /**
   What the network does to one attempt to read: the reply of the remembered server, if one is
   remembered, and the race among all n servers, with the replies in completion order.
   */
  datatype Attempt = Attempt(fast: Option<Reply>, n: nat, order: seq<(Bytes, Reply)>, timedOut: bool) {
    /** The replies it may have received. */
    function Replies(): (rs: seq<Reply>)
      ensures fast.Some? ==> fast.value in rs
      ensures forall i | 0 <= i < |order| :: order[i].1 in rs
    {
      var raced := seq(|order|, i requires 0 <= i < |order| => order[i].1);
      assert forall i | 0 <= i < |order| :: raced[i] == order[i].1;
      if fast.Some? then [fast.value] + raced else raced
    }

    predicate Possible() {
      |order| <= n
    }

    /**
     r settles the attempt: it is decisive and came from the remembered server, or that server gave
     nothing decisive, the timer did not win, and r is the first decisive reply of the race.
     */
    predicate SettledBy(decisive: Reply -> bool, r: Reply) {
      if fast.Some? && decisive(fast.value) then r == fast.value
      else !timedOut && exists i | 0 <= i < |order| :: order[i].1 == r && FirstDecisive(decisive, i)
    }

    predicate FirstDecisive(decisive: Reply -> bool, i: nat)
      requires i < |order|
    {
      decisive(order[i].1) && forall j | 0 <= j < i :: !decisive(order[j].1)
    }

    ghost predicate Settled(decisive: Reply -> bool) {
      exists r :: SettledBy(decisive, r)
    }
  }

  /** If some reply of the race is decisive, one is the first. */
  lemma {:induction false} SomebodyIsFirst(t: Attempt, decisive: Reply -> bool, i: nat) returns (first: nat)
    requires i < |t.order| && decisive(t.order[i].1)
    ensures first <= i && t.FirstDecisive(decisive, first)
  {
    if j: nat :| j < i && decisive(t.order[j].1) {
      first := SomebodyIsFirst(t, decisive, j);
    } else {
      first := i;
    }
  }

  const OK := 200
  const BAD_REQUEST := 400
  const NOT_FOUND := 404
  const INTERNAL_ERROR := 500

  /**
   handleGet of db/node/service: only a node that believes itself leader answers, and an empty
   value reads as a missing key. Error bodies carry neither key nor value.
   */
  function HandleGet(believesLeader: bool, key: Bytes, m: Kv, duration: nat): (r: Reply)
    ensures r.Response? && r.duration == duration && r.status in {200, 400, 404}
    ensures r.status == 200 <==> believesLeader && key != [] && Lookup(m, key) !in {None, Some([])}
    ensures r.status == 404 <==> believesLeader && key != [] && Lookup(m, key) in {None, Some([])}
    ensures r.Ok() <==> believesLeader && key != [] && Lookup(m, key) !in {None, Some([])}
    ensures r.Ok() ==> r.body == Doc(key, m[key])
    ensures r.Missing() <==> believesLeader && key != [] && Lookup(m, key) in {None, Some([])}
  {
    if !believesLeader || key == [] then Response(BAD_REQUEST, Doc([], []), duration)
    else
      var value := if key in m then m[key] else [];
      if value == [] then Response(NOT_FOUND, Doc([], []), duration)
      else Response(OK, Doc(key, value), duration)
  }
}
