/** cache/master/master.go: the cache nodes a master knows, in memory and in the meta store. */
module CacheMaster {
  import opened Wrappers
  import opened ByteOrder
  import Sorting

  /** Pairs of a node's HTTP address and its groupcache address. */
  type Nodes = map<Bytes, Bytes>

  // ---- urlutil.MakeURL ----

  const HTTP: Bytes := [104, 116, 116, 112, 58, 47, 47]
  const HTTPS: Bytes := [104, 116, 116, 112, 115, 58, 47, 47]
  const LOCALHOST: Bytes := [49, 50, 55, 46, 48, 46, 48, 46, 49]
  const COLON: byte := 58
  const SLASH: byte := 47

  function TrimSlash(s: Bytes): Bytes {
    if s != [] && s[|s| - 1] == SLASH then s[..|s| - 1] else s
  }

  function MakeURL(addr: Bytes): Bytes {
    TrimSlash(
      if addr != [] && addr[0] == COLON then HTTP + LOCALHOST + addr
      else if HTTP <= addr || HTTPS <= addr then addr
      else HTTP + addr)
  }

  predicate IsAscii(text: string) {
    forall i | 0 <= i < |text| :: text[i] < 128 as char
  }

  function Code(c: char): byte
    requires c < 128 as char
  {
    c as int
  }

  function Ascii(text: string): (r: Bytes)
    requires IsAscii(text)
    ensures |r| == |text| && forall i | 0 <= i < |text| :: r[i] == Code(text[i])
  {
    seq(|text|, i requires 0 <= i < |text| && text[i] < 128 as char => Code(text[i]))
  }

  lemma Constants()
    ensures HTTP == Ascii("http://") && HTTPS == Ascii("https://") && HTTP + LOCALHOST == Ascii("http://127.0.0.1")
  {
  }

  /** The address with its scheme and host. */
  function Completed(addr: Bytes): Bytes {
    if Ascii(":") <= addr then Ascii("http://127.0.0.1") + addr
    else if Ascii("http://") <= addr || Ascii("https://") <= addr then addr
    else Ascii("http://") + addr
  }

  /** MakeURL completes the address and takes one slash off its end, if there is one. */
  lemma MakeURLIs(addr: Bytes)
    ensures MakeURL(addr) == Completed(addr) || MakeURL(addr) + Ascii("/") == Completed(addr)
    ensures MakeURL(addr) == Completed(addr) <==> !EndsWith(Completed(addr), Ascii("/"))
  {
    Constants();
    var url := Completed(addr);
    assert Ascii(":") == [COLON] && Ascii("/") == [SLASH];
    if url != [] && url[|url| - 1] == SLASH {
      assert url == url[..|url| - 1] + [SLASH];
    }
  }

  predicate EndsWith(s: Bytes, end: Bytes) {
    |end| <= |s| && s[|s| - |end|..] == end
  }

  // ---- address lists ----

  /** order lists every key once. */
  ghost predicate Lists(order: seq<Bytes>, keys: set<Bytes>) {
    multiset(order) == multiset(keys)
  }

  function Images(p: Nodes, order: seq<Bytes>): (r: seq<Bytes>)
    requires forall k | k in order :: k in p
    ensures |r| == |order|
  {
    seq(|order|, i requires 0 <= i < |order| => p[order[i]])
  }

  lemma TakeOne(order: seq<Bytes>, todo: set<Bytes>, k: Bytes)
    requires k in todo
    ensures multiset(order + [k]) + multiset(todo - {k}) == multiset(order) + multiset(todo)
  {
    assert multiset(todo) == multiset(todo - {k}) + multiset{k};
  }

  /** httpAddrs: lists the keys, in whatever order the map is ranged over, and sorts the list. */
  method HttpAddrs(p: Nodes) returns (addrs: seq<Bytes>)
    ensures Sorting.Sorted(addrs, Leq) && Lists(addrs, p.Keys)
  {
    addrs := [];
    var todo := p.Keys;
    while todo != {}
      invariant multiset(addrs) + multiset(todo) == multiset(p.Keys)
      decreases todo
    {
      var k :| k in todo;
      TakeOne(addrs, todo, k);
      addrs, todo := addrs + [k], todo - {k};
    }
    addrs := SortStrings(addrs);
  }

  /** nodeAddrs: likewise with the values; order is the order in which the map was ranged over. */
  method NodeAddrs(p: Nodes) returns (addrs: seq<Bytes>, ghost order: seq<Bytes>)
    ensures Sorting.Sorted(addrs, Leq)
    ensures Lists(order, p.Keys) && (forall k | k in order :: k in p) && multiset(addrs) == multiset(Images(p, order))
  {
    addrs, order := [], [];
    var todo := p.Keys;
    while todo != {}
      invariant todo <= p.Keys && multiset(order) + multiset(todo) == multiset(p.Keys)
      invariant (forall k | k in order :: k in p) && addrs == Images(p, order)
      decreases todo
    {
      var k :| k in todo;
      TakeOne(order, todo, k);
      assert Images(p, order + [k]) == Images(p, order) + [p[k]];
      addrs, order, todo := addrs + [p[k]], order + [k], todo - {k};
    }
    addrs := SortStrings(addrs);
  }

  /** As many different elements as there are places: every element occurs once. */
  lemma {:induction false} NoRepeats(s: seq<Bytes>, elements: set<Bytes>)
    requires |s| == |elements| && forall x :: x in s <==> x in elements
    ensures multiset(s) == multiset(elements)
  {
    if s != [] {
      var x, rest := s[0], s[1..];
      assert s == [x] + rest;
      var others := set y | y in rest;
      SetNoLarger(rest);
      assert elements == others + {x};
      assert x !in others by { assert |others + {x}| > |others|; }
      assert elements - {x} == others;
      NoRepeats(rest, others);
    }
  }

  lemma {:induction false} SetNoLarger(s: seq<Bytes>)
    ensures |set y | y in s| <= |s|
  {
    if s != [] {
      SetNoLarger(s[1..]);
      assert s == [s[0]] + s[1..];
      assert (set y | y in s) == (set y | y in s[1..]) + {s[0]};
    }
  }

  lemma ImageMembers(p: Nodes, order: seq<Bytes>)
    requires Lists(order, p.Keys) && forall k | k in order :: k in p
    ensures |order| == |p.Keys| && forall x :: x in Images(p, order) <==> x in p.Values
  {
    assert |order| == |multiset(order)| == |p.Keys|;
    forall x | x in p.Values ensures x in Images(p, order) {
      var k :| k in p && p[k] == x;
      assert k in multiset(order);
      var i :| 0 <= i < |order| && order[i] == k;
      assert Images(p, order)[i] == x;
    }
    forall x | x in Images(p, order) ensures x in p.Values {
      var i :| 0 <= i < |order| && Images(p, order)[i] == x;
      assert order[i] in p;
    }
  }

  /**
   A node that joins is answered with HTTP addresses while the heartbeat sends groupcache addresses.
   The two lists are the same exactly when the groupcache addresses are the HTTP addresses: each
   groupcache address is also some node's HTTP address and the other way round.
   */
  lemma JoinReplyIsHeartbeatIff(p: Nodes, http: seq<Bytes>, node: seq<Bytes>, order: seq<Bytes>)
    requires Sorting.Sorted(http, Leq) && Lists(http, p.Keys)
    requires Sorting.Sorted(node, Leq) && Lists(order, p.Keys)
    requires (forall k | k in order :: k in p) && multiset(node) == multiset(Images(p, order))
    ensures http == node <==> p.Values == p.Keys
  {
    ImageMembers(p, order);
    BagsAgreeIff(Images(p, order), p.Keys, p.Values);
    if multiset(http) == multiset(node) { SortedStringsUnique(http, node); }
  }

  lemma BagsAgreeIff(images: seq<Bytes>, keys: set<Bytes>, values: set<Bytes>)
    requires |images| == |keys| && forall x :: x in images <==> x in values
    ensures multiset(images) == multiset(keys) <==> values == keys
  {
    if values == keys {
      NoRepeats(images, keys);
    } else if multiset(images) == multiset(keys) {
      forall x ensures x in keys <==> x in values { assert x in images <==> x in multiset(images); }
    }
  }

  lemma Singleton(s: seq<Bytes>, x: Bytes)
    requires multiset(s) == multiset({x})
    ensures s == [x]
  {
    assert multiset({x}) == multiset{x};
    SingletonBag(s, x);
  }

  lemma SingletonBag(s: seq<Bytes>, x: Bytes)
    requires multiset(s) == multiset{x}
    ensures s == [x]
  {
    assert |s| == |multiset(s)| == 1;
    assert s[0] in multiset(s);
  }

  datatype JoinError = WrongParams | PutFailed
  datatype Reply = Reply(peers: seq<Bytes>, dbs: seq<Bytes>)

  class Master {
    var nodesMap: Nodes
    var dbs: seq<Bytes>
    /** The copy under nodesMapKey in the meta store. */
    var stored: Nodes
    /** Some update has failed to reach the meta store since one last did. */
    ghost var behind: bool

    ghost predicate Valid()
      reads this
    {
      !behind ==> stored == nodesMap
    }

    /** New reads the stored copy. */
    constructor (stored: Nodes)
      ensures Valid() && !behind && nodesMap == stored && this.stored == stored && dbs == []
    {
      nodesMap, this.stored, dbs, behind := stored, stored, [], false;
    }

    /** updateNodesMap */
    method Update(putFails: bool) returns (ok: bool)
      modifies this`stored, this`behind
      ensures Valid() && ok == !putFails && behind == putFails
      ensures stored == if ok then nodesMap else old(stored)
    {
      if putFails {
        behind := true;
        return false;
      }
      stored, behind := nodesMap, false;
      return true;
    }

    /** JoinNode. When the meta store refuses, the caller gets an error and yet stays in the master's map. */
    method JoinNode(httpAddr: Bytes, nodeAddr: Bytes, putFails: bool) returns (r: Result<Reply, JoinError>)
      requires Valid()
      modifies this`nodesMap, this`stored, this`behind
      ensures Valid()
      ensures r == Err(WrongParams) <==> httpAddr == [] || nodeAddr == []
      ensures r == Err(WrongParams) ==> nodesMap == old(nodesMap) && stored == old(stored) && behind == old(behind)
      ensures r != Err(WrongParams) ==>
                nodesMap == old(nodesMap)[MakeURL(httpAddr) := MakeURL(nodeAddr)] && behind == putFails &&
                (r.Err? <==> putFails) && stored == if putFails then old(stored) else nodesMap
      ensures r.Ok? ==> Sorting.Sorted(r.value.peers, Leq) && Lists(r.value.peers, nodesMap.Keys) && r.value.dbs == dbs
    {
      if httpAddr == [] || nodeAddr == [] { return Err(WrongParams); }
      nodesMap := nodesMap[MakeURL(httpAddr) := MakeURL(nodeAddr)];
      var ok := Update(putFails);
      if !ok { return Err(PutFailed); }
      var peers := HttpAddrs(nodesMap);
      return Ok(Reply(peers, dbs));
    }

    /** removeNode; a refusal by the meta store is only logged. */
    method RemoveNode(node: Bytes, putFails: bool)
      requires Valid()
      modifies this`nodesMap, this`stored, this`behind
      ensures Valid() && nodesMap == old(nodesMap) - {node}
      ensures node !in old(nodesMap) ==> stored == old(stored) && behind == old(behind)
      ensures node in old(nodesMap) ==> behind == putFails && stored == if putFails then old(stored) else nodesMap
    {
      if node !in nodesMap { return; }
      nodesMap := nodesMap - {node};
      var _ := Update(putFails);
    }
  }

  /**
   The first node that joins an empty master is told its own HTTP address, and by the next heartbeat
   its groupcache address: the two lists are the same only if the two URLs are.
   */
  method FirstJoinDiffers(httpAddr: Bytes, nodeAddr: Bytes)
    returns (joined: Result<Reply, JoinError>, beat: seq<Bytes>)
    requires httpAddr != [] && nodeAddr != []
    ensures joined.Ok? && joined.value.peers == [MakeURL(httpAddr)] && beat == [MakeURL(nodeAddr)]
    ensures joined.value.peers != beat <==> MakeURL(httpAddr) != MakeURL(nodeAddr)
  {
    var master := new Master(map[]);
    joined := master.JoinNode(httpAddr, nodeAddr, false);
    ghost var order;
    beat, order := NodeAddrs(master.nodesMap);
    ghost var http, node := MakeURL(httpAddr), MakeURL(nodeAddr);
    assert master.nodesMap == map[http := node];
    assert master.nodesMap.Keys == {http};
    Singleton(joined.value.peers, http);
    Singleton(order, http);
    assert Images(map[http := node], order) == [node];
    SingletonBag(beat, node);
  }
}
