# oncekv, verified in Dafny

oncekv is a replicated key/value store in which a key can be set only once, with read caches that
are never invalidated. This project models the store and proves what its design rests on.

| module | models | what is proved |
|---|---|---|
| `OnceKV` | the whole store as a step machine: committed log, replicas at any prefix of it, snapshots, caches, replies in flight, clients | all successful reads of a key agree, for ever; where every not-found comes from |
| `OnceKVRuns`, `OnceKVReads` | what a run can lead to | exactly which committed keys can be read; for any log, exactly when all reads of a key agree; in any state, exactly what a read can find and when it can miss |
| `OnceKVHistory` | what a state says about its run | exactly since when a cache keeps a body, a reply is in flight, a node takes itself for the leader |
| `Replay` | what a log of commands does to the map | closed form, independence of keys, overlapping replay |
| `BoltStore`, `BigEndian` | the durable Raft log under big-endian keys | the bucket refines the history of committed transactions; byte order is numeric order |
| `Store` | the Raft state machine, its snapshots, a restart after compaction | a restart rebuilds the committed map or reports failure, and exactly when it rebuilds all of it |
| `Durability` | the life of one node: appends, commits, snapshots, deletions, bad disks and crashes in any order | its map is always that of a prefix of the committed log; which snapshot it comes back from; exactly when a crash loses something |
| `HashRing`, `ShardMaster` | the consistent-hash ring and the ring of shards | minimal disruption, decimal labels, exactly when order matters, exact ownership |
| `Race`, `CacheNode`, `Client`, `Wire` | the races over all servers, cache loads, client reads | which reply settles a read or a load, for every completion order; exactly when the remembered server is believed alone |
| `DbMaster`, `Membership` | publication of node addresses, every read and write of the meta store and of the Raft peer files a step of its own | what is published is registered, over all interleavings |
| `MembershipHistory` | the same machine | exactly since when a node is in its phase, a member, a call under way, and what its file names |
| `LostPeers`, `LossRuns`, `Founding` | the same machine | for every step, exactly which peers enter and leave the list; exactly when a node comes up as a cluster of its own |
| `CacheMaster` | the cache master's map | the lists it hands out, and when they agree |

`Wrappers`, `History`, `Sorting` and `ByteOrder` hold shared vocabulary. Go strings and byte slices are
sequences of bytes. Where the code works in place on fields (the log store, the state machine,
the ring, the shared variables of a race, a cache node, the cache master) the model is a class whose methods
are proved against the functions that the lemmas are about. Nondeterminism (which replies arrive,
in which order, whether a timer fires, where bolt or the meta store fails) is always an argument, so
every theorem covers every outcome. A reply stays in flight until a step takes it away, which may be
never; this covers delay, loss and duplication.

## Where the code and its documentation differ

- `client/kv.go:86` says a live cache is always right. That holds for values. It does not hold for
  not-found: a cache that asked a lagging node which takes itself for the leader answers 404 for a
  committed key (`NotFoundAfterFound`). Every not-found of a cache goes back to such a node
  (`NotFoundHasASource`), and `NotFoundIff` says in exactly which states a Get can miss.
- Not every committed key can be read: exactly those can that are not empty, have a first value that
  is not empty, and are still asked about by the URLs into which clients and caches paste them
  without escaping (`ReadableIff`).
- `completeCount` is never incremented in either `tryAllDBFind`, so when every database fails the
  caller waits for its timer (`DbRaceDelivers`).
- The remembered fast cache can be one that failed (`FastCacheFailedIff`, `FastCacheCanHaveFailed`).
- `Start` refuses to come back when the published list holds only the node itself (`TryToJoin`).
- More than one node can come up as a cluster of its own: exactly those do that read an empty list,
  whatever happens before they open their stores, and whose file of Raft peers names no other node
  (`FoundsIff`). `Store.Open` itself asks only for at most one name in the file; a node that finds
  another one there still needs its vote (`vendor/github.com/hashicorp/raft/raft.go:199-205`). Nodes
  that start together do it (`TwoNodesBothBootstrap`), and so does a new node that starts after a
  sweep has emptied the list (`SecondClusterAfterSweep`); once somebody has been published there is no
  third way (`FurtherFounderIff`, with `EmptiedIff`). A member that restarts does not
  (`MemberFoundsNothing`, `RestartedMemberFoundsNothing`). The single committed log of `OnceKV` is
  that of one cluster; the same key can be read with different values from two clusters exactly when
  their first Adds differ and both can be read (`ClustersDisagreeIff`).
- A restart rebuilds everything as long as deletions stop at the newest snapshot or start above what
  is committed (`NothingCommittedIsLost`). Raft also clears a stored suffix when it is sent again, and
  stores it in a second transaction (`vendor/github.com/hashicorp/raft/raft.go:1397-1415`): a crash in between
  leaves committed entries missing until they are sent once more (`ClearedThenCrashed`).
- Live peers can drop out of the published list. `LeavesIff` gives the exact condition for every step:
  a sweep, an update or a node that had read an empty list overwrites it with something that lacks the peer
  (`SweepErasesLivePeer`, `StaleUpdateErasesLivePeer`).
- A joining cache node is answered with HTTP addresses, the heartbeat later sends groupcache
  addresses (`JoinReplyIsHeartbeatIff`, `FirstJoinDiffers`).

## Model

| member | source | states |
|---|---|---|
| OnceKV.SingleValueAgreement | client/kv.go:82-102 | in every run through the service, any two successful Gets of a key, at any times, return the value of the key's first committed Add |
| OnceKV.CachesStayCoherent | cache/node/node.go:243-338 | what a cache holds under a key at any moment, whichever key its URL makes the database answer about, is what every cache holds and sends under it, and what every 200 of a database to that question carries, at every later moment |
| OnceKV.RunKeepsInv | db/node/service/service.go:42-63 | over all interleavings, for any log of commands: replicas and snapshots are prefix states of the log, and every cache entry, 200 and successful Get carries a non-empty value that the key asked about holds after some prefix |
| OnceKV.PrefixAnswersRight | db/node/service/service.go:170-195 | a replica at any prefix of the log, leader or not, sends a 200 only with a value that the key holds there, which for an add-only log is the value of its first Add |
| OnceKVRuns.ReadableIff | db/node/service/service.go:170-230 | after any run through the service, some continuation has a successful Get of a committed key if and only if neither the key nor its first value is empty and a cache's question about it reaches the databases unchanged |
| OnceKV.NotFoundHasASource | client/kv.go:82-89 | in every run, a not-found that a Get takes from the caches goes back to an earlier answer of a database node that took itself for the leader and had applied a prefix of the log after which the key has no value (no first Add, or an empty one), unless a URL met no handler |
| OnceKV.AbsentSentIff | db/node/service/service.go:170-192 | in every run, a database's 404 about a key is in flight exactly when some earlier step was the answer of a node that took itself for the leader and lacked the key, and no step since took it away |
| OnceKVHistory.DbSentIff | db/node/service/service.go:170-195 | in every run, a database's 200 or 404 is in flight exactly since a node that took itself for the leader gave it, with what it held then, until a step takes it away |
| OnceKVHistory.CacheSentIff | cache/node/node.go:155-174 | in every run, a cache's reply is in flight exactly since a cache gave it, from the reply that settled a load or from the body it kept, until a step takes it away |
| OnceKVHistory.EntryIff | cache/node/node.go:243-261 | in every run, a cache keeps a body exactly since a load brought it or it kept another cache's reply, until it is evicted or replaced |
| OnceKVHistory.GetReturns | client/kv.go:82-102 | a Get returns what the reply that settles it says: of the caches if one settles it there, else of the databases, else an error that is not not-found |
| OnceKVHistory.BelievesIff | db/node/service/service.go:170-174 | a node takes itself for the leader exactly since it came to, until it ceases to or restarts |
| OnceKVHistory.SnapshotCarries | db/node/store/store.go:227-250 | whatever happens between taking and installing a snapshot, the installing node holds what the other held when it was taken |
| OnceKVHistory.ReplicaKept | db/node/store/store.go:208-250 | only applying an entry, installing a snapshot and restarting change what a node holds |
| OnceKVReads.NotFoundIff | client/kv.go:82-89 | in every state, a Get can come back from the caches with not-found, by reads alone, if and only if a URL of its key meets no handler, or a 404 about it is now in flight from the caches or the databases, or some node that takes itself for the leader now lacks the key; a URL that does not parse never leads to it |
| OnceKVReads.FoundIff | cache/node/node.go:155-174 | in every state, a Get of k can come back from the caches with v, by reads alone, if and only if v is not empty and the document of k and v is now in flight from the caches, kept by one, in flight from the databases, or held by a node that takes itself for the leader and is asked about k |
| OnceKV.StaleNotFoundIff | db/node/service/service.go:170-195 | a node with n entries applied reports a key missing that a caught-up node serves exactly when the key's first Add is not among the n and is not empty |
| OnceKVReads.NotFoundAfterFound | client/kv.go:86-89 | for every key and value, a run in which a Get succeeds and after which a Get can miss |
| OnceKVRuns.AgreementIff | client/kv.go:82-102 | for any log of commands and any key: in all runs that commit it all successful Gets of the key agree, if and only if the key holds no two different non-empty values after any prefixes, or cannot be read at all |
| OnceKVRuns.AddOnlyIsSteady | db/node/store/store.go:259-268 | an add-only log meets that condition for every key |
| OnceKVRuns.DeleteBreaksAgreement | db/node/store/store.go:270-275 | were Delete exposed, one of them lets two Gets of a key return different values |
| OnceKVRuns.ClustersDisagreeIff | client/kv.go:82-102 | Gets of a key from two clusters can differ if and only if the first Adds of the key in their logs are different and can both be read |
| Replay.ClosedForm | db/node/store/store.go:208-275 | after any log a key holds its last Set if later than its last Delete, else the first Add after that Delete, else nothing |
| Replay.TraceEquivalence | db/node/store/store.go:208-275 | logs that agree key by key do the same to every map |
| Replay.ValueFromProjection | db/node/store/store.go:252-275 | a key's value is that of replaying only the commands on it |
| Replay.DifferentKeysCommute | db/node/store/store.go:252-275 | commands on different keys commute anywhere in a log |
| Replay.OverlappingReplay | db/node/store/store.go:240-250 | restoring at i and replaying to the end from any j <= i equals one full replay, for every log of any commands |
| Replay.AddOnlyStretches | db/node/store/store.go:259-268 | on add-only logs any number of overlapping partial replays gives the state of the covered prefix |
| Replay.StretchesHarmlessIff | db/node/store/store.go:252-275 | for any log, all overlapping partial replays give the state of the covered prefix if and only if any two of its commands on one key are both Deletes, or neither is and they are not Sets of different values |
| Replay.SetBreaksStretches | db/node/store/store.go:252-257 | they do not for two Sets of a key to different values |
| Replay.DuplicateCommit | db/node/store/store.go:259-268 | committing an already added key again changes nothing, then or later |
| Replay.AddOnlyValue | db/node/store/store.go:259-268 | an add-only log makes every key hold the value of its first Add |
| Store.Fsm.Apply | db/node/store/store.go:208-224 | an entry changes the map as its command says, panics exactly on undecodable data and unknown operations, and reports a duplicate exactly for an Add of a held key |
| Store.Fsm.ApplyAdd | db/node/store/store.go:259-268 | writes once and reports a held key as duplicated |
| Store.CommandOfIs | db/node/store/store.go:208-224 | Raft's own entries change nothing, add, set and delete records are the commands, and everything else panics |
| Store.ProposedIsRecognised | db/node/store/store.go:119-175 | every command that Set, Add and Delete marshal decodes to itself |
| Store.Fsm.Snapshot | db/node/store/store.go:227-237 | the clone equals the map, in whatever order the map is ranged over |
| Store.Fsm.Restore | db/node/store/store.go:240-250 | replaces the map by the image, or leaves it alone when decoding fails |
| Store.Persist | db/node/store/store.go:281-308 | publishes the image exactly when nothing fails, and cancels the sink otherwise |
| Store.Transfer | db/node/store/store.go:227-308 | snapshot, persist and restore carry the whole map over, or change nothing |
| Store.RestoreSnapshot | vendor/github.com/hashicorp/raft/raft.go:1883-1922 | the newest restorable snapshot gives the map of its prefix; none restorable is an error |
| Store.BaseIsNewestReadable | vendor/github.com/hashicorp/raft/raft.go:1883-1922 | the snapshot restored is the readable one of greatest index; none if there are some and none is readable; index 0 if there are none at all |
| Store.ApplyTail | vendor/github.com/hashicorp/raft/raft.go:1170-1196 | applying the entries from a base up to a committed index gets there exactly when none is missing, and holds a prefix state throughout; the log may end in uncommitted entries |
| Store.Recover | db/node/store/store.go:89-108 | a restart either rebuilds the map of the committed log up to the index it knows to be committed or reports failure, and does so exactly when no needed entry is missing |
| Store.RecoverToLast | db/node/store/store.go:89-108 | when only committed entries are retained, a restart rebuilds the map up to the last of them |
| Store.CompactAndRecover | raftboltdb/bolt_store.go:189-212 | after DeleteRange(min, max), from any compacted log and any mix of readable and unreadable snapshots, a restart rebuilds the committed map if and only if a snapshot is readable (or none was taken) and the range spares the entries above the newest readable one |
| Durability.RunKeepsInv | db/node/store/store.go:208-250 | in every run of appends, commits, applications, snapshots, deletions, bad snapshots, crashes and restarts: a node that is up holds exactly the map of what it has applied, every readable snapshot is such a map, and what is retained of the committed log is that log |
| Durability.RunKeepsFiles | vendor/github.com/hashicorp/raft/file_snapshot.go:331-344 | in every run at most two snapshots are there, listed by index, and a node that is up is behind no readable one |
| Durability.SnapshotBringsBack | vendor/github.com/hashicorp/raft/raft.go:1767-1843 | in every run, right after a snapshot it is there beside the newest of the others, and a crashed node comes back with exactly what it had |
| Durability.ComesBackFromNewest | vendor/github.com/hashicorp/raft/raft.go:1883-1922 | in every run, a crashed node comes back exactly if a snapshot is readable or there is none at all, and then from the newest readable one or from nothing |
| Durability.FallsBack | vendor/github.com/hashicorp/raft/raft.go:1890-1912 | when the newer of two readable snapshots goes bad, the node comes back from the other |
| Durability.RecoverAfterRun | db/node/store/store.go:89-108 | recovery from the disk that any such run leaves rebuilds the committed map exactly when a snapshot is readable (or none was taken) and no entry above it is missing |
| Durability.CatchesUpIff | vendor/github.com/hashicorp/raft/raft.go:1170-1196 | after any such run, a node that crashes and comes back gets to the whole committed log under exactly that condition |
| Durability.NothingCommittedIsLost | vendor/github.com/hashicorp/raft/raft.go:1850-1876 | it always does in runs without bad snapshots whose deletions stop at the newest snapshot, as compaction does, or start above what is committed |
| Durability.ClearedThenCrashed | vendor/github.com/hashicorp/raft/raft.go:1397-1415 | a run in which clearing a committed suffix and crashing before it is stored again leaves an entry missing, and storing it again repairs that |
| BoltStore.ExecIsLatest | raftboltdb/bolt_store.go:144-212 | after any history of committed batches and deletions an index holds its latest entry not deleted since, the later duplicate winning inside a batch |
| BoltStore.LatestIs | raftboltdb/bolt_store.go:144-212 | that entry is e exactly if some committed batch stored e for the index, no later entry of the batch has it, and no later batch or deletion concerns it |
| BoltStore.BoltStore.GetLog | raftboltdb/bolt_store.go:144-158 | returns exactly that entry, or not-found exactly when there is none |
| BoltStore.BoltStore.StoreLogs | raftboltdb/bolt_store.go:166-186 | the whole batch is committed, or nothing at all when bolt fails anywhere |
| BoltStore.BoltStore.DeleteRange | raftboltdb/bolt_store.go:189-212 | exactly the stored indices in [min, max] go, or none when bolt fails, also for sparse logs and empty ranges |
| BoltStore.SweepRange | raftboltdb/bolt_store.go:198-209 | the cursor loop that deletes under itself terminates and removes exactly the range |
| BoltStore.BoltStore.FirstIndex | raftboltdb/bolt_store.go:110-124 | the least live index, or 0 when there is none |
| BoltStore.BoltStore.LastIndex | raftboltdb/bolt_store.go:127-141 | the greatest live index, or 0 when there is none |
| BoltStore.BoltStore.Add | raftboltdb/bolt_store.go:232-248 | refuses exactly the keys that hold a non-empty value |
| BoltStore.BoltStore.Get | raftboltdb/bolt_store.go:251-265 | returns the stored value or not-found |
| BoltStore.FirstNonEmptyAddWins | raftboltdb/bolt_store.go:232-248 | after any sequence of Adds a key holds its first non-empty value |
| BigEndian.KeyRoundTrip | raftboltdb/util.go:28-37 | the codec round-trips every uint64 and every 8-byte key |
| BigEndian.KeyOrder | raftboltdb/util.go:28-37 | lexicographic order of keys is numeric order of indices |
| ByteOrder.LessIsLexicographic | raftboltdb/bolt_store.go:198-209 | the order of keys and of sorted lists is lexicographic: by the first differing byte, and a proper prefix comes first |
| BigEndian.Uint64ToBytes | raftboltdb/util.go:33-37 | fills a fresh buffer with the big-endian numeral |
| HashRing.Map.Add | utils/consistenthash/consistenthash.go:56-65 | adds every replica of every key, later keys taking shared points over, and keeps the points sorted and owned |
| HashRing.ItoaIsNumeral | utils/consistenthash/consistenthash.go:59 | the label of a number is its decimal numeral: digits 0 to 9 that stand for it, no needless zero, a minus sign for negative ones |
| HashRing.PointIs | utils/consistenthash/consistenthash.go:59 | replica i of a key sits at the hash of the decimal numeral of key * 10 + i, wrapped to 64 bits |
| HashRing.Map.Get | utils/consistenthash/consistenthash.go:68-84 | the binary search with wrap-around finds the owner of the least point at or after the hash, else of the least point |
| HashRing.MinimalDisruption | utils/consistenthash/consistenthash.go:56-84 | adding keys moves a lookup only to one of them, and only if the nearest point is theirs, for any hash |
| HashRing.AddInBatches | utils/consistenthash/consistenthash.go:56-65 | adding keys in two batches or in one builds the same points and owners |
| HashRing.BatchesAgree | utils/consistenthash/consistenthash.go:56-65 | the same on the values that Add computes |
| HashRing.OrderMattersIffCollision | utils/consistenthash/consistenthash.go:56-65 | on top of any ring, all orders of adding the same keys answer every lookup alike if and only if no two different keys share a point |
| HashRing.ItoaInjective | utils/consistenthash/consistenthash.go:59 | different label numbers have different decimal labels |
| ShardMaster.NewRing | db/master/shardmaster.go:78-84 | the constructor loop builds the ring of shards 0 to n-1 with n replicas each |
| ShardMaster.LookupNamesAShard | db/master/shardmaster.go:78-84 | with n > 0 shards every lookup lands in [0, n); without shards it is 0 |
| ShardMaster.LabelOwner | db/master/shardmaster.go:79-84 | under a hash that separates labels, label L belongs to shard min(n-1, L/10) |
| ShardMaster.ExactOwnership | db/master/shardmaster.go:79-84 | up to ten shards own n points each; from ten on each owns ten and the last owns n |
| Race.FirstGoodIsFirst | client/kv.go:407-413 | the answer that the races deliver completed before every other value or not-found |
| Race.CacheRace.Complete | client/kv.go:379-414 | each critical section keeps the shared variables at what the completion order so far determines, with at most one result and one completed signal |
| Race.TryAllCaches | client/kv.go:360-432 | the first value or not-found in completion order wins, else the last error once all are through; the fast cache is the last to complete among the fastest |
| Race.CacheRaceIs | client/kv.go:360-432 | every case of the result: no servers, the timer, the first good answer, the last error once all have failed |
| Race.AllAnswered | client/kv.go:396-414 | when all n servers have answered there is exactly one result, an error other than not-found only if every server failed |
| Race.FastCacheFailedIff | client/kv.go:388-392 | the remembered cache is a failed one exactly when none took less than the timeout and the last that took it failed |
| Race.FastCacheCanHaveFailed | client/kv.go:388-392 | two caches for which that happens while the race delivers a value |
| Race.DbRace.Complete | client/kv.go:186-197 | each critical section keeps the result and fast URL at those of the first good answer |
| Race.TryAllDBFind | client/kv.go:164-214 | delivers the first good answer unless the timer wins, and records its URL |
| Race.DbRaceIs | client/kv.go:164-214 | every case of the result: no servers, the first good answer unless the timer wins, the timer's error |
| Race.DbRaceDelivers | cache/node/node.go:299-337 | an answer is delivered exactly when a server has one and the timer does not win; no error means a value some server gave |
| CacheNode.LoadIsAReply | cache/node/node.go:243-338 | a load without error hands over the body of a 200 reply it received; not-found was reported by a server |
| CacheNode.LoadIsSettled | cache/node/node.go:243-338 | a load comes to what the fast database says if it has a body or a 404, else to what the first such reply in time says, else to an error that is not not-found |
| CacheNode.RaceIgnoredIff | cache/node/node.go:243-261 | the fast database is believed alone, whatever the others would say, if and only if its reply is a body or a 404 |
| CacheNode.FastSettingsAre | cache/node/node.go:243-345 | which databases a load asks to be remembered or forgotten, in every case |
| CacheNode.CacheNode.Fetch | cache/node/node.go:243-261 | the method computes that outcome and starts those settings, and the fast database only ever becomes unset or one that won a race |
| CacheNode.CacheNode.SetFastDB | cache/node/node.go:340-345 | a pending update of the fast database takes effect, in any order |
| CacheNode.CacheNode.HandleMeta | cache/node/node.go:209-241 | the node ends with the master's lists sorted and the pool knows exactly the peers, also when nothing changed |
| CacheNode.Find | cache/node/node.go:263-289 | which replies are a value, a not-found, an error |
| Client.ParseData | client/kv.go:290-312 | exactly the documents about the key with a non-empty value yield that value |
| Client.Find | client/kv.go:314-357 | which replies are a value, a not-found, a timeout, another error; an error costs the whole timeout, anything else what it took |
| Client.GetIsAReply | client/kv.go:82-102 | a Get's value is the non-empty value of a 200 reply about its key, its not-found was reported by a server, and both come from a cache exactly when the caches decide |
| Client.GetIsSettled | client/kv.go:82-140 | every case of Get: what the remembered cache says if that is a value for the key or a 404, else what the first such reply of a cache in time says, else likewise at the databases, else an error that is not not-found |
| Client.RaceIgnoredIff | client/kv.go:124-162 | the remembered cache, and likewise the remembered database, is believed alone, whatever the others would say, if and only if its reply is a value for the key or a 404 |
| Client.DatabasesAreAFallback | client/kv.go:82-102 | the databases can matter only if no cache gave a value or a not-found in time |
| Wire.HandleGet | db/node/service/service.go:170-195 | 200 exactly for a believed leader and a held non-empty value, 404 exactly for a missing or empty one |
| Membership.PublishedIsSortedAndRegistered | db/master/master.go:96-155 | in every run, with non-atomic sweeps and updates, the published list is sorted and names only registered HTTP addresses |
| Membership.UpdateNeverGivesUp | db/node/service/service.go:138-165 | because nodes register before they join, updatePeers finds an address for every peer |
| Membership.LookUpsCollect | db/node/service/service.go:297-305 | the look-ups of an update collect the addresses of its peers in order |
| MembershipHistory.PhaseIff | db/node/service/service.go:138-165 | in every run, a node is in a phase (registered, having read this very list, opened alone or as a member, joining, running) exactly since a step that takes it there until one takes it on or it starts anew; a join takes a node in only if it is committed and heard and the leader did not know the node yet |
| MembershipHistory.MemberIff | vendor/github.com/hashicorp/raft/raft.go:1098-1126 | a node is a member exactly if it came up as a cluster of its own, was added to one, or added to its own |
| MembershipHistory.FileIsAsWritten | vendor/github.com/hashicorp/raft/raft.go:1217-1244 | a node's file of Raft peers names exactly what was last written: the peers of a Raft entry, or the added node, the leader and its other peers, each once more or as often as before, over any number of restarts |
| MembershipHistory.FileIsEmpty | db/node/store/store.go:75-87 | a file that has never been written names nobody |
| MembershipHistory.DueIff | db/node/service/service.go:231-253 | an update is due exactly since its leader committed a join, until it begins or the leader starts anew |
| MembershipHistory.LookingIff | db/node/service/service.go:287-308 | an update is under way exactly since it began, until it is published or its leader starts anew; it never gives up |
| MembershipHistory.GoneIff | db/master/master.go:50-94 | a sweep is about to remove exactly the peers that were published and failed when it last pinged |
| MembershipHistory.RegisteredAs | db/master/master.go:157-160 | a node's address, in the meta store and in itself, is that of its last registration |
| MembershipHistory.NotRegistered | db/master/master.go:162-165 | before its first registration a node has no address |
| LostPeers.LeavesIff | db/master/master.go:96-155 | in every run and for every step, a published peer leaves the list if and only if the step is a sweep's write and the list that the sweep had read lacked it or it had failed, or an update's publication and no look-up since it read the leader's Raft peers found it, or the publication of itself by a node that had read an empty list |
| LostPeers.EntersIff | db/master/master.go:96-155 | in every run and for every step, an address enters the list if and only if the step is the write of a sweep that had read it and not found it failed, the publication of an update one of whose look-ups found it, or that of a node with this address which had read an empty list |
| LostPeers.LivePeerLeavesIff | db/master/master.go:50-125 | the same for a peer that never fails a ping: a sweep loses it exactly when the list that the sweep had read lacked it |
| LostPeers.SweepWritesRead | db/master/master.go:96-125 | whatever happens between a sweep's read and its write, it writes exactly the peers that it had read and that had not failed, each as often as it was there |
| LostPeers.UpdatePublishesIff | db/node/service/service.go:287-308 | whatever happens between an update's look at the leader's Raft peers and its publication, as long as none of them registers anew, it publishes exactly the addresses that they had, one for each |
| LostPeers.EmptiedIff | db/master/master.go:111-124 | the list becomes empty exactly by the write of a sweep for which every peer that it had read had failed |
| LossRuns.SweepErasesLivePeer | db/master/master.go:50-125 | a run in which a sweep erases a node that joined meanwhile and never failed |
| LossRuns.StaleUpdateErasesLivePeer | db/node/service/service.go:247-252 | a run without any sweep in which the update that one join started is published after that of a later join, and erases the node that joined later |
| Founding.FoundsIff | db/node/store/store.go:59-87 | in every run a node comes up as a cluster of its own if and only if its last read of the published list found it empty, whatever happened in between, and its file of Raft peers names no other node |
| Founding.FurtherFounderIff | db/node/service/service.go:138-165 | once somebody has been published, a further node comes up as a cluster of its own if and only if its file names no other node and its last read was before the first publication or while the list was empty after a sweep emptied it |
| Founding.FoundsLateIff | db/node/service/service.go:138-165 | from any moment at which somebody is published, while no sweep empties the list, a node comes up as a cluster of its own if and only if its file names no other node and it had read the list before that moment, when it was empty |
| Founding.NobodyFoundsAgain | db/node/service/service.go:138-165 | with no such read left, nobody starts a cluster until a sweep writes an empty list |
| Founding.MemberFoundsNothing | db/node/store/store.go:75-87 | a node whose file names another node never comes up as a cluster of its own, over any number of restarts and empty reads, unless it is made to write a file that names no other node |
| Founding.RestartedMemberFoundsNothing | db/node/store/store.go:75-87 | a run in which a member restarts, reads an emptied list and opens its store as a member |
| Founding.TwoNodesBothBootstrap | db/node/service/service.go:138-165 | a run in which two nodes start together and both start a cluster of their own |
| Founding.SecondClusterAfterSweep | db/master/master.go:96-125 | a run in which a node is up and published, a sweep empties the list, and a node that registers afterwards starts a second cluster |
| DbMaster.RemoveNodes | db/master/master.go:96-125 | keeps every peer that did not fail exactly as often as it was there, in order, drops the others altogether, and reports whether any failed |
| DbMaster.KeepSorted | db/master/master.go:111-124 | removing failed peers keeps a sorted list sorted |
| DbMaster.UpdatePeers | db/node/service/service.go:287-308 | publishes the sorted addresses of all peers, or nothing exactly when one is not registered |
| DbMaster.TryToJoin | db/node/service/service.go:255-285 | succeeds exactly when the list is empty or some other peer accepts, and asks exactly the other peers up to the first that accepts, in order |
| DbMaster.AskedWhenReached | db/node/service/service.go:255-285 | a peer with only the node itself and refusing peers before it is asked, and the node itself never |
| CacheMaster.HttpAddrs | cache/master/master.go:39-49 | every HTTP address once, sorted |
| CacheMaster.NodeAddrs | cache/master/master.go:51-61 | every groupcache address as often as it occurs, sorted |
| CacheMaster.MakeURLIs | utils/urlutil/urlutil.go:9-18 | an address is completed with http:// and, if it is only a port, 127.0.0.1, and loses one slash at its end |
| CacheMaster.JoinReplyIsHeartbeatIff | cache/master/master.go:141-230 | the list a joining node gets and the list of the heartbeat agree exactly when the set of groupcache addresses is the set of HTTP addresses |
| CacheMaster.FirstJoinDiffers | cache/master/master.go:141-230 | for the first join at an empty master they differ exactly when the two URLs differ |
| CacheMaster.Master.JoinNode | cache/master/master.go:141-157 | the map and its stored copy after a join, also when the meta store refuses and the node stays in memory |
| CacheMaster.Master.RemoveNode | cache/master/master.go:232-247 | removes a known node from the map and from the stored copy unless the meta store refuses |

## Left out

- Raft itself: elections, replication and quorum are replaced by one growing committed log that any replica may follow at any distance.
- Bolt's B+tree and files: a bucket is an ordered map, a transaction is a private copy that Commit publishes, and the cursor goes on to the next larger key after a delete. The refusals of bolt's Put for empty or oversized keys and values are among the faults.
- groupcache's LRU, peer choice and request merging: a cache keeps or drops any entry at any time, and takes an entry over from any cache's reply.
- JSON, MessagePack and gob: the codecs are taken to round-trip, so invalid UTF-8 in keys and values is not modelled.
- CRC-32: the hash is any function to 32 bits; separation of labels is assumed only where stated.
- Clocks: durations are arbitrary numbers and every timer is a choice, so nothing is claimed about when things happen.
- OnceKV.SingleValueAgreement: speaks of successful Gets only, because not-found is not stable (see NotFoundIff).
- OnceKV.NotFoundHasASource: says nothing about a not-found of the client's database fallback, which asks under a path that database nodes do not serve for reads, so that a 404 is always possible there.
- URL parsing: a function says which key a server is asked when a key is pasted into a URL; it may change or lose keys, but not with time.
- OnceKVRuns.ClustersDisagreeIff: the clusters share the clients' keys and URLs but no cache; caches that ask the databases of both are not modelled.
- OnceKV.RunKeepsInv: the protocol's Puts appear as their commits, any number of times; which node proposed them is not recorded.
- Durability.RunKeepsInv: snapshots that a leader sends over the network are not among the steps, and Raft's promises (nothing else is stored under a committed index, what is learned to be committed is what is stored) are conditions of the steps.
- Store.Recover: reads of the log during a restart do not fail in bolt; a failing read would be reported like a missing entry.
- BoltStore.BoltStore.Get: does not return a fresh copy, because byte strings are values here; SetUint64 and GetUint64 add only the codec on top of Set and Get.
- HashRing.Map.Get: the midpoint is computed without overflow, which needs slices longer than memory.
- CacheNode.CacheNode.Fetch: the whole race is one call; the node's lock is represented by the order of the critical sections.
- Membership.PublishedIsSortedAndRegistered: does not say that every live peer is published, because that is false (LeavesIff says exactly when a published one is lost).
- Founding.FoundsIff: what is written to a file of Raft peers besides a leader's own additions is any list of nodes that were ever added or came up alone, because the Raft log entries that carry it are not modelled; a file is not lost while its node is down.
- Reads and writes of the meta store do not fail in Membership; a failing one ends Start, the sweep or the update early.
- CacheMaster.Master.JoinNode: the heartbeat ranging over the shared map without the lock is not modelled.
- The outcome of tryAllDBSet, whose goroutines share one error variable, and the duplicate status of handleSet, which the store never reports.
- Updates of the client's remembered database after slow replies; they affect only which server is asked first.
- shardIDToGroupIDs, Query, Join, Leave and Move of the shard master, which are stubs or do not assemble a list one would specify.
- HTTP routing, the admin server and its pages, configuration, logging and mocks.
