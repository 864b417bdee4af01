# Replica-side cores of two replication protocols, in Dafny

This project models the replica-side logic of two protocols from a Java teaching repository about patterns for distributed systems.

- **Versioned quorum key-value store** (`QuorumKV`). A client write runs in two rounds. In the first, the replicas that answer report the version they hold for the key. The coordinator then mints the next version, one past the highest reported `requestId`, with `serverId` 1. In the second round, each replica applies the write only if that version is strictly after the one it stores, and it acknowledges with "Success" either way.
- **Two-phase propose/commit executor** (`TwoPhaseExecution`). The coordinator proposes a compare-and-swap command to every replica, and each replica records it and accepts. If at least `n/2 + 1` replicas accepted, the coordinator commits the command everywhere. Each replica runs the compare-and-swap on its own store, and the first replica's commit answer goes back to the client.

Files:

- `monotonic_id.dfy` (module `MonotonicIds`) models the version stamp `(requestId, serverId)`. Ids are ordered lexicographically, and an `Empty` sentinel sorts below every real id.
- `quorum_kv.dfy` (module `QuorumKV`) holds:
  - version assignment;
  - the durable store as a `map<string, StoredValue>`;
  - the versioned-write rule as a pure function, with lemmas about idempotence, commutation, redelivery and order independence;
  - a sequential client write;
  - the replica as a class whose handlers are methods specified by those functions.
- `two_phase_execution.dfy` (module `TwoPhaseExecution`) holds:
  - compare-and-swap as pure functions;
  - majority arithmetic and quorum intersection;
  - the replica as a class with `acceptedCommand` and `kvStore` fields;
  - the coordinator as methods that loop over a sequence of replica objects;
  - three scenarios over three replicas.
- `wrappers.dfy` (module `Wrappers`) defines `Option` (Java's `Optional`, or a nullable value) and `Result` (a value, or the exception that replaced it).

Sending messages to replicas is modelled sequentially. Each handler runs in turn on the replica it targets. A per-replica flag says whether the message was delivered. A dropped message runs no handler and produces no response. Responses are collected in replica order.

Two behaviours of the code are kept as written:

- A version stamp has a `serverId` that could tell coordinators apart, but `getNextId` always uses `serverId` 1. So two coordinators that read the same versions mint the same version. `EqualVersionsDependOnOrder` shows the consequence.
- The null checks in `handleGetVersionRequest` and `getVersion` can never fire, because `get` returns `StoredValue.EMPTY` for a missing key and never null. The model keeps the non-null path only.

## Model

| member | source | states |
|---|---|---|
| `MonotonicIds.MonotonicId.CompareTo` | src/main/java/distrib/patterns/quorumconsensus/QuorumKV.java:79 | the comparison is three-way (-1, 0 or 1), and it returns 0 exactly when the two ids are equal |
| `MonotonicIds.EmptyIsBottom` | src/main/java/distrib/patterns/quorumconsensus/QuorumKV.java:102-106 | the Empty version (the `isEmpty` test is `MonotonicId.IsEmpty`) is after nothing; every real version is after Empty, so the first write to a key always lands |
| `MonotonicIds.IsAfterIsStrictTotalOrder` | src/main/java/distrib/patterns/quorumconsensus/QuorumKV.java:104 | `isAfter` (modelled by `MonotonicId.IsAfter`, `compareTo` > 0) is irreflexive, asymmetric, transitive and connected, and `compareTo` is antisymmetric |
| `QuorumKV.MaxBy` | src/main/java/distrib/patterns/quorumconsensus/QuorumKV.java:79 | the result is one of the two ids, and neither id is after it |
| `QuorumKV.GetMax` | src/main/java/distrib/patterns/quorumconsensus/QuorumKV.java:78-80 | for an empty list the result is Empty; otherwise it is an element of the list, and no element is after it |
| `QuorumKV.GetNextId` | src/main/java/distrib/patterns/quorumconsensus/QuorumKV.java:68-76 | the result is a real id with serverId 1 that is after every reported id; it is (1, 1) when every reported id is Empty (or none was reported); otherwise its requestId is the maximum's plus one |
| `QuorumKV.GetExistingVersions` | src/main/java/distrib/patterns/quorumconsensus/QuorumKV.java:49-51 | one version per version-round response, in the same order |
| `QuorumKV.WrapInt32` | src/main/java/distrib/patterns/quorumconsensus/QuorumKV.java:74 | the result lies in the Java `int` range and differs from the exact sum by a multiple of 2^32 (two's-complement wrap-around); inside the range it is the sum itself |
| `QuorumKV.GetNextIdAsWritten` | src/main/java/distrib/patterns/quorumconsensus/QuorumKV.java:74-75 | with Java `int` addition, the result is a real id with serverId 1 and a requestId inside the `int` range |
| `QuorumKV.GetNextIdAsWrittenAgrees` | src/main/java/distrib/patterns/quorumconsensus/QuorumKV.java:68-76 | while every reported requestId is below `Integer.MAX_VALUE`, the Java computation equals the unbounded one |
| `QuorumKV.GetNextIdAsWrittenOverflows` | src/main/java/distrib/patterns/quorumconsensus/QuorumKV.java:74 | for every list whose highest reported requestId is `Integer.MAX_VALUE`, the Java computation yields (`Integer.MIN_VALUE`, 1), which is not after the highest reported version; with `GetNextIdAsWrittenAgrees` this covers every reported `int` requestId |
| `QuorumKV.Lookup` | src/main/java/distrib/patterns/quorumconsensus/QuorumKV.java:116-122 | a key the store holds yields its stored value; a missing key yields `EMPTY_VALUE`, whose version is Empty (never null); `LookupAfterPut` relates it to `put` |
| `QuorumKV.ApplyVersionedSet` | src/main/java/distrib/patterns/quorumconsensus/QuorumKV.java:103-106 | the store after a versioned write is either unchanged or the old store with the key set to the request's (key, value, version), and it gains at most that key; when each case happens is stated by `ApplyVersionedSetLandsIffAfter`, and the further properties by the other `ApplyVersionedSet*` and `ApplyAll*` lemmas |
| `QuorumKV.LookupAfterPut` | src/main/java/distrib/patterns/quorumconsensus/QuorumKV.java:112-122 | `get` after `put(k, v)` yields `v`; every other key reads as before |
| `QuorumKV.ApplyVersionedSetLandsIffAfter` | src/main/java/distrib/patterns/quorumconsensus/QuorumKV.java:102-106 | the key holds the request's (key, value, version) afterwards exactly when the request's version is after the stored one (or the same value was already stored); with an equal or older version the store is unchanged |
| `QuorumKV.ApplyVersionedSetOnlyTouchesKey` | src/main/java/distrib/patterns/quorumconsensus/QuorumKV.java:105 | every key other than the request's reads as before |
| `QuorumKV.ApplyVersionedSetNeverLowersVersion` | src/main/java/distrib/patterns/quorumconsensus/QuorumKV.java:104-105 | for no key is the old stored version after the new one |
| `QuorumKV.ApplyVersionedSetIdempotent` | src/main/java/distrib/patterns/quorumconsensus/QuorumKV.java:104-105 | handling the same versioned write twice gives the same store as handling it once |
| `QuorumKV.ApplyVersionedSetCommutes` | src/main/java/distrib/patterns/quorumconsensus/QuorumKV.java:102-107 | two writes to different keys, or with different versions, give the same store in either order of arrival |
| `QuorumKV.EqualVersionsDependOnOrder` | src/main/java/distrib/patterns/quorumconsensus/QuorumKV.java:68-76 | on any store where a version v is after the stored one, two writes of different values both stamped v (serverId is always 1, so two coordinators that read the same versions mint the same v) leave whichever arrived first, so the two arrival orders give different stores |
| `QuorumKV.ApplyVersionedSetKeepsMaxVersion` | src/main/java/distrib/patterns/quorumconsensus/QuorumKV.java:103-105 | after one versioned write, its key's version is the larger of the stored version and the write's; other keys keep theirs |
| `QuorumKV.ApplyAllKeepsMaxVersion` | src/main/java/distrib/patterns/quorumconsensus/QuorumKV.java:102-106 | after any sequence of versioned writes, the stored version of a key is the maximum of its old version and the versions the sequence carried for that key |
| `QuorumKV.ApplyAllStoresOldOrDelivered` | src/main/java/distrib/patterns/quorumconsensus/QuorumKV.java:102-106 | after any sequence of writes, a key holds either its old value or one of the delivered writes to it, stored with a version after the old one |
| `QuorumKV.SameWritesSameVersion` | src/main/java/distrib/patterns/quorumconsensus/QuorumKV.java:102-106 | two delivery sequences with the same writes (in any order, with any duplicates) leave the same version for every key |
| `QuorumKV.ApplyAllOrderIndependent` | src/main/java/distrib/patterns/quorumconsensus/QuorumKV.java:102-107 | if no two different writes to a key share a version, replicas that receive the same writes in any order and multiplicity end with the same stored value for every key |
| `QuorumKV.ApplyAllRedeliveryIsNoOp` | src/main/java/distrib/patterns/quorumconsensus/QuorumKV.java:104-107 | delivering again a write that was already handled changes nothing, however many writes came in between |
| `QuorumKV.ClientSetValue` | src/main/java/distrib/patterns/quorumconsensus/QuorumKV.java:40-65 | version round, then write round, with the version minted by Java `int` addition: the version is a real id with serverId 1 inside the `int` range; every replica's new store is the versioned-write rule applied to its old store; no other key changes; the client's reply is "Success"; and while every stored requestId is below `Integer.MAX_VALUE`, the version is after every replica's version and every replica then holds (key, value, version) |
| `QuorumKV.ClientSetValueOverflowIgnored` | src/main/java/distrib/patterns/quorumconsensus/QuorumKV.java:74-75 | a replica holding version (`Integer.MAX_VALUE`, 1) is sent the version (`Integer.MIN_VALUE`, 1), keeps its old value, and the client is still told "Success" |
| `QuorumKV.QuorumKVReplica.constructor` | src/main/java/distrib/patterns/quorumconsensus/QuorumKV.java:20-23 | a new replica over a fresh store directory starts with an empty store |
| `QuorumKV.QuorumKVReplica.Put` | src/main/java/distrib/patterns/quorumconsensus/QuorumKV.java:112-114 | the key maps to the given value; the rest of the store is unchanged |
| `QuorumKV.QuorumKVReplica.Get` | src/main/java/distrib/patterns/quorumconsensus/QuorumKV.java:116-122 | yields the stored value, or `EMPTY_VALUE` (never absent) for a missing key |
| `QuorumKV.QuorumKVReplica.GetVersion` | src/main/java/distrib/patterns/quorumconsensus/QuorumKV.java:124-130 | yields the stored value's version, which is Empty for a missing key |
| `QuorumKV.QuorumKVReplica.HandleGetVersionRequest` | src/main/java/distrib/patterns/quorumconsensus/QuorumKV.java:91-95 | replies with the stored version of the key, which is Empty for a missing key |
| `QuorumKV.QuorumKVReplica.HandleGetValueRequest` | src/main/java/distrib/patterns/quorumconsensus/QuorumKV.java:97-100 | replies with the stored value, or `EMPTY_VALUE` for a missing key |
| `QuorumKV.QuorumKVReplica.HandlePeerSetValueRequest` | src/main/java/distrib/patterns/quorumconsensus/QuorumKV.java:102-108 | the new store is the versioned-write rule applied to the old one (write only if the version is after the stored one), and the reply is always "Success" |
| `TwoPhaseExecution.Existing` | src/main/java/distrib/patterns/twophasecommit/TwoPhaseExecution.java:79 | the value found is present exactly when the store holds the key, and it is then the stored value (Java's `Optional.ofNullable` of `get`, which `getValue` at lines 117-119 also yields) |
| `TwoPhaseExecution.ApplyCas` | src/main/java/distrib/patterns/twophasecommit/TwoPhaseExecution.java:79-84 | the store after a commit is either unchanged or the old store with the key set to the new value, and it gains at most that key; when each case happens is stated by `CompareAndSwapSemantics` |
| `TwoPhaseExecution.CasResponse` | src/main/java/distrib/patterns/twophasecommit/TwoPhaseExecution.java:79-84 | the reply always carries the value found, and a committed reply found exactly the expected value; `CompareAndSwapSemantics` gives both directions |
| `TwoPhaseExecution.CompareAndSwapSemantics` | src/main/java/distrib/patterns/twophasecommit/TwoPhaseExecution.java:79-84 | the commit reports committed exactly when the current value (None if absent) equals the expected one (the `equals` test, modelled by `CasMatches`), and it always reports the value it found; on a match the key holds the new value; on a mismatch the store is unchanged; no other key changes |
| `TwoPhaseExecution.CompareAndSwapReplayRefused` | src/main/java/distrib/patterns/twophasecommit/TwoPhaseExecution.java:79-84 | committing again a swap that changed the value is refused, and it leaves the store as it was |
| `TwoPhaseExecution.CompareAndSwapScenario` | src/main/java/distrib/patterns/twophasecommit/TwoPhaseExecution.java:79-84 | on a fresh store, absent → "Microservices" commits and "Microservices" → "Distributed Systems" commits; a stale expected value is refused and leaves the store unchanged |
| `TwoPhaseExecution.Quorum` | src/main/java/distrib/patterns/twophasecommit/TwoPhaseExecution.java:108-110 | the result is the smallest number that is more than half of n (2q > n ≥ 2(q−1)), and it is at most n when n > 0 |
| `TwoPhaseExecution.QuorumsIntersect` | src/main/java/distrib/patterns/twophasecommit/TwoPhaseExecution.java:108-110 | any two sets of replica indices below n, each of quorum size, share a replica |
| `TwoPhaseExecution.CountAccepted` | src/main/java/distrib/patterns/twophasecommit/TwoPhaseExecution.java:96 | the result is the number of responses that accepted (the size of the set of their indices); it is at most the number of responses, and equals it exactly when every response accepted |
| `TwoPhaseExecution.FirstDelivered` | src/main/java/distrib/patterns/twophasecommit/TwoPhaseExecution.java:103-106 | the result is the first replica that answered, or the replica count when none did |
| `TwoPhaseExecution.TwoPhaseReplica.constructor` | src/main/java/distrib/patterns/twophasecommit/TwoPhaseExecution.java:57-62 | a new replica over a fresh store directory has no accepted command and an empty store |
| `TwoPhaseExecution.TwoPhaseReplica.GetValue` | src/main/java/distrib/patterns/twophasecommit/TwoPhaseExecution.java:117-119 | yields the stored value, or None exactly when the key is absent |
| `TwoPhaseExecution.TwoPhaseReplica.HandlePropose` | src/main/java/distrib/patterns/twophasecommit/TwoPhaseExecution.java:112-115 | records the proposed command as `acceptedCommand`, always replies accepted, and leaves the store untouched |
| `TwoPhaseExecution.TwoPhaseReplica.HandleCommit` | src/main/java/distrib/patterns/twophasecommit/TwoPhaseExecution.java:74-87 | records the command as `acceptedCommand` in both outcomes; the store becomes the compare-and-swap of the old store, and the reply is (matched, value found) |
| `TwoPhaseExecution.BlockingPropose` | src/main/java/distrib/patterns/twophasecommit/TwoPhaseExecution.java:95 | there is one accepting response per delivered proposal; exactly the replicas reached record the command; no store changes |
| `TwoPhaseExecution.SendCommitRequest` | src/main/java/distrib/patterns/twophasecommit/TwoPhaseExecution.java:103-106 | exactly the replicas reached run the swap and record the command; the result is the first reached replica's answer, or a failure when none was reached |
| `TwoPhaseExecution.HandleExecute` | src/main/java/distrib/patterns/twophasecommit/TwoPhaseExecution.java:93-101 | below a quorum of accepted proposals the reply is not-committed and no store changes; otherwise the reached replicas run the swap and the reply is the first reached replica's (previous value, committed) |
| `TwoPhaseExecution.ThreeReplicaScenario` | src/main/java/distrib/patterns/twophasecommit/TwoPhaseExecution.java:93-101 | over three replicas with every message delivered, the two swaps commit in turn, a stale swap is refused, and all three replicas hold "Distributed Systems" |
| `TwoPhaseExecution.PartialCommitScenario` | src/main/java/distrib/patterns/twophasecommit/TwoPhaseExecution.java:93-106 | when the commit reaches only the coordinator, the client is told the swap committed, but the other two replicas hold the command only as accepted and have no value |
| `TwoPhaseExecution.NoMajorityScenario` | src/main/java/distrib/patterns/twophasecommit/TwoPhaseExecution.java:95-100 | when the proposal reaches one replica of three, the reply is not-committed and no replica holds a value |

## Left out

- The classes `MonotonicId`, `StoredValue`, the message classes and `ExecuteCommandResponse.notCommitted()` are not part of this model's sources. Their shapes are assumed as follows:
  - the version is `(requestId, serverId)`, ordered lexicographically, with an `Empty` below every real id;
  - `StoredValue.EMPTY` is `("", "", Empty)`;
  - not-committed is (no value, false).
- `AsyncQuorumCallback`, `ReadRepairer` and the `Replica` base class (`sendMessageToReplicas`, `blockingSendToReplicas`, handler registration, `getNoOfReplicas`) are not part of this model. Concurrency, timeouts and quorum failure of the asynchronous rounds are not modelled. The client read path `handleClientGetValueRequest`, with its read repair, is left out for the same reason.
- `ClientSetValue`: models the composed future chain as two sequential rounds over the same replicas, with no concurrent writers. Which replicas answer each round, and the quorum-unreachable failure, belong to `AsyncQuorumCallback`.
- `ClientSetValue`: the overflow at `Integer.MAX_VALUE` is modelled as written; the successful-write guarantee is stated only while every stored requestId is below `Integer.MAX_VALUE`, and `ClientSetValueOverflowIgnored` shows what happens otherwise.
- `ClientSetValue`: requires a non-empty replica list. The quorum future only completes with at least one response, so `findFirst().get()` never sees an empty map.
- The order of the `blockingSendToReplicas` responses is taken to be the replica order. The source of that method is not part of this model.
- `DurableKVStore` (its write-ahead log), the JSON encoding of stored values, and `Command.serialize`/`deserialize` are foreign I/O and encoding. The stores are maps, and every encode/decode round trip is taken as the identity. A replica's store is modelled as starting empty, which holds only for a fresh store directory; reopening an existing write-ahead log is not modelled.
- The `IllegalArgumentException` for an unknown command in `handleCommit` is left out. `Command` is a closed datatype whose only variant is compare-and-swap, so that path cannot occur.
- Logging, network addresses, message-drop injection and cluster start-up are left out. Message loss is a per-replica delivered flag.
- Single-decree Paxos and the non-blocking two-phase variant are left out. Their implementations are not part of this model.

## Findings

| source | as written | input that shows it | evidently intended | confidence | as-written member | corrected member |
|---|---|---|---|---|---|---|
| src/main/java/distrib/patterns/quorumconsensus/QuorumKV.java:74 | `max.requestId + 1` is a Java `int` addition, which wraps at `Integer.MAX_VALUE` | a key whose highest reported version is (2147483647, 1): the next version is (-2147483648, 1), which is not after it, so every replica that holds a version for the key ignores the write, a replica with no value for the key stores it at (-2147483648, 1), and the client is told "Success" | a next version that is after every reported version | not executed; reaching it takes 2^31 writes to one key | `QuorumKV.ClientSetValueOverflowIgnored` | `QuorumKV.GetNextId` |
