/**
 * Two-phase propose/commit execution of compare-and-swap commands.
 *
 * The coordinator sends the command to every replica (itself included) as a
 * proposal; each replica records it and accepts.  If at least a majority
 * accepted, the coordinator sends the command again as a commit; each replica
 * runs the compare-and-swap on its store, and the first replica's answer is
 * the client's.  Sending to the replicas is modelled sequentially: the replica
 * handlers run one after the other, and a per-replica flag says whether the
 * message reached that replica (a dropped message runs no handler and yields
 * no response).
 */
module TwoPhaseExecution {
  import opened Wrappers

  /** Set key to newValue if it currently holds existingValue (None: the key is absent). */
  datatype Command = CompareAndSwap(key: string, existingValue: Option<string>, newValue: string)

  datatype ProposeResponse = ProposeResponse(accepted: bool)
  datatype CommitCommandResponse = CommitCommandResponse(committed: bool, response: Option<string>)
  datatype ExecuteCommandResponse = ExecuteCommandResponse(response: Option<string>, committed: bool)

  /** The client's answer when the proposal did not reach a majority. */
  const NOT_COMMITTED := ExecuteCommandResponse(None, false)

  /** Reading the first commit response when no replica answered fails. */
  datatype ExecuteError = NoCommitResponse

  type KVStore = map<string, string>

  // ---------------------------------------------------------------------------
  // Compare-and-swap on one replica's store
  // ---------------------------------------------------------------------------

  /** The value key holds, None when the store has nothing for it. */
  function Existing(store: KVStore, key: string): (v: Option<string>)
    ensures v.Some? <==> key in store
    ensures v.Some? ==> v.value == store[key]
  {
    if key in store then Some(store[key]) else None
  }

  /** The command's expected value is what the store holds. */
  predicate CasMatches(store: KVStore, cas: Command) {
    Existing(store, cas.key) == cas.existingValue
  }

  /** The store after a replica commits cas. */
  function ApplyCas(store: KVStore, cas: Command): (s: KVStore)
    ensures s == store || s == store[cas.key := cas.newValue]
    ensures s.Keys == store.Keys || s.Keys == store.Keys + {cas.key}
  {
    if CasMatches(store, cas) then store[cas.key := cas.newValue] else store
  }

  /** A replica's answer to a commit of cas: whether it wrote, and the value it found. */
  function CasResponse(store: KVStore, cas: Command): (r: CommitCommandResponse)
    ensures r.response == Existing(store, cas.key)
    ensures r.committed ==> r.response == cas.existingValue
  {
    CommitCommandResponse(CasMatches(store, cas), Existing(store, cas.key))
  }

  /**
   * A commit writes newValue exactly when the key holds the expected value
   * (absent counting as None), reports whether it wrote together with the
   * value it found, and touches no other key.
   */
  lemma CompareAndSwapSemantics(store: KVStore, cas: Command, other: string)
    ensures CasResponse(store, cas).committed <==> Existing(store, cas.key) == cas.existingValue
    ensures CasResponse(store, cas).response == Existing(store, cas.key)
    ensures CasMatches(store, cas) ==> Existing(ApplyCas(store, cas), cas.key) == Some(cas.newValue)
    ensures !CasMatches(store, cas) ==> ApplyCas(store, cas) == store
    ensures other != cas.key ==> Existing(ApplyCas(store, cas), other) == Existing(store, other)
  {
  }

  /** Committing a swap that changed the value a second time is refused and changes nothing. */
  lemma CompareAndSwapReplayRefused(store: KVStore, cas: Command)
    requires CasMatches(store, cas)
    requires cas.existingValue != Some(cas.newValue)
    ensures !CasResponse(ApplyCas(store, cas), cas).committed
    ensures ApplyCas(ApplyCas(store, cas), cas) == ApplyCas(store, cas)
  {
  }

  /**
   * Over a fresh store, swapping absent for "Microservices" commits, then
   * swapping "Microservices" for "Distributed Systems" commits, and a further
   * swap still expecting "Microservices" is refused and keeps the value.
   */
  lemma CompareAndSwapScenario()
    ensures var first := CompareAndSwap("title", None, "Microservices");
      var second := CompareAndSwap("title", Some("Microservices"), "Distributed Systems");
      var s1 := ApplyCas(map[], first);
      var s2 := ApplyCas(s1, second);
      CasResponse(map[], first) == CommitCommandResponse(true, None) &&
      CasResponse(s1, second) == CommitCommandResponse(true, Some("Microservices")) &&
      CasResponse(s2, second) == CommitCommandResponse(false, Some("Distributed Systems")) &&
      ApplyCas(s2, second) == s2 && Existing(s2, "title") == Some("Distributed Systems")
  {
  }

  // ---------------------------------------------------------------------------
  // Majorities
  // ---------------------------------------------------------------------------

  /** The smallest number of replicas that is more than half of n. */
  function Quorum(n: nat): (q: nat)
    ensures 2 * q > n
    ensures 2 * (q - 1) <= n
    ensures n > 0 ==> q <= n
  {
    n / 2 + 1
  }

  /** A set of replica indices below n has at most n members. */
  lemma {:induction false} IndexSetSize(s: set<nat>, n: nat)
    requires forall x :: x in s ==> x < n
    ensures |s| <= n
  {
    if n == 0 {
      assert s == {};
    } else {
      var rest := s - {n - 1};
      IndexSetSize(rest, n - 1);
      assert s <= rest + {n - 1};
    }
  }

  /** Any two majorities of the same n replicas share a replica. */
  lemma QuorumsIntersect(n: nat, a: set<nat>, b: set<nat>)
    requires forall x :: x in a ==> x < n
    requires forall x :: x in b ==> x < n
    requires |a| >= Quorum(n) && |b| >= Quorum(n)
    ensures a * b != {}
  {
    IndexSetSize(a + b, n);
    assert |a + b| + |a * b| == |a| + |b|;
  }

  /** How many proposal responses accepted. */
  function CountAccepted(responses: seq<ProposeResponse>): (c: nat)
    ensures c == |set i | 0 <= i < |responses| && responses[i].accepted|
    ensures c <= |responses|
    ensures c == |responses| <==> forall i :: 0 <= i < |responses| ==> responses[i].accepted
    decreases |responses|
  {
    if responses == [] then 0
    else
      var n := |responses| - 1;
      var prefix := responses[..n];
      var before := set i | 0 <= i < n && prefix[i].accepted;
      var after := set i | 0 <= i < |responses| && responses[i].accepted;
      assert after == before + (if responses[n].accepted then {n} else {});
      CountAccepted(prefix) + (if responses[n].accepted then 1 else 0)
  }

  /** How many messages were delivered. */
  function CountDelivered(delivered: seq<bool>): nat
    decreases |delivered|
  {
    if delivered == [] then 0
    else CountDelivered(delivered[..|delivered| - 1]) + (if delivered[|delivered| - 1] then 1 else 0)
  }

  /** The index of the first replica a message reached, or |delivered| when it reached none. */
  function FirstDelivered(delivered: seq<bool>): (i: nat)
    ensures i <= |delivered|
    ensures i < |delivered| ==> delivered[i]
    ensures forall j :: 0 <= j < i ==> !delivered[j]
    decreases |delivered|
  {
    if delivered == [] then 0
    else if delivered[0] then 0
    else FirstDelivered(delivered[1..]) + 1
  }

  // ---------------------------------------------------------------------------
  // One replica
  // ---------------------------------------------------------------------------

  class TwoPhaseReplica {
    /** The last command proposed or committed to this replica, None before any. */
    var acceptedCommand: Option<Command>
    /** The durable key-value store. */
    var kvStore: KVStore

    constructor ()
      ensures acceptedCommand == None && kvStore == map[]
    {
      acceptedCommand := None;
      kvStore := map[];
    }

    /** The value the store holds for key, None when it holds nothing. */
    method GetValue(key: string) returns (value: Option<string>)
      ensures value == Existing(kvStore, key)
      ensures value.Some? <==> key in kvStore
    {
      if key in kvStore {
        value := Some(kvStore[key]);
      } else {
        value := None;
      }
    }

    /** Records the proposed command and always accepts; the store is untouched. */
    method HandlePropose(command: Command) returns (response: ProposeResponse)
      modifies this
      ensures acceptedCommand == Some(command)
      ensures kvStore == old(kvStore)
      ensures response.accepted
    {
      acceptedCommand := Some(command);
      response := ProposeResponse(true);
    }

    /** Records the command and runs its compare-and-swap on the store. */
    method HandleCommit(command: Command) returns (response: CommitCommandResponse)
      modifies this
      ensures acceptedCommand == Some(command)
      ensures kvStore == ApplyCas(old(kvStore), command)
      ensures response == CasResponse(old(kvStore), command)
    {
      acceptedCommand := Some(command);
      var existingValue := GetValue(command.key);
      if existingValue == command.existingValue {
        kvStore := kvStore[command.key := command.newValue];
        response := CommitCommandResponse(true, existingValue);
      } else {
        response := CommitCommandResponse(false, existingValue);
      }
    }
  }

  // ---------------------------------------------------------------------------
  // The coordinator
  // ---------------------------------------------------------------------------

  /** The replicas, the coordinator among them, are distinct objects. */
  ghost predicate Distinct(replicas: seq<TwoPhaseReplica>) {
    forall i, j :: 0 <= i < |replicas| && 0 <= j < |replicas| && i != j ==> replicas[i] != replicas[j]
  }

  /** The proposal round: every replica the proposal reaches records it and accepts. */
  method BlockingPropose(replicas: seq<TwoPhaseReplica>, delivered: seq<bool>, command: Command)
    returns (responses: seq<ProposeResponse>)
    requires |delivered| == |replicas| && Distinct(replicas)
    modifies set i | 0 <= i < |replicas| :: replicas[i]
    ensures |responses| == CountDelivered(delivered)
    ensures forall i :: 0 <= i < |responses| ==> responses[i].accepted
    ensures forall i :: 0 <= i < |replicas| ==> replicas[i].kvStore == old(replicas[i].kvStore)
    ensures forall i :: 0 <= i < |replicas| ==>
      replicas[i].acceptedCommand == if delivered[i] then Some(command) else old(replicas[i].acceptedCommand)
  {
    responses := [];
    var i := 0;
    while i < |replicas|
      invariant 0 <= i <= |replicas|
      invariant |responses| == CountDelivered(delivered[..i])
      invariant forall k :: 0 <= k < |responses| ==> responses[k].accepted
      invariant forall k :: 0 <= k < |replicas| ==> replicas[k].kvStore == old(replicas[k].kvStore)
      invariant forall k :: 0 <= k < |replicas| ==>
        replicas[k].acceptedCommand == if k < i && delivered[k] then Some(command) else old(replicas[k].acceptedCommand)
    {
      assert delivered[..i + 1][..i] == delivered[..i];
      if delivered[i] {
        var response := replicas[i].HandlePropose(command);
        responses := responses + [response];
      }
      i := i + 1;
    }
    assert delivered[..i] == delivered;
  }

  /**
   * The commit round: every replica the commit reaches runs the swap; the
   * answer is the first response, and there is none when no replica answered.
   */
  method SendCommitRequest(replicas: seq<TwoPhaseReplica>, delivered: seq<bool>, command: Command)
    returns (result: Result<CommitCommandResponse, ExecuteError>)
    requires |delivered| == |replicas| && Distinct(replicas)
    modifies set i | 0 <= i < |replicas| :: replicas[i]
    ensures forall i :: 0 <= i < |replicas| ==>
      replicas[i].kvStore == if delivered[i] then ApplyCas(old(replicas[i].kvStore), command) else old(replicas[i].kvStore)
    ensures forall i :: 0 <= i < |replicas| ==>
      replicas[i].acceptedCommand == if delivered[i] then Some(command) else old(replicas[i].acceptedCommand)
    ensures FirstDelivered(delivered) == |replicas| ==> result == Failure(NoCommitResponse)
    ensures FirstDelivered(delivered) < |replicas| ==>
      result == Success(CasResponse(old(replicas[FirstDelivered(delivered)].kvStore), command))
  {
    ghost var first := FirstDelivered(delivered);
    var responses: seq<CommitCommandResponse> := [];
    var i := 0;
    while i < |replicas|
      invariant 0 <= i <= |replicas|
      invariant (responses == []) == (i <= first)
      invariant first < i ==> responses[0] == CasResponse(old(replicas[first].kvStore), command)
      invariant forall k :: 0 <= k < |replicas| ==>
        replicas[k].kvStore == if k < i && delivered[k] then ApplyCas(old(replicas[k].kvStore), command) else old(replicas[k].kvStore)
      invariant forall k :: 0 <= k < |replicas| ==>
        replicas[k].acceptedCommand == if k < i && delivered[k] then Some(command) else old(replicas[k].acceptedCommand)
    {
      if delivered[i] {
        var response := replicas[i].HandleCommit(command);
        responses := responses + [response];
      }
      i := i + 1;
    }
    if responses == [] {
      result := Failure(NoCommitResponse);
    } else {
      result := Success(responses[0]);
    }
  }

  /**
   * A client's command: propose it to every replica and, only if at least a
   * majority accepted, commit it and answer with the first replica's commit
   * response; otherwise answer NOT_COMMITTED without touching any store.
   */
  method HandleExecute(replicas: seq<TwoPhaseReplica>, proposeDelivered: seq<bool>, commitDelivered: seq<bool>, command: Command)
    returns (result: Result<ExecuteCommandResponse, ExecuteError>)
    requires |proposeDelivered| == |replicas| && |commitDelivered| == |replicas| && Distinct(replicas)
    modifies set i | 0 <= i < |replicas| :: replicas[i]
    ensures CountDelivered(proposeDelivered) < Quorum(|replicas|) ==>
      result == Success(NOT_COMMITTED) &&
      forall i :: 0 <= i < |replicas| ==> replicas[i].kvStore == old(replicas[i].kvStore)
    ensures CountDelivered(proposeDelivered) >= Quorum(|replicas|) ==>
      forall i :: 0 <= i < |replicas| ==>
        replicas[i].kvStore == if commitDelivered[i] then ApplyCas(old(replicas[i].kvStore), command) else old(replicas[i].kvStore)
    ensures CountDelivered(proposeDelivered) >= Quorum(|replicas|) && FirstDelivered(commitDelivered) < |replicas| ==>
      var before := old(replicas[FirstDelivered(commitDelivered)].kvStore);
      result == Success(ExecuteCommandResponse(Existing(before, command.key), CasMatches(before, command)))
    ensures CountDelivered(proposeDelivered) >= Quorum(|replicas|) && FirstDelivered(commitDelivered) == |replicas| ==>
      result == Failure(NoCommitResponse)
    ensures forall i :: 0 <= i < |replicas| ==>
      replicas[i].acceptedCommand ==
        if proposeDelivered[i] || (CountDelivered(proposeDelivered) >= Quorum(|replicas|) && commitDelivered[i]) then Some(command)
        else old(replicas[i].acceptedCommand)
  {
    var proposalResponses := BlockingPropose(replicas, proposeDelivered, command);
    assert CountAccepted(proposalResponses) == CountDelivered(proposeDelivered);
    if CountAccepted(proposalResponses) >= Quorum(|replicas|) {
      var commit := SendCommitRequest(replicas, commitDelivered, command);
      match commit
      case Success(c) =>
        result := Success(ExecuteCommandResponse(c.response, c.committed));
      case Failure(e) =>
        result := Failure(e);
    } else {
      result := Success(NOT_COMMITTED);
    }
  }

  // ---------------------------------------------------------------------------
  // Runs over three replicas
  // ---------------------------------------------------------------------------

  /**
   * Every message delivered: the swap from absent to "Microservices" commits,
   * then the swap to "Distributed Systems" commits, and a swap that still
   * expects "Microservices" is refused; every replica holds the same value.
   */
  method ThreeReplicaScenario() returns (first: Result<ExecuteCommandResponse, ExecuteError>,
                                         second: Result<ExecuteCommandResponse, ExecuteError>,
                                         stale: Result<ExecuteCommandResponse, ExecuteError>,
                                         values: seq<Option<string>>)
    ensures first == Success(ExecuteCommandResponse(None, true))
    ensures second == Success(ExecuteCommandResponse(Some("Microservices"), true))
    ensures stale == Success(ExecuteCommandResponse(Some("Distributed Systems"), false))
    ensures values == [Some("Distributed Systems"), Some("Distributed Systems"), Some("Distributed Systems")]
  {
    var athens := new TwoPhaseReplica();
    var byzantium := new TwoPhaseReplica();
    var cyrene := new TwoPhaseReplica();
    var replicas := [athens, byzantium, cyrene];
    var all := [true, true, true];
    assert [true][..0] == [] && [true, true][..1] == [true] && all[..2] == [true, true];
    assert CountDelivered([true]) == 1;
    assert CountDelivered([true, true]) == 2;
    assert CountDelivered(all) == 3;
    assert FirstDelivered(all) == 0;
    first := HandleExecute(replicas, all, all, CompareAndSwap("title", None, "Microservices"));
    second := HandleExecute(replicas, all, all, CompareAndSwap("title", Some("Microservices"), "Distributed Systems"));
    stale := HandleExecute(replicas, all, all, CompareAndSwap("title", Some("Microservices"), "Event Driven Microservices"));
    var a := athens.GetValue("title");
    var b := byzantium.GetValue("title");
    var c := cyrene.GetValue("title");
    values := [a, b, c];
  }

  /**
   * The proposal reaches every replica but the commit reaches only the
   * coordinator: the client is told the swap committed, yet the other two
   * replicas hold the command only as accepted and have no value.
   */
  method PartialCommitScenario() returns (result: Result<ExecuteCommandResponse, ExecuteError>,
                                          values: seq<Option<string>>,
                                          accepted: seq<Option<Command>>)
    ensures result == Success(ExecuteCommandResponse(None, true))
    ensures values == [Some("Microservices"), None, None]
    ensures var cas := Some(CompareAndSwap("title", None, "Microservices")); accepted == [cas, cas, cas]
  {
    var athens := new TwoPhaseReplica();
    var byzantium := new TwoPhaseReplica();
    var cyrene := new TwoPhaseReplica();
    var replicas := [athens, byzantium, cyrene];
    var all, onlyAthens := [true, true, true], [true, false, false];
    assert [true][..0] == [] && [true, true][..1] == [true] && all[..2] == [true, true];
    assert CountDelivered([true]) == 1;
    assert CountDelivered([true, true]) == 2;
    assert CountDelivered(all) == 3;
    assert FirstDelivered(onlyAthens) == 0;
    var cas := CompareAndSwap("title", None, "Microservices");
    result := HandleExecute(replicas, all, onlyAthens, cas);
    var a := athens.GetValue("title");
    var b := byzantium.GetValue("title");
    var c := cyrene.GetValue("title");
    values := [a, b, c];
    accepted := [athens.acceptedCommand, byzantium.acceptedCommand, cyrene.acceptedCommand];
  }

  /** The proposal reaches one replica of three: nothing is committed and no store changes. */
  method NoMajorityScenario() returns (result: Result<ExecuteCommandResponse, ExecuteError>, values: seq<Option<string>>)
    ensures result == Success(NOT_COMMITTED)
    ensures values == [None, None, None]
  {
    var athens := new TwoPhaseReplica();
    var byzantium := new TwoPhaseReplica();
    var cyrene := new TwoPhaseReplica();
    var replicas := [athens, byzantium, cyrene];
    var onlyAthens := [true, false, false];
    assert [true][..0] == [] && [true, false][..1] == [true] && onlyAthens[..2] == [true, false];
    assert CountDelivered([true]) == 1;
    assert CountDelivered([true, false]) == 1;
    assert CountDelivered(onlyAthens) == 1;
    result := HandleExecute(replicas, onlyAthens, [true, true, true], CompareAndSwap("title", None, "Microservices"));
    var a := athens.GetValue("title");
    var b := byzantium.GetValue("title");
    var c := cyrene.GetValue("title");
    values := [a, b, c];
  }
}
