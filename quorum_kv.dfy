/**
 * The replica side of the versioned quorum key-value protocol.
 *
 * A client write runs two rounds: every replica reports the version it holds
 * for the key, the coordinator mints the next version, and every replica
 * applies the versioned write only if that version is strictly after the one
 * it stores.  The durable store is a map from key to StoredValue; a key never
 * written reads as the EMPTY_VALUE sentinel.
 */
module QuorumKV {
  import opened MonotonicIds

  /** The unit of replicated state: a value for a key, stamped with its version. */
  datatype StoredValue = StoredValue(key: string, value: string, version: MonotonicId)

  /** What the store yields for a key it holds nothing for (never a null). */
  const EMPTY_VALUE := StoredValue("", "", Empty)

  datatype GetVersionRequest = GetVersionRequest(key: string)
  datatype GetVersionResponse = GetVersionResponse(version: MonotonicId)
  datatype GetValueRequest = GetValueRequest(key: string)
  datatype GetValueResponse = GetValueResponse(value: StoredValue)
  datatype VersionedSetValueRequest = VersionedSetValueRequest(key: string, value: string, version: MonotonicId)
  datatype SetValueResponse = SetValueResponse(result: string)

  /** The only reply a replica gives to a versioned write. */
  const SUCCESS := SetValueResponse("Success")

  /** The durable store of one replica. */
  type Store = map<string, StoredValue>

  // ---------------------------------------------------------------------------
  // Version assignment
  // ---------------------------------------------------------------------------

  /** The larger of two identifiers; on a tie the first is kept. */
  function MaxBy(a: MonotonicId, b: MonotonicId): (m: MonotonicId)
    ensures m == a || m == b
    ensures !a.IsAfter(m) && !b.IsAfter(m)
  {
    if a.CompareTo(b) >= 0 then a else b
  }

  /**
   * The highest identifier of ids, or Empty when there is none.  Folding from
   * Empty gives the same result as reducing the non-empty list and falling back
   * to Empty, because Empty is below every real identifier.
   */
  function GetMax(ids: seq<MonotonicId>): (m: MonotonicId)
    ensures ids == [] ==> m == Empty
    ensures ids != [] ==> m in ids
    ensures forall i :: 0 <= i < |ids| ==> !ids[i].IsAfter(m)
  {
    if ids == [] then Empty
    else MaxBy(GetMax(ids[..|ids| - 1]), ids[|ids| - 1])
  }

  /**
   * The version a coordinator gives a new write: one past the highest reported
   * requestId, always with serverId 1, or (1, 1) when nothing was reported.
   */
  function GetNextId(ids: seq<MonotonicId>): (r: MonotonicId)
    ensures r.Id? && r.serverId == 1
    ensures forall i :: 0 <= i < |ids| ==> r.IsAfter(ids[i])
    ensures (forall i :: 0 <= i < |ids| ==> ids[i].IsEmpty()) ==> r == Id(1, 1)
    ensures !GetMax(ids).IsEmpty() ==> r.requestId == GetMax(ids).requestId + 1
  {
    var max := GetMax(ids);
    if max.IsEmpty() then Id(1, 1) else Id(max.requestId + 1, 1)
  }

  /** The versions carried by the replicas' answers to the version round. */
  function GetExistingVersions(responses: seq<GetVersionResponse>): (versions: seq<MonotonicId>)
    ensures |versions| == |responses|
    ensures forall i :: 0 <= i < |responses| ==> versions[i] == responses[i].version
  {
    seq(|responses|, i requires 0 <= i < |responses| => responses[i].version)
  }

  const INT32_MIN: int := -0x8000_0000
  const INT32_MAX: int := 0x7fff_ffff

  /** Two's-complement wrap-around of a Java int. */
  function WrapInt32(x: int): (r: int)
    ensures INT32_MIN <= r <= INT32_MAX
    ensures (r - x) % 0x1_0000_0000 == 0
    ensures INT32_MIN <= x <= INT32_MAX ==> r == x
  {
    (x - INT32_MIN) % 0x1_0000_0000 + INT32_MIN
  }

  /** GetNextId as the source computes it, where requestId + 1 is a Java int addition. */
  function GetNextIdAsWritten(ids: seq<MonotonicId>): (r: MonotonicId)
    ensures r.Id? && r.serverId == 1
    ensures INT32_MIN <= r.requestId <= INT32_MAX
  {
    var max := GetMax(ids);
    if max.IsEmpty() then Id(1, 1) else Id(WrapInt32(max.requestId + 1), 1)
  }

  /** Below Integer.MAX_VALUE the Java computation and the unbounded one agree. */
  lemma GetNextIdAsWrittenAgrees(ids: seq<MonotonicId>)
    requires forall i :: 0 <= i < |ids| && ids[i].Id? ==> INT32_MIN <= ids[i].requestId < INT32_MAX
    ensures GetNextIdAsWritten(ids) == GetNextId(ids)
  {
    var max := GetMax(ids);
    if !max.IsEmpty() {
      var k :| 0 <= k < |ids| && ids[k] == max;
    }
  }

  /**
   * Whenever the highest reported requestId is Integer.MAX_VALUE, the Java
   * addition wraps to Integer.MIN_VALUE and the new version is not after the
   * highest reported one.
   */
  lemma GetNextIdAsWrittenOverflows(ids: seq<MonotonicId>)
    requires GetMax(ids).Id? && GetMax(ids).requestId == INT32_MAX
    ensures GetNextIdAsWritten(ids) == Id(INT32_MIN, 1)
    ensures !GetNextIdAsWritten(ids).IsAfter(GetMax(ids))
  {
    assert WrapInt32(INT32_MAX + 1) == INT32_MIN;
  }

  // ---------------------------------------------------------------------------
  // The replica's store and the versioned write rule
  // ---------------------------------------------------------------------------

  /** What the durable store yields for key. */
  function Lookup(store: Store, key: string): (v: StoredValue)
    ensures key in store ==> v == store[key]
    ensures key !in store ==> v == EMPTY_VALUE && v.version.IsEmpty()
  {
    if key in store then store[key] else EMPTY_VALUE
  }

  /** The value a versioned write stores when it lands. */
  function AsStored(req: VersionedSetValueRequest): StoredValue {
    StoredValue(req.key, req.value, req.version)
  }

  /** The store after a replica handles a versioned write: it lands only if its version is after the stored one. */
  function ApplyVersionedSet(store: Store, req: VersionedSetValueRequest): (s: Store)
    ensures s == store || s == store[req.key := AsStored(req)]
    ensures s.Keys == store.Keys || s.Keys == store.Keys + {req.key}
  {
    if req.version.IsAfter(Lookup(store, req.key).version) then store[req.key := AsStored(req)]
    else store
  }

  /** Reading a key after putting it yields what was put; other keys read as before. */
  lemma LookupAfterPut(store: Store, key: string, value: StoredValue, other: string)
    ensures Lookup(store[key := value], key) == value
    ensures other != key ==> Lookup(store[key := value], other) == Lookup(store, other)
  {
  }

  /**
   * A versioned write replaces the stored value exactly when its version is
   * after the stored version; an equal or older version keeps the existing value.
   */
  lemma ApplyVersionedSetLandsIffAfter(store: Store, req: VersionedSetValueRequest)
    ensures Lookup(ApplyVersionedSet(store, req), req.key) == AsStored(req)
        <==> req.version.IsAfter(Lookup(store, req.key).version) || Lookup(store, req.key) == AsStored(req)
    ensures !req.version.IsAfter(Lookup(store, req.key).version) ==> ApplyVersionedSet(store, req) == store
  {
  }

  /** A versioned write touches only its own key. */
  lemma ApplyVersionedSetOnlyTouchesKey(store: Store, req: VersionedSetValueRequest, other: string)
    requires other != req.key
    ensures Lookup(ApplyVersionedSet(store, req), other) == Lookup(store, other)
  {
  }

  /** The version stored for any key never goes down. */
  lemma ApplyVersionedSetNeverLowersVersion(store: Store, req: VersionedSetValueRequest, key: string)
    ensures !Lookup(store, key).version.IsAfter(Lookup(ApplyVersionedSet(store, req), key).version)
  {
  }

  /** Handling the same versioned write twice leaves the store as handling it once. */
  lemma ApplyVersionedSetIdempotent(store: Store, req: VersionedSetValueRequest)
    ensures ApplyVersionedSet(ApplyVersionedSet(store, req), req) == ApplyVersionedSet(store, req)
  {
  }

  /** Two writes to different keys, or with different versions, may arrive in either order. */
  lemma ApplyVersionedSetCommutes(store: Store, a: VersionedSetValueRequest, b: VersionedSetValueRequest)
    requires a.key != b.key || a.version != b.version
    ensures ApplyVersionedSet(ApplyVersionedSet(store, a), b) == ApplyVersionedSet(ApplyVersionedSet(store, b), a)
  {
    IsAfterIsStrictTotalOrder(a.version, b.version, Lookup(store, a.key).version);
    IsAfterIsStrictTotalOrder(b.version, a.version, Lookup(store, b.key).version);
  }

  /**
   * Because every coordinator mints serverId 1, two coordinators that read the
   * same versions give their writes the same version v.  On any store where v
   * is after the stored version, the first of the two writes to arrive wins,
   * so replicas that receive them in opposite orders keep different values.
   */
  lemma EqualVersionsDependOnOrder(store: Store, key: string, v: MonotonicId, x: string, y: string)
    requires v.IsAfter(Lookup(store, key).version)
    requires x != y
    ensures var a := VersionedSetValueRequest(key, x, v);
      var b := VersionedSetValueRequest(key, y, v);
      Lookup(ApplyVersionedSet(ApplyVersionedSet(store, a), b), key).value == x &&
      Lookup(ApplyVersionedSet(ApplyVersionedSet(store, b), a), key).value == y &&
      ApplyVersionedSet(ApplyVersionedSet(store, a), b) != ApplyVersionedSet(ApplyVersionedSet(store, b), a)
  {
    var a := VersionedSetValueRequest(key, x, v);
    var b := VersionedSetValueRequest(key, y, v);
    IsAfterIsStrictTotalOrder(v, v, v);
    assert Lookup(ApplyVersionedSet(store, a), key).version == v;
    assert Lookup(ApplyVersionedSet(store, b), key).version == v;
  }

  // ---------------------------------------------------------------------------
  // Writes delivered as a batch, in any order, possibly more than once
  // ---------------------------------------------------------------------------

  /** The store after a replica handles reqs in order. */
  function ApplyAll(store: Store, reqs: seq<VersionedSetValueRequest>): Store
    decreases |reqs|
  {
    if reqs == [] then store
    else ApplyVersionedSet(ApplyAll(store, reqs[..|reqs| - 1]), reqs[|reqs| - 1])
  }

  /** The versions of the writes in reqs that target key, in delivery order. */
  function VersionsFor(reqs: seq<VersionedSetValueRequest>, key: string): seq<MonotonicId>
    decreases |reqs|
  {
    if reqs == [] then []
    else VersionsFor(reqs[..|reqs| - 1], key) + (if reqs[|reqs| - 1].key == key then [reqs[|reqs| - 1].version] else [])
  }

  lemma {:induction false} VersionsForMembers(reqs: seq<VersionedSetValueRequest>, key: string, v: MonotonicId)
    ensures v in VersionsFor(reqs, key) <==> exists i :: 0 <= i < |reqs| && reqs[i].key == key && reqs[i].version == v
    decreases |reqs|
  {
    if reqs != [] {
      var p := reqs[..|reqs| - 1];
      VersionsForMembers(p, key, v);
      if v in VersionsFor(p, key) {
        var i :| 0 <= i < |p| && p[i].key == key && p[i].version == v;
        assert reqs[i] == p[i];
      }
      if exists i :: 0 <= i < |reqs| && reqs[i].key == key && reqs[i].version == v {
        var i :| 0 <= i < |reqs| && reqs[i].key == key && reqs[i].version == v;
        if i < |p| {
          assert p[i] == reqs[i];
        }
      }
    }
  }

  /** One versioned write leaves, as the version of its key, the larger of the stored version and its own. */
  lemma ApplyVersionedSetKeepsMaxVersion(store: Store, req: VersionedSetValueRequest, key: string)
    ensures Lookup(ApplyVersionedSet(store, req), key).version ==
      if req.key == key then MaxBy(Lookup(store, key).version, req.version) else Lookup(store, key).version
  {
    IsAfterIsStrictTotalOrder(Lookup(store, key).version, req.version, req.version);
  }

  /** After a batch, the version stored for key is the highest of the old one and those the batch carried for key. */
  lemma {:induction false} ApplyAllKeepsMaxVersion(store: Store, reqs: seq<VersionedSetValueRequest>, key: string)
    ensures Lookup(ApplyAll(store, reqs), key).version == GetMax([Lookup(store, key).version] + VersionsFor(reqs, key))
    decreases |reqs|
  {
    var v0 := Lookup(store, key).version;
    if reqs == [] {
      assert [v0] + VersionsFor(reqs, key) == [v0];
      assert [v0][..0] == [];
    } else {
      var p, x := reqs[..|reqs| - 1], reqs[|reqs| - 1];
      ApplyAllKeepsMaxVersion(store, p, key);
      ApplyVersionedSetKeepsMaxVersion(ApplyAll(store, p), x, key);
      var before := [v0] + VersionsFor(p, key);
      var after := [v0] + VersionsFor(reqs, key);
      if x.key == key {
        assert after == before + [x.version];
        assert after[..|after| - 1] == before;
        assert GetMax(after) == MaxBy(GetMax(before), x.version);
      } else {
        assert after == before;
      }
    }
  }

  /** After a batch, key holds either its old value or one of the batch's writes to key, stored with a later version. */
  lemma {:induction false} ApplyAllStoresOldOrDelivered(store: Store, reqs: seq<VersionedSetValueRequest>, key: string)
    ensures var v := Lookup(ApplyAll(store, reqs), key);
      v == Lookup(store, key) ||
      (v.version.IsAfter(Lookup(store, key).version) &&
       exists i :: 0 <= i < |reqs| && reqs[i].key == key && v == AsStored(reqs[i]))
    decreases |reqs|
  {
    if reqs != [] {
      var p, x := reqs[..|reqs| - 1], reqs[|reqs| - 1];
      ApplyAllStoresOldOrDelivered(store, p, key);
      var mid := Lookup(ApplyAll(store, p), key);
      var v := Lookup(ApplyAll(store, reqs), key);
      if v != mid {
        assert x.key == key && v == AsStored(x) && x.version.IsAfter(mid.version);
        IsAfterIsStrictTotalOrder(x.version, mid.version, Lookup(store, key).version);
        assert reqs[|reqs| - 1] == x;
      } else if mid != Lookup(store, key) {
        var i :| 0 <= i < |p| && p[i].key == key && mid == AsStored(p[i]);
        assert reqs[i] == p[i];
      }
    }
  }

  /** No two writes to the same key carry the same version with different values. */
  ghost predicate VersionsIdentifyWrites(reqs: seq<VersionedSetValueRequest>) {
    forall i, j :: 0 <= i < |reqs| && 0 <= j < |reqs| && reqs[i].key == reqs[j].key && reqs[i].version == reqs[j].version
      ==> reqs[i] == reqs[j]
  }

  /** Two lists with the same elements reach the same stored version for every key. */
  lemma SameWritesSameVersion(store: Store, r1: seq<VersionedSetValueRequest>, r2: seq<VersionedSetValueRequest>, key: string)
    requires forall r :: r in r1 <==> r in r2
    ensures Lookup(ApplyAll(store, r1), key).version == Lookup(ApplyAll(store, r2), key).version
  {
    var v0 := Lookup(store, key).version;
    var l1, l2 := [v0] + VersionsFor(r1, key), [v0] + VersionsFor(r2, key);
    ApplyAllKeepsMaxVersion(store, r1, key);
    ApplyAllKeepsMaxVersion(store, r2, key);
    var m1, m2 := GetMax(l1), GetMax(l2);
    // Each maximum occurs in the other list, so neither is after the other.
    assert m1 in l2 by {
      if m1 != v0 {
        assert m1 in VersionsFor(r1, key);
        VersionsForMembers(r1, key, m1);
        var i :| 0 <= i < |r1| && r1[i].key == key && r1[i].version == m1;
        assert r1[i] in r2;
        var j :| 0 <= j < |r2| && r2[j] == r1[i];
        VersionsForMembers(r2, key, m1);
      }
    }
    assert m2 in l1 by {
      if m2 != v0 {
        assert m2 in VersionsFor(r2, key);
        VersionsForMembers(r2, key, m2);
        var i :| 0 <= i < |r2| && r2[i].key == key && r2[i].version == m2;
        assert r2[i] in r1;
        var j :| 0 <= j < |r1| && r1[j] == r2[i];
        VersionsForMembers(r1, key, m2);
      }
    }
    IsAfterIsStrictTotalOrder(m1, m2, v0);
  }

  /**
   * Replicas that receive the same writes, in any order and any number of
   * times, end up holding the same value for every key, provided no two
   * different writes to a key were given the same version.
   */
  lemma ApplyAllOrderIndependent(store: Store, r1: seq<VersionedSetValueRequest>, r2: seq<VersionedSetValueRequest>, key: string)
    requires forall r :: r in r1 <==> r in r2
    requires VersionsIdentifyWrites(r1)
    ensures Lookup(ApplyAll(store, r1), key) == Lookup(ApplyAll(store, r2), key)
  {
    var old0 := Lookup(store, key);
    var v1, v2 := Lookup(ApplyAll(store, r1), key), Lookup(ApplyAll(store, r2), key);
    SameWritesSameVersion(store, r1, r2, key);
    ApplyAllStoresOldOrDelivered(store, r1, key);
    ApplyAllStoresOldOrDelivered(store, r2, key);
    IsAfterIsStrictTotalOrder(v1.version, old0.version, old0.version);
    if v1 != old0 && v2 != old0 {
      var i :| 0 <= i < |r1| && r1[i].key == key && v1 == AsStored(r1[i]);
      var j :| 0 <= j < |r2| && r2[j].key == key && v2 == AsStored(r2[j]);
      assert r2[j] in r1;
      var j' :| 0 <= j' < |r1| && r1[j'] == r2[j];
    }
  }

  /** Delivering again a write the replica has already handled changes nothing. */
  lemma ApplyAllRedeliveryIsNoOp(store: Store, reqs: seq<VersionedSetValueRequest>, i: nat)
    requires i < |reqs|
    ensures ApplyAll(store, reqs + [reqs[i]]) == ApplyAll(store, reqs)
  {
    var x := reqs[i];
    assert (reqs + [x])[..|reqs|] == reqs;
    ApplyAllKeepsMaxVersion(store, reqs, x.key);
    VersionsForMembers(reqs, x.key, x.version);
    var l := [Lookup(store, x.key).version] + VersionsFor(reqs, x.key);
    var k :| 0 <= k < |VersionsFor(reqs, x.key)| && VersionsFor(reqs, x.key)[k] == x.version;
    assert l[k + 1] == x.version;
  }

  // ---------------------------------------------------------------------------
  // A client write, run sequentially: version round, then write round
  // ---------------------------------------------------------------------------

  /** The replicas' stores after a client write, the version it was given, and the reply the client sees. */
  datatype ClientSetOutcome = ClientSetOutcome(stores: seq<Store>, version: MonotonicId, reply: SetValueResponse)

  /** Every replica's version for key leaves room for one more Java int requestId. */
  predicate RoomForNextVersion(replicas: seq<Store>, key: string) {
    forall i :: 0 <= i < |replicas| && Lookup(replicas[i], key).version.Id? ==>
      INT32_MIN <= Lookup(replicas[i], key).version.requestId < INT32_MAX
  }

  /**
   * A client write over the replicas that answer both rounds: each reports its
   * version for key, the write is stamped with the next version (minted with
   * Java int addition) and handled by every replica, and the first reply is
   * returned.  A quorum is at least one replica, so the reply list is never
   * empty.  While the stored versions leave room, the minted version is the
   * unbounded GetNextId and the write lands everywhere; otherwise it may be
   * ignored by every replica although the client is told "Success".
   */
  function ClientSetValue(replicas: seq<Store>, key: string, value: string): (o: ClientSetOutcome)
    requires replicas != []
    ensures |o.stores| == |replicas|
    ensures o.version.Id? && o.version.serverId == 1 && INT32_MIN <= o.version.requestId <= INT32_MAX
    ensures forall i :: 0 <= i < |replicas| ==>
      o.stores[i] == ApplyVersionedSet(replicas[i], VersionedSetValueRequest(key, value, o.version))
    ensures forall i, k :: 0 <= i < |replicas| && k != key ==> Lookup(o.stores[i], k) == Lookup(replicas[i], k)
    ensures o.reply == SUCCESS
    ensures RoomForNextVersion(replicas, key) ==>
      forall i :: 0 <= i < |replicas| ==> o.version.IsAfter(Lookup(replicas[i], key).version)
    ensures RoomForNextVersion(replicas, key) ==>
      forall i :: 0 <= i < |replicas| ==> Lookup(o.stores[i], key) == StoredValue(key, value, o.version)
  {
    var reported := seq(|replicas|, i requires 0 <= i < |replicas| => GetVersionResponse(Lookup(replicas[i], key).version));
    var versions := GetExistingVersions(reported);
    var req := VersionedSetValueRequest(key, value, GetNextIdAsWritten(versions));
    assert forall i :: 0 <= i < |replicas| ==> versions[i] == Lookup(replicas[i], key).version;
    assert RoomForNextVersion(replicas, key) ==> req.version == GetNextId(versions) by {
      if RoomForNextVersion(replicas, key) {
        GetNextIdAsWrittenAgrees(versions);
      }
    }
    var stores := seq(|replicas|, i requires 0 <= i < |replicas| => ApplyVersionedSet(replicas[i], req));
    var replies := seq(|replicas|, i requires 0 <= i < |replicas| => SUCCESS);
    ClientSetOutcome(stores, req.version, replies[0])
  }

  /**
   * A replica already at (Integer.MAX_VALUE, 1): the write is stamped
   * (Integer.MIN_VALUE, 1), the replica keeps its old value, and the client is
   * still told "Success".
   */
  lemma ClientSetValueOverflowIgnored(key: string)
    ensures var s := map[key := StoredValue(key, "old", Id(INT32_MAX, 1))];
      var o := ClientSetValue([s], key, "new");
      o.version == Id(INT32_MIN, 1) && o.stores == [s] && o.reply == SUCCESS
  {
    var s := map[key := StoredValue(key, "old", Id(INT32_MAX, 1))];
    assert Lookup(s, key).version == Id(INT32_MAX, 1);
    assert GetMax([Id(INT32_MAX, 1)]) == Id(INT32_MAX, 1);
    GetNextIdAsWrittenOverflows([Id(INT32_MAX, 1)]);
    assert GetExistingVersions([GetVersionResponse(Id(INT32_MAX, 1))]) == [Id(INT32_MAX, 1)];
  }

  // ---------------------------------------------------------------------------
  // One replica
  // ---------------------------------------------------------------------------

  class QuorumKVReplica {
    /** The durable key-value store. */
    var store: Store

    constructor ()
      ensures store == map[]
    {
      store := map[];
    }

    method Put(key: string, value: StoredValue)
      modifies this
      ensures store == old(store)[key := value]
    {
      store := store[key := value];
    }

    /** Never absent: a missing key reads as EMPTY_VALUE. */
    method Get(key: string) returns (value: StoredValue)
      ensures value == Lookup(store, key)
      ensures key !in store ==> value == EMPTY_VALUE
    {
      if key in store {
        value := store[key];
      } else {
        value := EMPTY_VALUE;
      }
    }

    method GetVersion(key: string) returns (version: MonotonicId)
      ensures version == Lookup(store, key).version
      ensures key !in store ==> version.IsEmpty()
    {
      var storedValue := Get(key);
      version := storedValue.version;
    }

    method HandleGetVersionRequest(request: GetVersionRequest) returns (response: GetVersionResponse)
      ensures response.version == Lookup(store, request.key).version
      ensures request.key !in store ==> response.version.IsEmpty()
    {
      var storedValue := Get(request.key);
      response := GetVersionResponse(storedValue.version);
    }

    method HandleGetValueRequest(request: GetValueRequest) returns (response: GetValueResponse)
      ensures response.value == Lookup(store, request.key)
      ensures request.key !in store ==> response.value == EMPTY_VALUE
    {
      var storedValue := Get(request.key);
      response := GetValueResponse(storedValue);
    }

    /** Stores the write only if its version is after the stored one; acknowledges either way. */
    method HandlePeerSetValueRequest(request: VersionedSetValueRequest) returns (response: SetValueResponse)
      modifies this
      ensures store == ApplyVersionedSet(old(store), request)
      ensures response == SUCCESS
    {
      var storedValue := Get(request.key);
      if request.version.IsAfter(storedValue.version) {
        Put(request.key, AsStored(request));
      }
      response := SUCCESS;
    }
  }
}
