/** The state a server keeps for one client session: its lifecycle flags,
    the counter it draws new session ids from, and its bounded FIFO store of
    browse continuation points. */
module Sessions {
  import opened Types
  import opened ContinuationPoints

  /** The ids handed out by the first `n` calls of `NextSessionId` on a
      session: namespace 1, identifiers 1 to `n`, in that order. */
  function IssuedIds(n: nat): (r: seq<NodeId>)
    ensures |r| == n
  {
    if n == 0 then [] else IssuedIds(n - 1) + [NodeId(1, n)]
  }

  /** Every issued id lies in namespace 1 with an identifier from 1 to `n`;
      in particular the next id, `n + 1`, has not been issued yet. */
  lemma {:induction false} IssuedIdsInRange(n: nat, id: NodeId)
    requires id in IssuedIds(n)
    ensures id.namespace == 1 && 1 <= id.identifier <= n
  {
    if n > 0 && id != NodeId(1, n) {
      IssuedIdsInRange(n - 1, id);
    }
  }

  /** Issued ids strictly increase, so none is issued twice. */
  lemma {:induction false} IssuedIdsIncrease(n: nat, i: nat, j: nat)
    requires i < j < |IssuedIds(n)|
    ensures IssuedIds(n)[i].identifier < IssuedIds(n)[j].identifier
  {
    IssuedIdsAt(n, i);
    IssuedIdsAt(n, j);
  }

  /** The `i`-th issued id is the `i + 1`-th identifier of namespace 1. */
  lemma {:induction false} IssuedIdsAt(n: nat, i: nat)
    requires i < n
    ensures IssuedIds(n)[i] == NodeId(1, i + 1)
  {
    if i < n - 1 {
      IssuedIdsAt(n - 1, i);
    }
  }

  class Session {
    /** The session identifier. */
    var sessionId: NodeId
    /** Authentication token for the session. */
    var authenticationToken: NodeId
    /** Set when the session should be terminated. */
    var terminateSession: bool
    /** Set once the session has received an ActivateSession. */
    var activated: bool
    /** Set once the session is actually terminated. */
    var terminated: bool
    /** When the session was terminated (meaningful once `terminated`). */
    var terminatedAt: Instant
    /** Negotiated maximum request and response message sizes. */
    var maxRequestMessageSize: nat
    var maxResponseMessageSize: nat
    /** The counter new session ids are drawn from (a `u32`). */
    var lastSessionId: nat
    /** Capacity of the continuation-point store, fixed at creation. */
    var maxBrowseContinuationPoints: nat
    /** Browse continuation points, oldest first. */
    var browseContinuationPoints: seq<ContinuationPoint>

    /** The store never exceeds its capacity and the id counter fits a `u32`. */
    ghost predicate Valid()
      reads this
    {
      |browseContinuationPoints| <= maxBrowseContinuationPoints &&
      lastSessionId <= MaxUInt32
    }

    /** A fresh session: not activated, not terminated, no continuation
        points, counter at zero; `now` stands for the clock reading. */
    constructor (maxContinuationPoints: nat, now: Instant)
      ensures Valid()
      ensures sessionId == NullNodeId && authenticationToken == NullNodeId
      ensures !activated && !terminateSession && !terminated && terminatedAt == now
      ensures maxRequestMessageSize == 0 && maxResponseMessageSize == 0
      ensures lastSessionId == 0
      ensures maxBrowseContinuationPoints == maxContinuationPoints
      ensures browseContinuationPoints == []
    {
      sessionId := NullNodeId;
      authenticationToken := NullNodeId;
      activated := false;
      terminateSession := false;
      terminated := false;
      terminatedAt := now;
      maxRequestMessageSize := 0;
      maxResponseMessageSize := 0;
      maxBrowseContinuationPoints := maxContinuationPoints;
      browseContinuationPoints := [];
      lastSessionId := 0;
    }

    /** Marks the session terminated at `now`. A later call overwrites the
        time of an earlier one. */
    method Terminated(now: Instant)
      requires Valid()
      modifies this`terminated, this`terminatedAt
      ensures Valid()
      ensures terminated && terminatedAt == now
    {
      terminated := true;
      terminatedAt := now;
    }

    /** Advances the counter and returns the new id in namespace 1; the id
        differs from every id this session handed out before. */
    method NextSessionId() returns (id: NodeId)
      requires Valid()
      requires lastSessionId < MaxUInt32
      modifies this`lastSessionId
      ensures Valid()
      ensures lastSessionId == old(lastSessionId) + 1
      ensures id == NodeId(1, lastSessionId)
      ensures id !in IssuedIds(old(lastSessionId))
      ensures IssuedIds(lastSessionId) == IssuedIds(old(lastSessionId)) + [id]
    {
      lastSessionId := lastSessionId + 1;
      id := NodeId(1, lastSessionId);
      if id in IssuedIds(lastSessionId - 1) {
        IssuedIdsInRange(lastSessionId - 1, id);
      }
    }

    /** Appends `cp`, then drops the oldest points until the store is back
        within its capacity. */
    method AddBrowseContinuationPoint(cp: ContinuationPoint)
      requires Valid()
      modifies this`browseContinuationPoints
      ensures Valid()
      ensures browseContinuationPoints == Added(old(browseContinuationPoints), cp, maxBrowseContinuationPoints)
    {
      browseContinuationPoints := browseContinuationPoints + [cp];
      while |browseContinuationPoints| > maxBrowseContinuationPoints
        invariant Evict(browseContinuationPoints, maxBrowseContinuationPoints)
               == Added(old(browseContinuationPoints), cp, maxBrowseContinuationPoints)
        decreases |browseContinuationPoints|
      {
        browseContinuationPoints := browseContinuationPoints[1..];
      }
      AddedKeepsNewest(old(browseContinuationPoints), cp, maxBrowseContinuationPoints);
    }

    /** Searches the store, oldest first, for a point with the id and
        returns a copy of the first one; the store is left as it is. */
    method FindBrowseContinuationPoint(id: ByteString) returns (r: Option<ContinuationPoint>)
      ensures r == Lookup(browseContinuationPoints, id)
      ensures r.None? <==> forall cp :: cp in browseContinuationPoints ==> cp.id != id
      ensures r.Some? ==> (r.value.id == id &&
                           exists i :: 0 <= i < |browseContinuationPoints| && browseContinuationPoints[i] == r.value &&
                             forall j :: 0 <= j < i ==> browseContinuationPoints[j].id != id)
    {
      var i := 0;
      while i < |browseContinuationPoints|
        invariant i <= |browseContinuationPoints|
        invariant forall j :: 0 <= j < i ==> browseContinuationPoints[j].id != id
      {
        if browseContinuationPoints[i].id == id {
          LookupFindsFirst(browseContinuationPoints, id, i);
          return Some(browseContinuationPoints[i]);
        }
        i := i + 1;
      }
      return None;
    }

    /** Keeps only the points that `valid` (the address space's check that
        a continuation point still applies) accepts, in their order. */
    method RemoveExpiredBrowseContinuationPoints(valid: ContinuationPoint -> bool)
      requires Valid()
      modifies this`browseContinuationPoints
      ensures Valid()
      ensures browseContinuationPoints == Filter(old(browseContinuationPoints), valid)
    {
      browseContinuationPoints := Filter(browseContinuationPoints, valid);
    }

    /** Releases every point with the id `id`. */
    method RemoveBrowseContinuationPoint(id: ByteString)
      requires Valid()
      modifies this`browseContinuationPoints
      ensures Valid()
      ensures browseContinuationPoints == WithoutId(old(browseContinuationPoints), id)
    {
      browseContinuationPoints := Filter(browseContinuationPoints, (cp: ContinuationPoint) => cp.id != id);
    }

    /** Releases every point whose id is listed in `ids`, through the set of
        the listed ids. */
    method RemoveBrowseContinuationPoints(ids: seq<ByteString>)
      requires Valid()
      modifies this`browseContinuationPoints
      ensures Valid()
      ensures browseContinuationPoints == WithoutIds(old(browseContinuationPoints), IdSet(ids))
    {
      var idSet := set id | id in ids;
      browseContinuationPoints := Filter(browseContinuationPoints, (cp: ContinuationPoint) => cp.id !in idSet);
    }
  }
}
