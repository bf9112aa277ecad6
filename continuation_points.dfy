/** Specification of a session's bounded FIFO store of browse continuation
    points, as functions on the sequence the store holds (oldest first), and
    the properties the store's operations promise. */
module ContinuationPoints {
  import opened Types

  function Min(a: nat, b: nat): nat { if a <= b then a else b }

  /** The points of `s` that `keep` accepts, in their original order: what
      `Vec::retain` leaves in the vector. */
  function Filter(s: seq<ContinuationPoint>, keep: ContinuationPoint -> bool): (r: seq<ContinuationPoint>)
    ensures |r| <= |s|
    ensures forall i :: 0 <= i < |r| ==> keep(r[i])
    ensures forall cp :: cp in r <==> cp in s && keep(cp)
  {
    if s == [] then []
    else if keep(s[0]) then [s[0]] + Filter(s[1..], keep)
    else Filter(s[1..], keep)
  }

  /** Drops points from the front while there are more than `max`: the
      eviction loop of the store. */
  function Evict(s: seq<ContinuationPoint>, max: nat): seq<ContinuationPoint>
    decreases |s|
  {
    if |s| <= max then s else Evict(s[1..], max)
  }

  /** Eviction keeps exactly the newest `min(|s|, max)` points. */
  lemma {:induction false} EvictKeepsNewest(s: seq<ContinuationPoint>, max: nat)
    ensures Evict(s, max) == s[|s| - Min(|s|, max)..]
    decreases |s|
  {
    if |s| <= max {
      assert Min(|s|, max) == |s|;
      assert s[0..] == s;
    } else {
      var t := s[1..];
      assert Evict(s, max) == Evict(t, max);
      assert Min(|s|, max) == max && Min(|t|, max) == max;
      EvictKeepsNewest(t, max);
      assert t[|t| - max..] == s[|s| - max..];
    }
  }

  /** The store after `cp` is added to `s` under the capacity `max`. */
  function Added(s: seq<ContinuationPoint>, cp: ContinuationPoint, max: nat): seq<ContinuationPoint>
  {
    Evict(s + [cp], max)
  }

  /** The first stored point whose id is `id`, if there is one. */
  function Lookup(s: seq<ContinuationPoint>, id: ByteString): (r: Option<ContinuationPoint>)
    ensures r.Some? ==> r.value in s && r.value.id == id
    ensures r.None? <==> forall cp :: cp in s ==> cp.id != id
  {
    if s == [] then None
    else if s[0].id == id then Some(s[0])
    else Lookup(s[1..], id)
  }

  /** The store after releasing the point `id`. */
  function WithoutId(s: seq<ContinuationPoint>, id: ByteString): seq<ContinuationPoint>
  {
    Filter(s, (cp: ContinuationPoint) => cp.id != id)
  }

  /** The store after releasing every point whose id is in `ids`. */
  function WithoutIds(s: seq<ContinuationPoint>, ids: set<ByteString>): seq<ContinuationPoint>
  {
    Filter(s, (cp: ContinuationPoint) => cp.id !in ids)
  }

  /** The set of ids listed in `ids` (what the release request is turned into). */
  function IdSet(ids: seq<ByteString>): set<ByteString>
  {
    set id | id in ids
  }

  /** Releases the ids of `ids` one at a time, first to last. */
  function WithoutEach(s: seq<ContinuationPoint>, ids: seq<ByteString>): seq<ContinuationPoint>
    decreases |ids|
  {
    if ids == [] then s else WithoutEach(WithoutId(s, ids[0]), ids[1..])
  }

  // ---------------------------------------------------------------------
  // Filtering

  /** Filtering keeps relative order: it works piecewise over a split. */
  lemma {:induction false} FilterAppend(a: seq<ContinuationPoint>, b: seq<ContinuationPoint>, keep: ContinuationPoint -> bool)
    ensures Filter(a + b, keep) == Filter(a, keep) + Filter(b, keep)
  {
    if a != [] {
      assert (a + b)[0] == a[0];
      assert (a + b)[1..] == a[1..] + b;
      FilterAppend(a[1..], b, keep);
    } else {
      assert a + b == b;
    }
  }

  /** Each accepted point survives as many times as it was stored; each
      rejected point disappears. */
  lemma {:induction false} FilterCount(s: seq<ContinuationPoint>, keep: ContinuationPoint -> bool, x: ContinuationPoint)
    ensures multiset(Filter(s, keep))[x] == if keep(x) then multiset(s)[x] else 0
  {
    if s != [] {
      FilterCount(s[1..], keep, x);
      assert s == [s[0]] + s[1..];
      assert multiset(s) == multiset([s[0]]) + multiset(s[1..]);
    }
  }

  /** A filter that rejects nothing in `s` leaves `s` as it is. */
  lemma {:induction false} FilterKeepsAll(s: seq<ContinuationPoint>, keep: ContinuationPoint -> bool)
    requires forall cp :: cp in s ==> keep(cp)
    ensures Filter(s, keep) == s
  {
    if s != [] {
      assert s[0] in s;
      assert forall cp :: cp in s[1..] ==> cp in s;
      FilterKeepsAll(s[1..], keep);
      assert s == [s[0]] + s[1..];
    }
  }

  /** Filtering twice with the same predicate is filtering once. */
  lemma {:induction false} FilterIdempotent(s: seq<ContinuationPoint>, keep: ContinuationPoint -> bool)
    ensures Filter(Filter(s, keep), keep) == Filter(s, keep)
  {
    FilterKeepsAll(Filter(s, keep), keep);
  }

  // ---------------------------------------------------------------------
  // Adding with eviction

  /** Eviction stops at the capacity: after adding, at most `max` points
      are stored, and the store holds the newest `min(|s| + 1, max)` of
      `s + [cp]`. */
  lemma AddedKeepsNewest(s: seq<ContinuationPoint>, cp: ContinuationPoint, max: nat)
    ensures |Added(s, cp, max)| <= max
    ensures |Added(s, cp, max)| == Min(|s| + 1, max)
    ensures Added(s, cp, max) == (s + [cp])[|s| + 1 - Min(|s| + 1, max)..]
  {
    EvictKeepsNewest(s + [cp], max);
  }

  /** With a non-zero capacity the new point is always the newest one
      stored, preceded by the newest of the points already there. */
  lemma AddedEndsWithNewPoint(s: seq<ContinuationPoint>, cp: ContinuationPoint, max: nat)
    requires max > 0
    ensures Added(s, cp, max) == s[|s| + 1 - Min(|s| + 1, max)..] + [cp]
  {
    var k := |s| + 1 - Min(|s| + 1, max);
    EvictKeepsNewest(s + [cp], max);
    assert (s + [cp])[k..] == s[k..] + [cp];
  }

  /** Below capacity nothing is evicted. */
  lemma AddedBelowCapacity(s: seq<ContinuationPoint>, cp: ContinuationPoint, max: nat)
    requires |s| < max
    ensures Added(s, cp, max) == s + [cp]
  {
    EvictKeepsNewest(s + [cp], max);
  }

  /** At capacity exactly the oldest point is evicted. */
  lemma AddedAtCapacity(s: seq<ContinuationPoint>, cp: ContinuationPoint, max: nat)
    requires 0 < max == |s|
    ensures Added(s, cp, max) == s[1..] + [cp]
  {
    AddedEndsWithNewPoint(s, cp, max);
  }

  // ---------------------------------------------------------------------
  // Lookup

  /** The point found is the first one with the id. */
  lemma {:induction false} LookupFindsFirst(s: seq<ContinuationPoint>, id: ByteString, i: nat)
    requires i < |s| && s[i].id == id
    requires forall j :: 0 <= j < i ==> s[j].id != id
    ensures Lookup(s, id) == Some(s[i])
  {
    if i > 0 {
      LookupFindsFirst(s[1..], id, i - 1);
    }
  }

  /** Looking up in a filtered store finds what the unfiltered store would,
      unless the filter rejected it: lookups and filters commute when the
      filter decides by id alone. */
  lemma {:induction false} LookupAfterFilter(s: seq<ContinuationPoint>, keep: ContinuationPoint -> bool, id: ByteString)
    requires forall a: ContinuationPoint, b: ContinuationPoint :: a.id == b.id ==> keep(a) == keep(b)
    ensures Lookup(Filter(s, keep), id) == match Lookup(s, id)
                                           case None => None
                                           case Some(cp) => if keep(cp) then Some(cp) else None
  {
    if s != [] {
      LookupAfterFilter(s[1..], keep, id);
    }
  }

  // ---------------------------------------------------------------------
  // Releasing by id

  /** After releasing `id` it can no longer be found, and every other id
      is found exactly as before. */
  lemma LookupAfterRelease(s: seq<ContinuationPoint>, id: ByteString, other: ByteString)
    ensures Lookup(WithoutId(s, id), other) == if other == id then None else Lookup(s, other)
  {
    LookupAfterFilter(s, (cp: ContinuationPoint) => cp.id != id, other);
  }

  /** After releasing a set of ids none of them can be found, and every id
      outside the set is found exactly as before. */
  lemma LookupAfterReleaseMany(s: seq<ContinuationPoint>, ids: set<ByteString>, other: ByteString)
    ensures Lookup(WithoutIds(s, ids), other) == if other in ids then None else Lookup(s, other)
  {
    LookupAfterFilter(s, (cp: ContinuationPoint) => cp.id !in ids, other);
  }

  /** Releasing one id is releasing the one-element set of it. */
  lemma {:induction false} ReleaseOneIsReleaseMany(s: seq<ContinuationPoint>, id: ByteString)
    ensures WithoutId(s, id) == WithoutIds(s, {id})
  {
    if s != [] {
      ReleaseOneIsReleaseMany(s[1..], id);
    }
  }

  /** Releasing one id and then a set of ids is releasing their union. */
  lemma {:induction false} WithoutIdThenIds(s: seq<ContinuationPoint>, id: ByteString, ids: set<ByteString>)
    ensures WithoutIds(WithoutId(s, id), ids) == WithoutIds(s, ids + {id})
  {
    if s != [] {
      WithoutIdThenIds(s[1..], id, ids);
    }
  }

  /** Releasing a list of ids at once is releasing them one at a time, in
      any order and however often each is listed. */
  lemma {:induction false} ReleaseManyIsReleaseEach(s: seq<ContinuationPoint>, ids: seq<ByteString>)
    ensures WithoutIds(s, IdSet(ids)) == WithoutEach(s, ids)
    decreases |ids|
  {
    if ids == [] {
      FilterKeepsAll(s, (cp: ContinuationPoint) => cp.id !in IdSet(ids));
    } else {
      ReleaseManyIsReleaseEach(WithoutId(s, ids[0]), ids[1..]);
      WithoutIdThenIds(s, ids[0], IdSet(ids[1..]));
      assert IdSet(ids[1..]) + {ids[0]} == IdSet(ids) by {
        assert ids == [ids[0]] + ids[1..];
      }
    }
  }

  /** Listing an id twice releases nothing more than listing it once. */
  lemma ReleaseManyIgnoresDuplicates(s: seq<ContinuationPoint>, ids: seq<ByteString>, k: nat)
    requires k < |ids|
    ensures WithoutEach(s, ids + [ids[k]]) == WithoutEach(s, ids)
  {
    ReleaseManyIsReleaseEach(s, ids + [ids[k]]);
    ReleaseManyIsReleaseEach(s, ids);
    assert IdSet(ids + [ids[k]]) == IdSet(ids);
  }
}
