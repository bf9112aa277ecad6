# OPC UA server session state, modelled in Dafny

This project models the per-session state an OPC UA server keeps for one
connected client, as held by `Session` in `server/src/session.rs`. The model
has three parts:

- **Lifecycle flags.** These are `activated`, `terminate_session`,
  `terminated`, and the `terminated_at` time that `terminated()` stamps.
- **Session-id counter.** `next_session_id` increments a `u32` counter and
  returns the node id `(namespace 1, counter)`.
- **Continuation-point store.** This is a bounded FIFO store of browse
  continuation points, the cursors of paused Browse requests.
  - Adding appends the point, then evicts from the front until the store is
    within its capacity.
  - Finding is a linear search by id that returns a copy of the first match.
  - Three removals filter the store in place, keeping the order: by the
    address space's validity check, by one id, and by a list of ids.

Files:

- `types.dfy` (module `Types`): the value types. These are `byte`,
  `ByteString`, `NodeId`, `Instant`, `Option`, and the continuation point
  (an id plus a browse cursor).
- `continuation_points.dfy` (module `ContinuationPoints`): the store's
  specification as functions on the stored sequence, oldest first.
  - `Filter` is what `Vec::retain` leaves.
  - `Evict` is the eviction loop.
  - `Lookup` is the search.
  - The lemmas state what each operation promises.
- `session.dfy` (module `Sessions`): the class `Session`. Its fields are
  updated in place by methods. Each method's `ensures` ties the new state to
  the specification functions, and each method preserves `Valid()`: the
  store stays within capacity and the counter fits a `u32`.

Parameters of the model:

- The clock reading `UTC::now()` is the `now: Instant` argument of the
  constructor and of `Terminated`.
- The capacity `MAX_BROWSE_CONTINUATION_POINTS` is a constructor argument.
  It comes from a constants module that is not part of this model.
- The address space's check `is_valid_browse_continuation_point` is the
  function argument `valid` of `RemoveExpiredBrowseContinuationPoints`.

Where the code and its description differ, the model follows the code:

- Terminating a session is sometimes described as keeping the first
  termination time. The code overwrites `terminated_at` on every call
  (`server/src/session.rs:130-133`), and `Terminated` does the same.
- The doc comment of `find_browse_continuation_point` says an out-of-date
  point is removed. The method takes `&self` and removes nothing
  (`server/src/session.rs:167-178`), and `FindBrowseContinuationPoint`
  changes nothing.

## Model

| member | source | states |
|---|---|---|
| `Sessions.Session.constructor` | server/src/session.rs:103-128 | A new session is not activated, not marked for termination and not terminated. Its continuation-point store is empty, its capacity is the configured maximum, its id counter is 0, and its session id and authentication token are null. |
| `Sessions.Session.Terminated` | server/src/session.rs:130-133 | Sets `terminated` and sets `terminatedAt` to the given time, overwriting any earlier time. The modifies frame leaves every other field unchanged. |
| `Sessions.Session.NextSessionId` | server/src/session.rs:135-138 | The counter grows by exactly 1, and the result is `(namespace 1, new counter)`. The result is not among the ids the session returned before. The u32 counter must be below 2^32-1. |
| `Sessions.IssuedIds` | server/src/session.rs:135-138 | The ids returned by the first n calls, in order, number exactly n. |
| `Sessions.IssuedIdsInRange` | server/src/session.rs:135-138 | Every id returned by the first n calls is in namespace 1, with an identifier from 1 to n. |
| `Sessions.IssuedIdsAt` | server/src/session.rs:135-138 | The i-th id returned is `(1, i + 1)`. |
| `Sessions.IssuedIdsIncrease` | server/src/session.rs:135-138 | Successive calls return strictly increasing identifiers, so no session id repeats. |
| `Sessions.Session.AddBrowseContinuationPoint` | server/src/session.rs:160-165 | The new store is `Added(old store, cp, capacity)`: the push followed by the eviction loop. It stays within capacity. |
| `ContinuationPoints.EvictKeepsNewest` | server/src/session.rs:162-164 | Removing from the front while the length exceeds `max` leaves the newest `min(len, max)` elements, in their order. |
| `ContinuationPoints.AddedKeepsNewest` | server/src/session.rs:160-165 | After an add the store holds at most `max` points. They are the newest `min(old length + 1, max)` of the old store followed by the new point. |
| `ContinuationPoints.AddedEndsWithNewPoint` | server/src/session.rs:160-165 | When the capacity is positive, the new point is the last element, preceded by the newest of the old points. |
| `ContinuationPoints.AddedBelowCapacity` | server/src/session.rs:160-165 | Below capacity nothing is evicted: the store becomes the old store plus the new point. |
| `ContinuationPoints.AddedAtCapacity` | server/src/session.rs:160-165 | At capacity exactly the oldest point is evicted, not the newest. |
| `Sessions.Session.FindBrowseContinuationPoint` | server/src/session.rs:167-178 | Returns `None` exactly when no stored point has the id. Otherwise it returns the first stored point with that id. The store is not changed. |
| `ContinuationPoints.Lookup` | server/src/session.rs:169-177 | A found point is stored and has the id. Nothing is found exactly when no stored point has the id. |
| `ContinuationPoints.LookupFindsFirst` | server/src/session.rs:170-172 | The search returns the earliest stored point with the id. |
| `ContinuationPoints.Filter` | server/src/session.rs:180-201 | What `retain` leaves is no longer than before. Every kept point passes the predicate. A point is kept exactly when it was stored and passes. |
| `ContinuationPoints.FilterAppend` | server/src/session.rs:180-201 | Filtering preserves relative order: filtering `a + b` is filtering `a` followed by filtering `b`. |
| `ContinuationPoints.FilterCount` | server/src/session.rs:180-201 | Each passing point keeps its number of occurrences, and each failing point disappears. |
| `ContinuationPoints.FilterKeepsAll` | server/src/session.rs:180-201 | A filter that rejects no stored point changes nothing. |
| `ContinuationPoints.FilterIdempotent` | server/src/session.rs:180-184 | Removing expired points twice in a row gives the same store as removing them once. |
| `Sessions.Session.RemoveExpiredBrowseContinuationPoints` | server/src/session.rs:180-184 | The new store is the order-preserving filter of the old one by the validity check. It stays within capacity. |
| `ContinuationPoints.LookupAfterFilter` | server/src/session.rs:186-201 | After filtering by an id-based predicate, a lookup finds what it found before if that point passes, and otherwise nothing. |
| `Sessions.Session.RemoveBrowseContinuationPoint` | server/src/session.rs:186-190 | The new store is the old one without the points that have the id, in the original order. It stays within capacity. |
| `ContinuationPoints.LookupAfterRelease` | server/src/session.rs:186-190 | After releasing an id, that id is not found. Every other id is found exactly as before. |
| `ContinuationPoints.ReleaseOneIsReleaseMany` | server/src/session.rs:186-201 | Releasing one id is the same as releasing the one-element set of ids. |
| `Sessions.Session.RemoveBrowseContinuationPoints` | server/src/session.rs:193-201 | The new store is the order-preserving filter of the old one to points whose id is not in the set of listed ids. It stays within capacity. |
| `ContinuationPoints.LookupAfterReleaseMany` | server/src/session.rs:193-201 | After releasing a set of ids, none of them is found, and each id outside the set is found exactly as before. |
| `ContinuationPoints.WithoutIdThenIds` | server/src/session.rs:186-201 | Releasing one id and then a set of ids is the same as releasing their union. |
| `ContinuationPoints.ReleaseManyIsReleaseEach` | server/src/session.rs:193-201 | Releasing a list of ids through its set is the same as releasing the ids one at a time, first to last. |
| `ContinuationPoints.ReleaseManyIgnoresDuplicates` | server/src/session.rs:194-196 | Listing an id twice releases nothing more than listing it once. |

## Left out

- `enqueue_publish_request`, `tick_subscriptions` and `expire_stale_publish_requests` (`server/src/session.rs:144-158`): each one locks the shared address space or hands the call straight to `Subscriptions`, which is not part of this model.
- The address space's continuation-point validity check (`server/src/session.rs:182`): it depends on `AddressSpace`, which is not part of this model, so it is a function parameter.
- The secure channel and certificate store (`server/src/session.rs:89`, `116`): these are cryptographic collaborators.
- `new_no_certificate_store` (`server/src/session.rs:76-101`): it builds the same state as `new` except for the secure channel, so the one constructor covers both.
- `diagnostics()` and `SessionDiagnostics`: the struct is empty and the accessor only returns it.
- Fields the session code never updates beyond their initial value (security policy URI, client certificate, session nonce, session timeout, user identity, endpoint URL): only the fields the modelled operations touch are kept, plus the two null node ids and the message sizes. The session timeout is a float and is not modelled.
- Wall-clock time: `UTC::now()` is an `Instant` argument, and `Instant` is an integer count of milliseconds.
- `ByteString` is modelled as a plain byte sequence. The opcua type distinguishes a null byte string from an empty one, and that distinction is not modelled.
- `NodeId` is modelled with numeric identifiers only. The session code only creates numeric ids.
- The browse cursor carried by a continuation point is opaque to the session. The model gives it a node id, a position and a reference limit, and no operation looks inside it.
- Sessions.Session.NextSessionId: requires the counter to be below 2^32-1. A Rust `u32` addition overflows there: a debug build panics and a release build wraps to 0. Neither outcome is modelled.
