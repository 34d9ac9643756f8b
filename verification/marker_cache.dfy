/**
 The marker debouncer: a per-identifier latch that suppresses detector jitter.

 A fresh reading replaces the latched one only when its center moved, or its
 angle turned, by more than the cache-hit threshold; otherwise the latched
 reading is handed out again. The latch is a binary one: a reading is always
 compared with the latched marker, never with the previous reading, so slow
 drift inside the threshold never moves it.
 */
module MarkerCache {
  import opened Geometry

  datatype Marker = Marker(id: int, corners: Corners, center: Point, angle: real)

  /** The last accepted reading per marker identifier. */
  type Cache = map<int, Marker>

  /** Every entry is stored under its own marker's identifier. */
  ghost predicate CacheKeyed(cache: Cache)
  {
    forall id :: id in cache ==> cache[id].id == id
  }

  /** A reading moved away from the latched one by more than the threshold. */
  predicate Moved(latched: Marker, m: Marker, threshold: real, dist: Distance)
  {
    dist(latched.center, m.center) > threshold || Abs(latched.angle - m.angle) > threshold
  }

  datatype Debounced = Debounced(marker: Marker, cache: Cache)

  /** One lookup of the debouncer: the reading judged current, and the updated cache. */
  function CheckCache(cache: Cache, m: Marker, threshold: real, dist: Distance): (r: Debounced)
    // first sighting: the reading is stored and returned
    ensures m.id !in cache ==> r.marker == m
    // real change: the reading overwrites the latch and is returned
    ensures m.id in cache && Moved(cache[m.id], m, threshold, dist) ==> r.marker == m
    // jitter: the latched reading is returned and the cache is left alone
    ensures m.id in cache && !Moved(cache[m.id], m, threshold, dist) ==>
              r.marker == cache[m.id] && r.cache == cache
    // afterwards the cache holds exactly the returned reading under the identifier
    ensures r.cache.Keys == cache.Keys + {m.id}
    ensures r.cache[m.id] == r.marker
    ensures forall id :: id in cache && id != m.id ==> r.cache[id] == cache[id]
    ensures CacheKeyed(cache) ==> CacheKeyed(r.cache) && r.marker.id == m.id
  {
    if m.id in cache then
      var latched := cache[m.id];
      if Moved(latched, m, threshold, dist) then
        Debounced(m, cache[m.id := m])
      else
        Debounced(latched, cache)
    else
      Debounced(m, cache[m.id := m])
  }

  /** The readings handed out for a batch, and the cache after the batch. */
  datatype DebouncedBatch = DebouncedBatch(markers: seq<Marker>, cache: Cache)

  /** No earlier reading of the batch has the identifier of reading `i`. */
  predicate FirstOfId(ms: seq<Marker>, i: int)
    requires 0 <= i < |ms|
  {
    forall j :: 0 <= j < i ==> ms[j].id != ms[i].id
  }

  /** No later reading of the batch has the identifier of reading `i`. */
  predicate LastOfId(ms: seq<Marker>, i: int)
    requires 0 <= i < |ms|
  {
    forall j :: i < j < |ms| ==> ms[j].id != ms[i].id
  }

  /** No two readings of the batch share an identifier. */
  predicate DistinctIds(ms: seq<Marker>)
  {
    forall i, j :: 0 <= i < j < |ms| ==> ms[i].id != ms[j].id
  }

  /** The identifiers that occur in a batch. */
  function IdsOf(ms: seq<Marker>): set<int>
  {
    set i | 0 <= i < |ms| :: ms[i].id
  }

  /** Whether two caches agree on one identifier. */
  predicate SameEntry(c1: Cache, c2: Cache, id: int)
  {
    (id in c1 <==> id in c2) && (id in c1 ==> c1[id] == c2[id])
  }

  /** A lookup only looks at the entry of its own identifier. */
  lemma CheckCacheLocal(c1: Cache, c2: Cache, m: Marker, threshold: real, dist: Distance)
    requires SameEntry(c1, c2, m.id)
    ensures CheckCache(c1, m, threshold, dist).marker == CheckCache(c2, m, threshold, dist).marker
  {
  }

  /**
   Debounces the readings of one frame in order, threading the cache from one
   lookup to the next, as the frame's `map(checkCache)` does.
   */
  function DebounceAll(cache: Cache, ms: seq<Marker>, threshold: real, dist: Distance): (r: DebouncedBatch)
    requires CacheKeyed(cache)
    ensures |r.markers| == |ms|
    ensures CacheKeyed(r.cache)
    ensures forall i :: 0 <= i < |ms| ==> r.markers[i].id == ms[i].id
    // each reading comes back unchanged, or as a latched reading it did not move away from
    ensures forall i :: 0 <= i < |ms| ==>
              r.markers[i] == ms[i] || !Moved(r.markers[i], ms[i], threshold, dist)
    // only the batch's identifiers are added or touched
    ensures r.cache.Keys == cache.Keys + IdsOf(ms)
    ensures forall id :: id in cache && id !in IdsOf(ms) ==> r.cache[id] == cache[id]
    decreases |ms|
  {
    if |ms| == 0 then
      DebouncedBatch([], cache)
    else
      var d := CheckCache(cache, ms[0], threshold, dist);
      var rest := DebounceAll(d.cache, ms[1..], threshold, dist);
      IdsOfCons(ms);
      DebouncedBatch([d.marker] + rest.markers, rest.cache)
  }

  lemma IdsOfCons(ms: seq<Marker>)
    requires |ms| > 0
    ensures IdsOf(ms) == {ms[0].id} + IdsOf(ms[1..])
  {
    forall id | id in IdsOf(ms) ensures id in {ms[0].id} + IdsOf(ms[1..]) {
      var i :| 0 <= i < |ms| && ms[i].id == id;
      if i > 0 { assert ms[1..][i - 1].id == id; }
    }
  }

  /**
   Within a batch, the first reading of an identifier is judged against the
   cache as it was before the batch: earlier lookups only touch other entries.
   */
  lemma {:induction false} DebounceFirstOfId(cache: Cache, ms: seq<Marker>, threshold: real, dist: Distance, i: int)
    requires CacheKeyed(cache)
    requires 0 <= i < |ms| && FirstOfId(ms, i)
    ensures DebounceAll(cache, ms, threshold, dist).markers[i] == CheckCache(cache, ms[i], threshold, dist).marker
    decreases |ms|
  {
    if i > 0 {
      var d := CheckCache(cache, ms[0], threshold, dist);
      assert FirstOfId(ms[1..], i - 1);
      DebounceFirstOfId(d.cache, ms[1..], threshold, dist, i - 1);
      assert ms[i].id != ms[0].id;
      CheckCacheLocal(d.cache, cache, ms[i], threshold, dist);
    }
  }

  /**
   After a batch, the cache latches what was handed out for the last reading
   of each identifier.
   */
  lemma {:induction false} DebounceLastOfId(cache: Cache, ms: seq<Marker>, threshold: real, dist: Distance, i: int)
    requires CacheKeyed(cache)
    requires 0 <= i < |ms| && LastOfId(ms, i)
    ensures var r := DebounceAll(cache, ms, threshold, dist);
            ms[i].id in r.cache && r.cache[ms[i].id] == r.markers[i]
    decreases |ms|
  {
    var d := CheckCache(cache, ms[0], threshold, dist);
    IdsOfCons(ms);
    if i == 0 {
      assert ms[0].id !in IdsOf(ms[1..]);
    } else {
      assert LastOfId(ms[1..], i - 1);
      DebounceLastOfId(d.cache, ms[1..], threshold, dist, i - 1);
    }
  }

  /**
   Jitter never drifts the latch: a batch of readings that each equal, or stay
   within the threshold of, the latched reading of their identifier gets the
   latched readings back and leaves the cache exactly as it was.
   */
  lemma {:induction false} LatchedBatchIsNoOp(cache: Cache, ms: seq<Marker>, threshold: real, dist: Distance)
    requires CacheKeyed(cache)
    requires forall i :: 0 <= i < |ms| ==>
               ms[i].id in cache
               && (cache[ms[i].id] == ms[i] || !Moved(cache[ms[i].id], ms[i], threshold, dist))
    ensures DebounceAll(cache, ms, threshold, dist).cache == cache
    ensures forall i :: 0 <= i < |ms| ==>
              DebounceAll(cache, ms, threshold, dist).markers[i] == cache[ms[i].id]
    decreases |ms|
  {
    if |ms| > 0 {
      assert CheckCache(cache, ms[0], threshold, dist) == Debounced(cache[ms[0].id], cache) by {
        assert cache[ms[0].id := cache[ms[0].id]] == cache;
      }
      LatchedBatchIsNoOp(cache, ms[1..], threshold, dist);
      var r := DebounceAll(cache, ms, threshold, dist);
      assert r.markers == [cache[ms[0].id]] + DebounceAll(cache, ms[1..], threshold, dist).markers;
      forall i | 1 <= i < |ms| ensures r.markers[i] == cache[ms[i].id] {
        assert ms[1..][i - 1] == ms[i];
      }
    }
  }

  /**
   A reading is never judged to have moved away from itself, so whatever the
   debouncer returns stays latched when the same reading arrives again.
   */
  lemma NotMovedFromItself(m: Marker, threshold: real, dist: Distance)
    requires threshold >= 0.0 && IsMetric(dist)
    ensures !Moved(m, m, threshold, dist)
  {
  }

  /**
   Debouncing is idempotent: feeding the same batch of readings (one per
   identifier) a second time hands out the same readings and leaves the cache
   as the first pass left it.
   */
  lemma DebounceAllIdempotent(cache: Cache, ms: seq<Marker>, threshold: real, dist: Distance)
    requires CacheKeyed(cache) && DistinctIds(ms)
    ensures var first := DebounceAll(cache, ms, threshold, dist);
            DebounceAll(first.cache, ms, threshold, dist) == first
  {
    var first := DebounceAll(cache, ms, threshold, dist);
    forall i | 0 <= i < |ms|
      ensures ms[i].id in first.cache && first.cache[ms[i].id] == first.markers[i]
    {
      assert LastOfId(ms, i);
      DebounceLastOfId(cache, ms, threshold, dist, i);
    }
    LatchedBatchIsNoOp(first.cache, ms, threshold, dist);
    var second := DebounceAll(first.cache, ms, threshold, dist);
    assert second.markers == first.markers by {
      forall i | 0 <= i < |ms| ensures second.markers[i] == first.markers[i] {
      }
    }
  }

  /**
   Once a reading is latched, any later reading of the same identifier within
   the threshold gets the latched reading back and changes nothing, and so
   does the latched reading itself.
   */
  lemma JitterReturnsLatched(cache: Cache, m1: Marker, m2: Marker, threshold: real, dist: Distance)
    requires m1.id == m2.id
    requires !Moved(m1, m2, threshold, dist)
    requires CheckCache(cache, m1, threshold, dist).marker == m1
    ensures var c := CheckCache(cache, m1, threshold, dist).cache;
            CheckCache(c, m2, threshold, dist) == Debounced(m1, c)
            && CheckCache(c, m1, threshold, dist) == Debounced(m1, c)
  {
    var c := CheckCache(cache, m1, threshold, dist).cache;
    assert c[m1.id := m1] == c;
  }
}
