/**
 The turret synchronizer: turns one frame's marker readings into the registry
 of turret placements that the renderer and the tower objects read.

 A sync keeps the readings whose identifier has a ratio configuration,
 debounces them, scales each into a placement stamped with the current frame,
 merges the new placements over the previous registry and finally drops every
 placement that has not been refreshed within the grace period.
 */
module Turrets {
  import opened Geometry
  import opened MarkerCache

  datatype TurretKind = Gatling | Spray

  /** Per-identifier calibration: physical marker size, rendered size, rotation and kind. */
  datatype Ratio = Ratio(id: int, codeWidth: real, diameter: real, rotationOffset: real, kind: TurretKind)

  type Ratios = map<int, Ratio>

  /** The configuration the game ships with; `HalfPi` is the decimal JavaScript prints for `Math.PI / 2`. */
  const HalfPi: real := 1.5707963267948966

  const DefaultRatios: Ratios := map[
    40 := Ratio(40, 2.5, 4.0, HalfPi, Gatling),
    41 := Ratio(41, 2.5, 4.0, HalfPi, Gatling),
    50 := Ratio(50, 2.5, 4.0, HalfPi, Spray),
    51 := Ratio(51, 2.5, 4.0, HalfPi, Spray)
  ]

  /** Every configuration has a marker width the scale can be divided by. */
  predicate RatiosUsable(ratios: Ratios)
  {
    forall id :: id in ratios ==> ratios[id].codeWidth != 0.0
  }

  /** The settings the synchronizer reads. */
  datatype Settings = Settings(cacheHitThreshold: real, preserveWallsFrames: int)

  datatype Placement = Placement(
    id: int,
    corners: Corners,
    center: Point,
    angle: real,
    diameter: real,
    kind: TurretKind,
    timestamp: int)

  /** The placement registry, by marker identifier. */
  type Registry = map<int, Placement>

  /** Every placement is stored under its own identifier. */
  ghost predicate Keyed(reg: Registry)
  {
    forall id :: id in reg ==> reg[id].id == id
  }

  /** The synchronizer's state: the marker cache and the placement registry. */
  datatype TurretState = TurretState(cache: Cache, turrets: Registry)

  const Initial: TurretState := TurretState(map[], map[])

  ghost predicate StateInvariant(s: TurretState)
  {
    CacheKeyed(s.cache) && Keyed(s.turrets)
  }

  /** The length of side `c` of a marker, from corner `c` to the next corner in cyclic order. */
  function Side(m: Marker, c: int, dist: Distance): real
    requires 0 <= c < 4
  {
    dist(m.corners[c], m.corners[(c + 1) % 4])
  }

  /** The mean length of a marker's four sides. */
  function MarkUnit(m: Marker, dist: Distance): real
  {
    (Side(m, 0, dist) + Side(m, 1, dist) + Side(m, 2, dist) + Side(m, 3, dist)) / 4.0
  }

  /** The placement a debounced reading yields under its configuration at a frame. */
  function Place(m: Marker, ratio: Ratio, frame: int, dist: Distance): Placement
    requires ratio.codeWidth != 0.0
  {
    Placement(m.id, m.corners, m.center, m.angle - ratio.rotationOffset,
              (ratio.diameter / ratio.codeWidth) * MarkUnit(m, dist), ratio.kind, frame)
  }

  /** The readings of a frame that have a ratio configuration, in detector order. */
  function Configured(ms: seq<Marker>, ratios: Ratios): (r: seq<Marker>)
    ensures forall m :: m in r <==> m in ms && m.id in ratios
    ensures |r| <= |ms|
    ensures DistinctIds(ms) ==> DistinctIds(r)
  {
    if |ms| == 0 then []
    else
      var rest := Configured(ms[1..], ratios);
      assert forall m :: m in ms <==> m == ms[0] || m in ms[1..];
      if ms[0].id in ratios then
        assert DistinctIds(ms) ==> forall k :: 0 <= k < |rest| ==> rest[k].id != ms[0].id by {
          if DistinctIds(ms) {
            forall k | 0 <= k < |rest| ensures rest[k].id != ms[0].id {
              assert rest[k] in ms[1..];
              var j :| 0 <= j < |ms[1..]| && ms[1..][j] == rest[k];
              assert ms[j + 1] == rest[k];
            }
          }
        }
        [ms[0]] + rest
      else rest
  }

  /**
   The placements found this frame, keyed by identifier, from the debounced
   readings in order; a later reading of the same identifier wins.
   */
  function Found(ms: seq<Marker>, ratios: Ratios, frame: int, dist: Distance): (found: Registry)
    requires forall i :: 0 <= i < |ms| ==> ms[i].id in ratios
    requires RatiosUsable(ratios)
    ensures found.Keys == IdsOf(ms)
    ensures forall id :: id in found ==>
              found[id].id == id && found[id].timestamp == frame && found[id].kind == ratios[id].kind
    decreases |ms|
  {
    if |ms| == 0 then map[]
    else
      var n := |ms| - 1;
      IdsOfSnoc(ms);
      Found(ms[..n], ratios, frame, dist)[ms[n].id := Place(ms[n], ratios[ms[n].id], frame, dist)]
  }

  lemma IdsOfSnoc(ms: seq<Marker>)
    requires |ms| > 0
    ensures IdsOf(ms) == IdsOf(ms[..|ms| - 1]) + {ms[|ms| - 1].id}
  {
    var n := |ms| - 1;
    forall id | id in IdsOf(ms) ensures id in IdsOf(ms[..n]) + {ms[n].id} {
      var i :| 0 <= i < |ms| && ms[i].id == id;
      if i < n { assert ms[..n][i].id == id; }
    }
  }

  /** Within a frame, the placement of an identifier comes from its last reading. */
  lemma {:induction false} FoundLastWins(ms: seq<Marker>, ratios: Ratios, frame: int, dist: Distance, i: int)
    requires forall k :: 0 <= k < |ms| ==> ms[k].id in ratios
    requires RatiosUsable(ratios)
    requires 0 <= i < |ms| && LastOfId(ms, i)
    ensures ms[i].id in Found(ms, ratios, frame, dist)
    ensures Found(ms, ratios, frame, dist)[ms[i].id] == Place(ms[i], ratios[ms[i].id], frame, dist)
    decreases |ms|
  {
    var n := |ms| - 1;
    var prefix := Found(ms[..n], ratios, frame, dist);
    assert Found(ms, ratios, frame, dist) == prefix[ms[n].id := Place(ms[n], ratios[ms[n].id], frame, dist)];
    if i < n {
      assert ms[..n][i] == ms[i];
      assert LastOfId(ms[..n], i);
      FoundLastWins(ms[..n], ratios, frame, dist, i);
      assert ms[n].id != ms[i].id;
    }
  }

  /** Drops every placement that was last refreshed `preserve` or more frames ago. */
  function Prune(reg: Registry, frame: int, preserve: int): Registry
  {
    map id | id in reg && frame - reg[id].timestamp < preserve :: reg[id]
  }

  /** An identifier with a ratio configuration that the frame's readings contain. */
  predicate SeenConfigured(ms: seq<Marker>, ratios: Ratios, id: int)
  {
    id in ratios && exists i :: 0 <= i < |ms| && ms[i].id == id
  }

  /** The configured readings carry exactly the configured identifiers read this frame. */
  lemma IdsOfConfigured(ms: seq<Marker>, ratios: Ratios)
    ensures forall id :: id in IdsOf(Configured(ms, ratios)) <==> SeenConfigured(ms, ratios, id)
  {
    var configured := Configured(ms, ratios);
    forall id ensures id in IdsOf(configured) <==> SeenConfigured(ms, ratios, id) {
      if id in IdsOf(configured) {
        var i :| 0 <= i < |configured| && configured[i].id == id;
        assert configured[i] in ms;
      }
      if SeenConfigured(ms, ratios, id) {
        var i :| 0 <= i < |ms| && ms[i].id == id;
        assert ms[i] in configured;
      }
    }
  }

  /** One sync of the turret registry with the readings of frame `frame`. */
  function SyncTurrets(s: TurretState, ms: seq<Marker>, frame: int, ratios: Ratios,
                       settings: Settings, dist: Distance): (r: TurretState)
    requires StateInvariant(s) && RatiosUsable(ratios)
    ensures StateInvariant(r)
    // the prune window: every retained placement is younger than the grace period
    ensures forall id :: id in r.turrets ==>
              frame - r.turrets[id].timestamp < settings.preserveWallsFrames
    // nothing enters the registry but configured identifiers read this frame
    ensures forall id :: id in r.turrets ==> id in s.turrets || SeenConfigured(ms, ratios, id)
    // identifiers read this frame hold a fresh placement of their configured kind
    ensures forall id :: SeenConfigured(ms, ratios, id) ==>
              (id in r.turrets <==> settings.preserveWallsFrames > 0)
              && (id in r.turrets ==> r.turrets[id].timestamp == frame
                                      && r.turrets[id].kind == ratios[id].kind)
    // identifiers not read this frame keep their placement until it expires
    ensures forall id :: id in s.turrets && !SeenConfigured(ms, ratios, id) ==>
              (id in r.turrets <==> frame - s.turrets[id].timestamp < settings.preserveWallsFrames)
              && (id in r.turrets ==> r.turrets[id] == s.turrets[id])
    // only configured identifiers read this frame are added to the marker cache
    ensures forall id :: id in r.cache <==> id in s.cache || SeenConfigured(ms, ratios, id)
  {
    var configured := Configured(ms, ratios);
    var d := DebounceAll(s.cache, configured, settings.cacheHitThreshold, dist);
    var found := Found(d.markers, ratios, frame, dist);
    IdsOfConfigured(ms, ratios);
    assert IdsOf(d.markers) == IdsOf(configured);
    TurretState(d.cache, Prune(s.turrets + found, frame, settings.preserveWallsFrames))
  }

  /** The steps of a sync, as the frame performs them. */
  lemma SyncSteps(s: TurretState, ms: seq<Marker>, frame: int, ratios: Ratios,
                  settings: Settings, dist: Distance)
    requires StateInvariant(s) && RatiosUsable(ratios)
    ensures var batch := DebounceAll(s.cache, Configured(ms, ratios), settings.cacheHitThreshold, dist);
            var found := Found(batch.markers, ratios, frame, dist);
            SyncTurrets(s, ms, frame, ratios, settings, dist)
              == TurretState(batch.cache, Prune(s.turrets + found, frame, settings.preserveWallsFrames))
  {
  }

  /**
   With one reading per identifier, a configured reading yields a placement
   built from what the debouncer judged current for it: the reading's corners
   and center, its angle less the rotation offset, the configured kind, the
   current frame, and the configured diameter per marker width times the
   mean side length.
   */
  lemma SyncPlacementFields(s: TurretState, ms: seq<Marker>, frame: int, ratios: Ratios,
                            settings: Settings, dist: Distance, i: int)
    requires StateInvariant(s) && RatiosUsable(ratios)
    requires DistinctIds(ms)
    requires 0 <= i < |ms| && ms[i].id in ratios && settings.preserveWallsFrames > 0
    ensures var r := SyncTurrets(s, ms, frame, ratios, settings, dist);
            var ratio := ratios[ms[i].id];
            var d := CheckCache(s.cache, ms[i], settings.cacheHitThreshold, dist).marker;
            && ms[i].id in r.turrets
            && r.turrets[ms[i].id].corners == d.corners
            && r.turrets[ms[i].id].center == d.center
            && r.turrets[ms[i].id].angle == d.angle - ratio.rotationOffset
            && r.turrets[ms[i].id].diameter == (ratio.diameter / ratio.codeWidth) * MarkUnit(d, dist)
            && r.turrets[ms[i].id].kind == ratio.kind
            && r.turrets[ms[i].id].timestamp == frame
  {
    var id := ms[i].id;
    var batch := DebounceAll(s.cache, Configured(ms, ratios), settings.cacheHitThreshold, dist);
    var found := Found(batch.markers, ratios, frame, dist);
    var d := CheckCache(s.cache, ms[i], settings.cacheHitThreshold, dist).marker;
    FoundPlacesDebounced(s.cache, ms, frame, ratios, settings.cacheHitThreshold, dist, i);
    SyncSteps(s, ms, frame, ratios, settings, dist);
    assert SyncTurrets(s, ms, frame, ratios, settings, dist).turrets[id] == Place(d, ratios[id], frame, dist);
  }

  /** The found placement of a configured reading comes from the reading the debouncer handed out for it. */
  lemma FoundPlacesDebounced(cache: Cache, ms: seq<Marker>, frame: int, ratios: Ratios,
                             threshold: real, dist: Distance, i: int)
    requires CacheKeyed(cache) && RatiosUsable(ratios)
    requires DistinctIds(ms)
    requires 0 <= i < |ms| && ms[i].id in ratios
    ensures var batch := DebounceAll(cache, Configured(ms, ratios), threshold, dist);
            var found := Found(batch.markers, ratios, frame, dist);
            && ms[i].id in found
            && found[ms[i].id] == Place(CheckCache(cache, ms[i], threshold, dist).marker, ratios[ms[i].id], frame, dist)
  {
    var configured := Configured(ms, ratios);
    var batch := DebounceAll(cache, configured, threshold, dist);
    assert ms[i] in configured;
    var j :| 0 <= j < |configured| && configured[j] == ms[i];
    assert FirstOfId(configured, j);
    DebounceFirstOfId(cache, configured, threshold, dist, j);
    assert LastOfId(batch.markers, j);
    FoundLastWins(batch.markers, ratios, frame, dist, j);
  }

  /** Re-applying a merge with the same found placements, then pruning at the same frame, changes nothing. */
  lemma MergePruneIdempotent(reg: Registry, found: Registry, frame: int, preserve: int)
    ensures var once := Prune(reg + found, frame, preserve);
            Prune(once + found, frame, preserve) == once
  {
  }

  /**
   Syncing the same readings twice in the same frame (one reading per
   identifier) changes nothing the second time:
   neither the registry nor the marker cache.
   */
  lemma SyncSameFrameIdempotent(s: TurretState, ms: seq<Marker>, frame: int, ratios: Ratios,
                                settings: Settings, dist: Distance)
    requires StateInvariant(s) && RatiosUsable(ratios)
    requires DistinctIds(ms)
    ensures var first := SyncTurrets(s, ms, frame, ratios, settings, dist);
            SyncTurrets(first, ms, frame, ratios, settings, dist) == first
  {
    var first := SyncTurrets(s, ms, frame, ratios, settings, dist);
    var configured := Configured(ms, ratios);
    DebounceAllIdempotent(s.cache, configured, settings.cacheHitThreshold, dist);
    var batch := DebounceAll(s.cache, configured, settings.cacheHitThreshold, dist);
    var found := Found(batch.markers, ratios, frame, dist);
    SyncSteps(s, ms, frame, ratios, settings, dist);
    SyncSteps(first, ms, frame, ratios, settings, dist);
    assert first.cache == batch.cache;
    MergePruneIdempotent(s.turrets, found, frame, settings.preserveWallsFrames);
  }

  /**
   A sync without readings, at a frame no later than the last sync, leaves the
   registry and the cache exactly as that sync left them.
   */
  lemma ResyncWithoutMarkers(s: TurretState, ms: seq<Marker>, frame: int, later: int, ratios: Ratios,
                             settings: Settings, dist: Distance)
    requires StateInvariant(s) && RatiosUsable(ratios)
    requires later <= frame
    ensures var first := SyncTurrets(s, ms, frame, ratios, settings, dist);
            SyncTurrets(first, [], later, ratios, settings, dist) == first
  {
    var first := SyncTurrets(s, ms, frame, ratios, settings, dist);
    var again := SyncTurrets(first, [], later, ratios, settings, dist);
    assert again.turrets == first.turrets;
  }

  /** Scaling every side of a marker by `k` scales the placement's diameter by `k`. */
  lemma DiameterLinear(m: Marker, m': Marker, ratio: Ratio, frame: int, dist: Distance, k: real)
    requires ratio.codeWidth != 0.0
    requires forall c :: 0 <= c < 4 ==> Side(m', c, dist) == k * Side(m, c, dist)
    ensures Place(m', ratio, frame, dist).diameter == k * Place(m, ratio, frame, dist).diameter
  {
    assert MarkUnit(m', dist) == k * MarkUnit(m, dist) by {
      assert Side(m', 0, dist) == k * Side(m, 0, dist);
      assert Side(m', 1, dist) == k * Side(m, 1, dist);
      assert Side(m', 2, dist) == k * Side(m, 2, dist);
      assert Side(m', 3, dist) == k * Side(m, 3, dist);
    }
    var scale := ratio.diameter / ratio.codeWidth;
    assert scale * (k * MarkUnit(m, dist)) == k * (scale * MarkUnit(m, dist));
  }

  lemma DefaultRatiosUsable()
    ensures RatiosUsable(DefaultRatios)
    ensures forall id :: id in DefaultRatios ==> DefaultRatios[id].id == id
  {
  }

  /**
   Worked example: marker 40 at angle 0, seen for the first time, whose four
   sides each measure 10, becomes a gatling placement of diameter 16 turned
   back by a quarter turn.
   */
  lemma GatlingScenario(frame: int, settings: Settings, dist: Distance)
    requires settings.preserveWallsFrames > 0
    requires dist(Point(0.0, 0.0), Point(10.0, 0.0)) == 10.0
    requires dist(Point(10.0, 0.0), Point(10.0, 10.0)) == 10.0
    requires dist(Point(10.0, 10.0), Point(0.0, 10.0)) == 10.0
    requires dist(Point(0.0, 10.0), Point(0.0, 0.0)) == 10.0
    ensures var m := Marker(40, [Point(0.0, 0.0), Point(10.0, 0.0), Point(10.0, 10.0), Point(0.0, 10.0)],
                            Point(5.0, 5.0), 0.0);
            var r := SyncTurrets(Initial, [m], frame, DefaultRatios, settings, dist);
            && 40 in r.turrets
            && r.turrets[40].diameter == 16.0
            && r.turrets[40].angle == -HalfPi
            && r.turrets[40].kind == Gatling
            && r.turrets[40].timestamp == frame
  {
    var m := Marker(40, [Point(0.0, 0.0), Point(10.0, 0.0), Point(10.0, 10.0), Point(0.0, 10.0)],
                    Point(5.0, 5.0), 0.0);
    DefaultRatiosUsable();
    assert DistinctIds([m]);
    SyncPlacementFields(Initial, [m], frame, DefaultRatios, settings, dist, 0);
    assert Side(m, 0, dist) == 10.0 && Side(m, 1, dist) == 10.0;
    assert Side(m, 2, dist) == 10.0 && Side(m, 3, dist) == 10.0;
    assert MarkUnit(m, dist) == 10.0;
  }

  /**
   Worked example: with a grace period of 5 frames, a placement stamped at
   frame 100 whose marker is no longer read is still there at frame 104 and
   gone at frame 105.
   */
  lemma GracePeriodScenario(p: Placement, ratios: Ratios, threshold: real, dist: Distance)
    requires p.timestamp == 100 && RatiosUsable(ratios)
    ensures var s := TurretState(map[], map[p.id := p]);
            var settings := Settings(threshold, 5);
            && p.id in SyncTurrets(s, [], 104, ratios, settings, dist).turrets
            && p.id !in SyncTurrets(s, [], 105, ratios, settings, dist).turrets
  {
  }

  /** One sampling tick: the frame counter and the readings of that frame. */
  datatype Tick = Tick(frame: int, markers: seq<Marker>)

  /** Syncs the registry with a series of ticks, in order. */
  function Run(s: TurretState, ticks: seq<Tick>, ratios: Ratios, settings: Settings, dist: Distance): (r: TurretState)
    requires StateInvariant(s) && RatiosUsable(ratios)
    ensures StateInvariant(r)
    decreases |ticks|
  {
    if |ticks| == 0 then s
    else Run(SyncTurrets(s, ticks[0].markers, ticks[0].frame, ratios, settings, dist), ticks[1..], ratios, settings, dist)
  }

  /** No tick of the series reads the identifier with a ratio configuration. */
  predicate NeverSeen(ticks: seq<Tick>, ratios: Ratios, id: int)
  {
    forall k :: 0 <= k < |ticks| ==> !SeenConfigured(ticks[k].markers, ratios, id)
  }

  /** An identifier that is absent and never read stays absent. */
  lemma {:induction false} UnseenStaysAbsent(s: TurretState, ticks: seq<Tick>, ratios: Ratios,
                                             settings: Settings, dist: Distance, id: int)
    requires StateInvariant(s) && RatiosUsable(ratios)
    requires id !in s.turrets && NeverSeen(ticks, ratios, id)
    ensures id !in Run(s, ticks, ratios, settings, dist).turrets
    decreases |ticks|
  {
    if |ticks| > 0 {
      var next := SyncTurrets(s, ticks[0].markers, ticks[0].frame, ratios, settings, dist);
      assert NeverSeen(ticks[1..], ratios, id) by {
        forall k | 0 <= k < |ticks[1..]| ensures !SeenConfigured(ticks[1..][k].markers, ratios, id) {
          assert ticks[1..][k] == ticks[k + 1];
        }
      }
      UnseenStaysAbsent(next, ticks[1..], ratios, settings, dist, id);
    }
  }

  /**
   The prune window over time: a placement stamped at frame T whose marker is
   not read again survives a series of syncs exactly when every one of them
   ran fewer than the grace period frames after T, and it survives unchanged.
   */
  lemma {:induction false} UnseenEntryExpires(s: TurretState, ticks: seq<Tick>, ratios: Ratios,
                                              settings: Settings, dist: Distance, id: int)
    requires StateInvariant(s) && RatiosUsable(ratios)
    requires id in s.turrets && NeverSeen(ticks, ratios, id)
    ensures var r := Run(s, ticks, ratios, settings, dist);
            (id in r.turrets <==> forall k :: 0 <= k < |ticks| ==>
                                    ticks[k].frame - s.turrets[id].timestamp < settings.preserveWallsFrames)
            && (id in r.turrets ==> r.turrets[id] == s.turrets[id])
    decreases |ticks|
  {
    if |ticks| > 0 {
      var next := SyncTurrets(s, ticks[0].markers, ticks[0].frame, ratios, settings, dist);
      assert NeverSeen(ticks[1..], ratios, id) by {
        forall k | 0 <= k < |ticks[1..]| ensures !SeenConfigured(ticks[1..][k].markers, ratios, id) {
          assert ticks[1..][k] == ticks[k + 1];
        }
      }
      assert !SeenConfigured(ticks[0].markers, ratios, id);
      if id in next.turrets {
        UnseenEntryExpires(next, ticks[1..], ratios, settings, dist, id);
        assert forall k :: 1 <= k < |ticks| ==> ticks[k] == ticks[1..][k - 1];
      } else {
        UnseenStaysAbsent(next, ticks[1..], ratios, settings, dist, id);
      }
    }
  }

  /** The least of a non-empty finite set of identifiers, found by removing one element at a time. */
  lemma {:induction false} LeastOf(ids: set<int>) returns (k: int)
    requires ids != {}
    ensures k in ids && forall j :: j in ids ==> k <= j
    decreases |ids|
  {
    if forall x :: x !in ids {
      // a set with no element is the empty set
      assert false;
    }
    var x :| x in ids;
    if ids == {x} {
      k := x;
    } else {
      var rest := ids - {x};
      var least := LeastOf(rest);
      k := if x < least then x else least;
      forall j | j in ids ensures k <= j {
        if j != x { assert j in rest; }
      }
    }
  }

  lemma LeastExists(ids: set<int>)
    requires ids != {}
    ensures exists k :: k in ids && forall j :: j in ids ==> k <= j
  {
    var k := LeastOf(ids);
  }

  function Least(ids: set<int>): (k: int)
    requires ids != {}
    ensures k in ids && forall j :: j in ids ==> k <= j
  {
    LeastExists(ids);
    var k :| k in ids && forall j :: j in ids ==> k <= j;
    k
  }

  /** The identifiers in ascending order, the order in which the registry's values are listed. */
  function AscendingIds(ids: set<int>): (r: seq<int>)
    ensures |r| == |ids|
    ensures forall id :: id in r <==> id in ids
    ensures forall i, j :: 0 <= i < j < |r| ==> r[i] < r[j]
    decreases |ids|
  {
    if ids == {} then []
    else
      var k := Least(ids);
      var rest := AscendingIds(ids - {k});
      assert forall i :: 0 <= i < |rest| ==> k < rest[i] by {
        forall i | 0 <= i < |rest| ensures k < rest[i] { assert rest[i] in ids - {k}; }
      }
      [k] + rest
  }

  /** The registry's placements, listed by ascending identifier. */
  function GetTurrets(reg: Registry): (ps: seq<Placement>)
    requires Keyed(reg)
    ensures |ps| == |reg|
    ensures forall p :: p in ps <==> p in reg.Values
    ensures forall i, j :: 0 <= i < j < |ps| ==> ps[i].id < ps[j].id
  {
    var ids := AscendingIds(reg.Keys);
    var ps := seq(|ids|, i requires 0 <= i < |ids| => reg[ids[i]]);
    assert forall p :: p in reg.Values ==> p in ps by {
      forall p | p in reg.Values ensures p in ps {
        var id :| id in reg && reg[id] == p;
        var i :| 0 <= i < |ids| && ids[i] == id;
        assert ps[i] == p;
      }
    }
    ps
  }
}
