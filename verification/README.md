# Turret reconciliation for an augmented-reality tower-defense game

The game scans a camera feed for fiducial markers and turns the readings of
each sampled frame into turret placements drawn over the video, plus one
long-lived tower object per turret. This project models that reconciliation
step of `src/turrets.ts` as pure functions over explicit state:

- **Marker debouncer** (`MarkerCache`): `checkCache` is a per-identifier latch.
  A reading replaces the latched marker only if its center moved, or its angle
  turned, by more than the cache-hit threshold; otherwise the latched marker is
  handed out again. A frame's readings are debounced in order, each lookup
  seeing the cache the previous one left (`DebounceAll`).
- **Placement synchronizer** (`Turrets`): `syncTurrets` keeps the readings
  whose identifier has a ratio configuration, debounces them, scales each into
  a placement (diameter = configured diameter / configured marker width × mean
  side length; angle = reading angle − rotation offset; the configured turret
  kind), stamps it with the frame counter, merges the new placements over the
  previous registry and drops those refreshed `preserveWallsFrames` or more
  frames ago. `getTurrets` lists the registry's placements.
- **Tower registry** (`Towers`): `syncTurretObj` walks that listing, creating
  a tower of the placement's kind on the first sighting of an identifier and
  forwarding the placement to the existing tower otherwise. Towers are never
  removed.

The module-level globals of the source (`markerCache`, `turrets`,
`activeTurrets`, `ratios`, `frameCount`, `settings`) are explicit: the cache and
registry form a `TurretState`, the tower registry is an `Active` map, and the
ratio table, frame counter, settings and the distance function are parameters.
Coordinates and angles are `real`. The Euclidean distance needs a square root,
so it is a parameter `dist`; lemmas that need it to behave like a distance
(non-negative, zero from a point to itself, symmetric) require `IsMetric(dist)`.

The registry invariant `Keyed` (every placement stored under its own
identifier) and the cache invariant `CacheKeyed` hold of the empty initial
state and are preserved by every sync. Under `Keyed`, the re-keying by
`turret.id` at the end of `syncTurrets` is the identity, so the model prunes by
restricting the merged map.

The marker cache only receives readings whose identifier has a ratio
configuration, because the filter runs before the debouncer
(`src/turrets.ts:25-27`); it is not a cache of every identifier ever read.

## Model

| member | source | states |
|---|---|---|
| MarkerCache.CheckCache | src/turrets.ts:54-76 | First sighting stores and returns the reading; a move or turn beyond the threshold overwrites the latch and returns the reading; otherwise the latched reading comes back and the cache is unchanged. Afterwards the cache holds exactly the returned reading under the identifier, no other entry is added, removed or changed, and entries stay stored under their own identifier |
| MarkerCache.CheckCacheLocal | src/turrets.ts:55-56 | A lookup depends only on the cache entry of the reading's own identifier |
| MarkerCache.NotMovedFromItself | src/turrets.ts:60-62 | With a non-negative threshold and a distance that is zero from a point to itself, a reading is never judged to have moved away from itself |
| MarkerCache.DebounceAll | src/turrets.ts:27 | Debouncing a frame keeps the length and each reading's identifier, hands back each reading or a latched reading it did not move away from, adds exactly the frame's identifiers to the cache and leaves every other entry alone |
| MarkerCache.DebounceFirstOfId | src/turrets.ts:27 | The first reading of an identifier in a frame is judged against the cache as it was before the frame |
| MarkerCache.DebounceLastOfId | src/turrets.ts:27 | After a frame, the cache latches what was handed out for the last reading of each identifier |
| MarkerCache.LatchedBatchIsNoOp | src/turrets.ts:60-70 | Readings that each equal, or stay within the threshold of, their latched marker get the latched markers back and leave the cache untouched: jitter never drifts the latch |
| MarkerCache.DebounceAllIdempotent | src/turrets.ts:54-76 | Debouncing the same frame of readings (one per identifier) a second time returns the same readings and the same cache |
| MarkerCache.JitterReturnsLatched | src/turrets.ts:60-70 | Once a reading is latched, a later reading of the same identifier within the threshold, and the latched reading itself, both get the latched reading back with the cache unchanged |
| Turrets.Configured | src/turrets.ts:25-26 | The kept readings are exactly those whose identifier has a ratio configuration, and one reading per identifier stays so |
| Turrets.Found | src/turrets.ts:28-47 | The frame's placements are keyed by exactly the debounced readings' identifiers, each stored under its own identifier, stamped with the current frame, of its configured kind |
| Turrets.FoundLastWins | src/turrets.ts:47 | When an identifier is read twice in a frame, its placement is the one built from its last reading |
| Turrets.FoundPlacesDebounced | src/turrets.ts:27-47 | With one reading per identifier, a configured reading's placement is built from exactly what the debouncer returns for it against the cache before the frame |
| Turrets.SyncTurrets | src/turrets.ts:21-52 | After a sync: every placement is younger than the grace period; only configured identifiers read this frame enter; those hold a placement stamped with the frame and of their configured kind (present iff the grace period is positive); identifiers not read keep their placement unchanged iff it is still inside the window; the cache gains exactly the configured identifiers read; both invariants are kept |
| Turrets.SyncPlacementFields | src/turrets.ts:28-47 | A configured reading's placement keeps the debounced reading's corners and center, has its angle less the rotation offset, the configured kind, the current frame, and diameter = configured diameter / marker width × mean side length |
| Turrets.DiameterLinear | src/turrets.ts:31-37 | Scaling all four side lengths by k scales the placement's diameter by k |
| Turrets.DefaultRatiosUsable | src/turrets.ts:11-14 | The shipped ratio table has a non-zero marker width for every identifier and stores each configuration under its own identifier |
| Turrets.GatlingScenario | src/turrets.ts:28-46 | Marker 40 at angle 0 with four sides of length 10 becomes a gatling placement of diameter 16 at angle −π/2 |
| Turrets.MergePruneIdempotent | src/turrets.ts:49-51 | Merging the same found placements again and pruning at the same frame changes nothing |
| Turrets.SyncSameFrameIdempotent | src/turrets.ts:21-52 | Two syncs in the same frame with the same readings (one per identifier) leave the registry and cache exactly as the first left them |
| Turrets.ResyncWithoutMarkers | src/turrets.ts:49-51 | A sync without readings at a frame no later than the previous sync leaves the state unchanged |
| Turrets.GracePeriodScenario | src/turrets.ts:49-51 | With a grace period of 5, a placement stamped at 100 and not read again is present at frame 104 and gone at frame 105 |
| Turrets.Run | src/turrets.ts:21-52 | A series of syncs keeps both state invariants |
| Turrets.UnseenStaysAbsent | src/turrets.ts:49-51 | An identifier absent from the registry and never read with a configuration stays absent through any series of syncs |
| Turrets.UnseenEntryExpires | src/turrets.ts:49-51 | A placement stamped at T whose marker is not read again survives a series of syncs iff every sync ran fewer than the grace period frames after T, and survives unchanged |
| Turrets.AscendingIds | src/turrets.ts:18-19 | The identifiers are listed once each, all of them, in strictly ascending order |
| Turrets.GetTurrets | src/turrets.ts:18-19 | The listing holds exactly the registry's placements, one per identifier, by ascending identifier |
| Towers.Reconcile | src/turrets.ts:81-98 | Walking a listing only ever adds towers, exactly one per listed identifier not already active |
| Towers.ReconcileForwards | src/turrets.ts:94-97 | An active tower receives every listed placement of its identifier, in listing order, and keeps its kind and origin |
| Towers.ReconcileCreates | src/turrets.ts:82-93 | A new identifier gets a tower of the kind of its first listed placement, created from it, which receives the later ones |
| Towers.WithIdDistinct | src/turrets.ts:81 | In a listing with one placement per identifier, each identifier's placements are exactly that one placement |
| Towers.SyncTurretObj | src/turrets.ts:78-99 | The towers after a pass are exactly the ones before plus one per registry identifier; none is removed |
| Towers.SyncTurretObjCreates | src/turrets.ts:82-93 | A registry identifier without a tower gets a fresh tower of its placement's kind, created from that placement, with nothing forwarded yet |
| Towers.SyncTurretObjForwards | src/turrets.ts:94-97 | A registry identifier with a tower forwards its placement to it, once |
| Towers.SyncTurretObjKeepsUnlisted | src/turrets.ts:78-99 | A tower whose identifier is no longer in the registry is left as it was |

## Left out

- The marker detector (`getMarkers`) is an external library; its output is the `ms` sequence given to each sync.
- `src/main.ts` (canvas and video setup, drawing, the frame-rate driver, sampling every `sampleMarkersDelay` frames and the fire-and-forget promise around the sync) is rendering and scheduling glue; a sync is modelled as one atomic step.
- The walls synchronizer is not part of this model.
- Floating point: all arithmetic is on exact reals; `HalfPi` is 1.5707963267948966, the decimal JavaScript prints for `Math.PI / 2`; as an exact real it differs from that double by about 4e-17.
- The square root behind `dist` is not modelled; the distance is a parameter, constrained by `IsMetric` where a lemma needs it.
- The tower classes (`GatlingTower`, `SprayTower`, `TurretParent`), `updateFromPlacement` and `update` are not visible; a tower records only its kind, the placement it was created from and the placements forwarded to it. The constructor arguments, including `center.y` passed twice, are not modelled.
- `updateTurretObj` only delegates to the unseen `update` and is not modelled.
- The constant `type: 'turret'` field of a placement carries no information and is dropped.
- Markers always have four corners (the `Corners` type); the detector never yields fewer, and the source does not check it.
- Turret kinds other than gatling and spray cannot occur: the ratio table only names these two, so the switch's fall-through is not modelled.
- Turrets.SyncTurrets: requires every configured marker width to be non-zero (`RatiosUsable`); with a zero width the source would compute an infinite or NaN diameter, which exact reals cannot represent.
- Turrets.GetTurrets: lists placements by ascending identifier for every integer identifier; a JavaScript object lists only non-negative integer keys in that order and any others in insertion order, which marker identifiers never need.
- Turrets.SyncPlacementFields: stated for frames with one reading per identifier, as the detector delivers; with repeated identifiers the last reading wins (`FoundLastWins`).
- Turrets.SyncSameFrameIdempotent: stated for one reading per identifier.
- Turrets.Configured: states which readings are kept, not that they keep their detector order; the order only matters when an identifier is read twice in one frame.
