/**
 The behaviour-object registry: one long-lived tower per turret identifier.

 A tower is created the first time its identifier's placement is listed, with
 the kind its configuration names; every later listing forwards the placement
 to it. Towers are never removed. What a tower does with a forwarded placement,
 and the arguments its constructor receives, are not part of this model: a
 tower records the placement it was created from and the placements forwarded
 to it since.
 */
module Towers {
  import opened Turrets

  datatype Tower = Tower(kind: TurretKind, origin: Placement, forwarded: seq<Placement>)

  /** The active towers, by turret identifier. */
  type Active = map<int, Tower>

  /** The placements of a listing that carry the identifier `id`, in listing order. */
  function WithId(ps: seq<Placement>, id: int): seq<Placement>
  {
    if |ps| == 0 then []
    else (if ps[0].id == id then [ps[0]] else []) + WithId(ps[1..], id)
  }

  /** The identifiers a listing carries. */
  function ListedIds(ps: seq<Placement>): set<int>
  {
    set i | 0 <= i < |ps| :: ps[i].id
  }

  /** The tower registry after one listing's placement: create on first sighting, else forward. */
  function Visit(active: Active, p: Placement): Active
  {
    if p.id !in active then
      active[p.id := Tower(p.kind, p, [])]
    else
      active[p.id := active[p.id].(forwarded := active[p.id].forwarded + [p])]
  }

  lemma ListedIdsCons(ps: seq<Placement>)
    requires |ps| > 0
    ensures ListedIds(ps) == {ps[0].id} + ListedIds(ps[1..])
  {
    forall id | id in ListedIds(ps) ensures id in {ps[0].id} + ListedIds(ps[1..]) {
      var i :| 0 <= i < |ps| && ps[i].id == id;
      if i > 0 { assert ps[1..][i - 1].id == id; }
    }
  }

  /**
   Creates or updates the towers of a listing of placements, in listing
   order. The towers are exactly the ones before plus one per listed
   identifier: nothing is ever removed.
   */
  function Reconcile(active: Active, ps: seq<Placement>): (r: Active)
    ensures r.Keys == active.Keys + ListedIds(ps)
    decreases |ps|
  {
    if |ps| == 0 then active
    else
      ListedIdsCons(ps);
      Reconcile(Visit(active, ps[0]), ps[1..])
  }

  /** A tower already active receives every listed placement of its identifier, in order. */
  lemma {:induction false} ReconcileForwards(active: Active, ps: seq<Placement>, id: int)
    requires id in active
    ensures var r := Reconcile(active, ps);
            id in r && r[id] == active[id].(forwarded := active[id].forwarded + WithId(ps, id))
    decreases |ps|
  {
    if |ps| == 0 {
      assert active[id].forwarded + [] == active[id].forwarded;
    } else {
      var next := Visit(active, ps[0]);
      ReconcileForwards(next, ps[1..], id);
      if ps[0].id == id {
        assert active[id].forwarded + [ps[0]] + WithId(ps[1..], id)
            == active[id].forwarded + WithId(ps, id);
      }
    }
  }

  /**
   A new listed identifier gets a tower of the kind of its first listed
   placement, created from that placement, which receives the later ones.
   */
  lemma {:induction false} ReconcileCreates(active: Active, ps: seq<Placement>, id: int)
    requires id !in active && id in ListedIds(ps)
    ensures var r := Reconcile(active, ps);
            var listed := WithId(ps, id);
            |listed| > 0 && id in r && r[id] == Tower(listed[0].kind, listed[0], listed[1..])
    decreases |ps|
  {
    ListedIdsCons(ps);
    var next := Visit(active, ps[0]);
    if ps[0].id == id {
      ReconcileForwards(next, ps[1..], id);
      assert WithId(ps, id) == [ps[0]] + WithId(ps[1..], id);
    } else {
      ReconcileCreates(next, ps[1..], id);
    }
  }

  /** In a listing whose identifiers are distinct, an identifier is listed at most once. */
  lemma {:induction false} WithIdDistinct(ps: seq<Placement>, id: int)
    requires forall i, j :: 0 <= i < j < |ps| ==> ps[i].id != ps[j].id
    ensures forall i :: 0 <= i < |ps| && ps[i].id == id ==> WithId(ps, id) == [ps[i]]
    ensures id !in ListedIds(ps) ==> WithId(ps, id) == []
    decreases |ps|
  {
    if |ps| > 0 {
      WithIdDistinct(ps[1..], id);
      if ps[0].id == id {
        assert id !in ListedIds(ps[1..]);
      } else {
        forall i | 1 <= i < |ps| && ps[i].id == id ensures WithId(ps, id) == [ps[i]] {
          assert ps[1..][i - 1] == ps[i];
        }
        assert id !in ListedIds(ps) ==> id !in ListedIds(ps[1..]) by {
          forall k | 0 <= k < |ps[1..]| ensures ps[1..][k].id in ListedIds(ps) {
            assert ps[1..][k] == ps[k + 1];
          }
        }
      }
    }
  }

  /**
   One pass of the tower registry over the turret registry, visiting its
   placements in listing order. No tower is ever removed, and the only towers
   added are those of listed identifiers.
   */
  function SyncTurretObj(active: Active, reg: Registry): (r: Active)
    requires Keyed(reg)
    ensures r.Keys == active.Keys + reg.Keys
  {
    var ps := GetTurrets(reg);
    ListedAll(reg);
    Reconcile(active, ps)
  }

  /** The listing of a registry carries exactly the registry's identifiers. */
  lemma ListedAll(reg: Registry)
    requires Keyed(reg)
    ensures ListedIds(GetTurrets(reg)) == reg.Keys
  {
    var ps := GetTurrets(reg);
    forall id | id in reg ensures id in ListedIds(ps) {
      assert reg[id] in ps;
    }
  }

  /** The listing of a registry carries each identifier's placement exactly once. */
  lemma ListedOnce(reg: Registry, id: int)
    requires Keyed(reg)
    ensures id in reg ==> WithId(GetTurrets(reg), id) == [reg[id]]
    ensures id !in reg ==> WithId(GetTurrets(reg), id) == []
  {
    var ps := GetTurrets(reg);
    ListedAll(reg);
    WithIdDistinct(ps, id);
    if id in reg {
      assert reg[id] in ps;
    }
  }

  /** Create: a listed identifier that has no tower gets a fresh one of its placement's kind. */
  lemma SyncTurretObjCreates(active: Active, reg: Registry, id: int)
    requires Keyed(reg)
    requires id in reg && id !in active
    ensures SyncTurretObj(active, reg)[id] == Tower(reg[id].kind, reg[id], [])
  {
    ListedAll(reg);
    ListedOnce(reg, id);
    ReconcileCreates(active, GetTurrets(reg), id);
  }

  /** Update: a listed identifier that has a tower forwards its placement to it. */
  lemma SyncTurretObjForwards(active: Active, reg: Registry, id: int)
    requires Keyed(reg)
    requires id in reg && id in active
    ensures SyncTurretObj(active, reg)[id] == active[id].(forwarded := active[id].forwarded + [reg[id]])
  {
    ListedOnce(reg, id);
    ReconcileForwards(active, GetTurrets(reg), id);
  }

  /** A tower whose identifier is not listed is left untouched. */
  lemma SyncTurretObjKeepsUnlisted(active: Active, reg: Registry, id: int)
    requires Keyed(reg)
    requires id in active && id !in reg
    ensures SyncTurretObj(active, reg)[id] == active[id]
  {
    ListedOnce(reg, id);
    ReconcileForwards(active, GetTurrets(reg), id);
    assert active[id].forwarded + [] == active[id].forwarded;
  }
}
