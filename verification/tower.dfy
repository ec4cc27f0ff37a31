/** Towers: the targeting and fire-control state machine. A tower charges its
    timer every tick, keeps its target while that enemy is alive and in range,
    otherwise picks the nearest enemy in range, and fires whenever it has a
    target and its timer has reached the cooldown. */
module Towers {
  import opened Geometry
  import opened Stats
  import opened Collections
  import opened Enemies
  import opened Projectiles

  /** Variant, position, ticks since the last shot, and current target. */
  datatype Tower = Tower(kind: TowerKind, pos: Point, timer: nat, target: Option<Id>)
  {
    function Range(): real { TowerStatsOf(kind).range }
    function Cooldown(): nat { TowerStatsOf(kind).cooldown }
    function Cost(): nat { TowerStatsOf(kind).cost }
  }

  /** A tower as placed: no target, and its timer already at the cooldown so
      that it can fire at once. */
  function Placed(kind: TowerKind, at: Point): (tw: Tower)
    ensures tw.kind == kind && tw.pos == at && tw.target == None
    ensures tw.timer == tw.Cooldown()
  {
    Tower(kind, at, TowerStatsOf(kind).cooldown, None)
  }

  /** The enemy `id` is within `range` of `at`. An id with no table entry is
      never seen (in a well-formed world every id has one). */
  predicate Sees(at: Point, range: real, t: Table, id: Id)
  {
    id in t && Within(t[id].pos, at, range)
  }

  /** Squared distance of a seen enemy from `at`. */
  function Gap(at: Point, t: Table, id: Id): real
    requires id in t
  {
    DistSq(t[id].pos, at)
  }

  /** The scan for the nearest enemy in range: the index of an enemy in range
      at minimal distance, the first such in list order, or None when no
      enemy is in range. */
  function NearestIndex(at: Point, range: real, ids: seq<Id>, t: Table): (r: Option<nat>)
    ensures r.None? <==> forall k :: 0 <= k < |ids| ==> !Sees(at, range, t, ids[k])
    ensures r.Some? ==> r.value < |ids| && Sees(at, range, t, ids[r.value])
    ensures r.Some? ==> forall k :: 0 <= k < |ids| && Sees(at, range, t, ids[k]) ==>
              Gap(at, t, ids[r.value]) <= Gap(at, t, ids[k])
    ensures r.Some? ==> forall k :: 0 <= k < r.value && Sees(at, range, t, ids[k]) ==>
              Gap(at, t, ids[r.value]) < Gap(at, t, ids[k])
    decreases |ids|
  {
    if ids == [] then None
    else
      var n := |ids| - 1;
      var best := NearestIndex(at, range, ids[..n], t);
      if Sees(at, range, t, ids[n]) && (best.None? || Gap(at, t, ids[n]) < Gap(at, t, ids[best.value]))
      then Some(n)
      else best
  }

  /** The nearest enemy of the list within `range` of `at`, if any. */
  function FindTarget(at: Point, range: real, ids: seq<Id>, t: Table): (r: Option<Id>)
    ensures r.None? <==> forall k :: 0 <= k < |ids| ==> !Sees(at, range, t, ids[k])
    ensures r.Some? ==> r.value in ids && Sees(at, range, t, r.value)
    ensures r.Some? ==> forall k :: 0 <= k < |ids| && Sees(at, range, t, ids[k]) ==>
              Gap(at, t, r.value) <= Gap(at, t, ids[k])
  {
    match NearestIndex(at, range, ids, t)
    case None => None
    case Some(k) => Some(ids[k])
  }

  /** The tower's current target is still worth shooting at: it exists, is
      not flagged for deletion and is within range. */
  predicate Holds(tw: Tower, t: Table)
  {
    tw.target.Some? && tw.target.value in t && !t[tw.target.value].marked
    && Within(t[tw.target.value].pos, tw.pos, tw.Range())
  }

  datatype TowerStep = TowerStep(tower: Tower, shot: Option<Projectile>)

  /** One tick of a tower against the live enemy list `ids`. */
  function TowerUpdate(tw: Tower, ids: seq<Id>, t: Table): (r: TowerStep)
    ensures r.tower.kind == tw.kind && r.tower.pos == tw.pos
    ensures Holds(tw, t) ==> r.tower.target == tw.target
    ensures !Holds(tw, t) ==> r.tower.target == FindTarget(tw.pos, tw.Range(), ids, t)
    ensures r.tower.target.Some? ==> r.tower.target.value in t
    ensures r.shot.Some? <==> r.tower.target.Some? && tw.timer + 1 >= tw.Cooldown()
    ensures r.shot.Some? ==>
              r.tower.timer == 0
              && r.shot.value == Shot(tw.pos, r.tower.target.value, TowerStatsOf(tw.kind).shot)
    ensures r.shot.None? ==> r.tower.timer == tw.timer + 1
  {
    var timer := tw.timer + 1;
    var target := if Holds(tw, t) then tw.target else FindTarget(tw.pos, tw.Range(), ids, t);
    if target.Some? && timer >= tw.Cooldown() then
      TowerStep(Tower(tw.kind, tw.pos, 0, target),
                Some(Shot(tw.pos, target.value, TowerStatsOf(tw.kind).shot)))
    else
      TowerStep(Tower(tw.kind, tw.pos, timer, target), None)
  }

  /** What the tower phase of a tick produces: the updated towers, and the
      projectiles they fired in tower order. */
  datatype Volley = Volley(towers: seq<Tower>, shots: seq<Projectile>)

  /** Updates every tower in list order against the same enemies. */
  function TowersPhase(ts: seq<Tower>, ids: seq<Id>, t: Table): (r: Volley)
    ensures |r.towers| == |ts| && |r.shots| <= |ts|
    ensures forall k :: 0 <= k < |ts| ==> r.towers[k] == TowerUpdate(ts[k], ids, t).tower
    ensures forall k :: 0 <= k < |ts| ==> r.towers[k].target.Some? ==> r.towers[k].target.value in t
    ensures forall k :: 0 <= k < |ts| ==> r.towers[k].pos == ts[k].pos && r.towers[k].kind == ts[k].kind
    ensures forall j :: 0 <= j < |r.shots| ==>
              r.shots[j].target in t && r.shots[j].trail == [] && !r.shots[j].marked
    decreases |ts|
  {
    if ts == [] then Volley([], [])
    else
      var n := |ts| - 1;
      var v := TowersPhase(ts[..n], ids, t);
      var s := TowerUpdate(ts[n], ids, t);
      Volley(v.towers + [s.tower], v.shots + (if s.shot.Some? then [s.shot.value] else []))
  }

  /** The projectile a tower update adds to the list: one if it fired. */
  function Fired(s: TowerStep): (ps: seq<Projectile>)
    ensures |ps| <= 1 && (ps == [] <==> s.shot.None?)
  {
    if s.shot.Some? then [s.shot.value] else []
  }

  /** The shots of a list of towers, read front to back: each tower's shot,
      if it fired, in tower order. */
  function Shots(ts: seq<Tower>, ids: seq<Id>, t: Table): seq<Projectile>
    decreases |ts|
  {
    if ts == [] then [] else Fired(TowerUpdate(ts[0], ids, t)) + Shots(ts[1..], ids, t)
  }

  /** The shots of two groups of towers are the first group's followed by
      the second's. */
  lemma {:induction false} ShotsSplit(a: seq<Tower>, b: seq<Tower>, ids: seq<Id>, t: Table)
    decreases |a|
    ensures Shots(a + b, ids, t) == Shots(a, ids, t) + Shots(b, ids, t)
  {
    if a == [] {
      assert a + b == b;
    } else {
      ShotsSplit(a[1..], b, ids, t);
      assert (a + b)[0] == a[0] && (a + b)[1..] == a[1..] + b;
      var f := Fired(TowerUpdate(a[0], ids, t));
      assert Shots(a + b, ids, t) == f + Shots(a[1..] + b, ids, t);
      assert Shots(a, ids, t) == f + Shots(a[1..], ids, t);
      assert f + (Shots(a[1..], ids, t) + Shots(b, ids, t))
             == (f + Shots(a[1..], ids, t)) + Shots(b, ids, t);
    }
  }

  lemma ShotsSnoc(ts: seq<Tower>, ids: seq<Id>, t: Table)
    requires ts != []
    ensures Shots(ts, ids, t) == Shots(ts[..|ts| - 1], ids, t) + Fired(TowerUpdate(ts[|ts| - 1], ids, t))
  {
    var n := |ts| - 1;
    assert ts == ts[..n] + [ts[n]];
    ShotsSplit(ts[..n], [ts[n]], ids, t);
    assert Shots([ts[n]], ids, t) == Fired(TowerUpdate(ts[n], ids, t)) + Shots([], ids, t);
  }

  /** The tower phase fires exactly the shots of its towers, in tower order. */
  lemma {:induction false} TowersPhaseShots(ts: seq<Tower>, ids: seq<Id>, t: Table)
    decreases |ts|
    ensures TowersPhase(ts, ids, t).shots == Shots(ts, ids, t)
  {
    if ts != [] {
      TowersPhaseShots(ts[..|ts| - 1], ids, t);
      ShotsSnoc(ts, ids, t);
    }
  }

  /** Every tower adds exactly its own shot, if it fired, after the shots of
      the towers before it and before those of the towers after it. */
  lemma ShotsInTowerOrder(ts: seq<Tower>, ids: seq<Id>, t: Table, k: nat)
    requires k < |ts|
    ensures Shots(ts, ids, t)
            == Shots(ts[..k], ids, t) + Fired(TowerUpdate(ts[k], ids, t)) + Shots(ts[k + 1..], ids, t)
  {
    assert ts == ts[..k] + ts[k..];
    ShotsSplit(ts[..k], ts[k..], ids, t);
    assert ts[k..][0] == ts[k] && ts[k..][1..] == ts[k + 1..];
  }

  /** The enemies a tower sees on one tick. */
  datatype Scene = Scene(ids: seq<Id>, table: Table)

  /** The tower after one update per scene. */
  function Replay(tw: Tower, scenes: seq<Scene>): Tower
    decreases |scenes|
  {
    if scenes == [] then tw
    else Replay(TowerUpdate(tw, scenes[0].ids, scenes[0].table).tower, scenes[1..])
  }

  /** The tower fires on none of these updates. */
  predicate Quiet(tw: Tower, scenes: seq<Scene>)
    decreases |scenes|
  {
    scenes == [] ||
    (var s := TowerUpdate(tw, scenes[0].ids, scenes[0].table);
     s.shot.None? && Quiet(s.tower, scenes[1..]))
  }

  /** While a tower does not fire its timer counts the updates, and it keeps
      its variant and position. */
  lemma {:induction false} QuietCharges(tw: Tower, scenes: seq<Scene>)
    requires Quiet(tw, scenes)
    decreases |scenes|
    ensures Replay(tw, scenes).timer == tw.timer + |scenes|
    ensures Replay(tw, scenes).kind == tw.kind && Replay(tw, scenes).pos == tw.pos
  {
    if scenes != [] {
      var s := TowerUpdate(tw, scenes[0].ids, scenes[0].table);
      QuietCharges(s.tower, scenes[1..]);
    }
  }

  /** Two shots of a tower are at least `cooldown` updates apart: after a
      shot (timer 0) and `|scenes|` quiet updates, the next update can fire
      only if it is the `cooldown`-th or later. */
  lemma FireSpacing(tw: Tower, scenes: seq<Scene>, next: Scene)
    requires tw.timer == 0 && Quiet(tw, scenes)
    requires TowerUpdate(Replay(tw, scenes), next.ids, next.table).shot.Some?
    ensures |scenes| + 1 >= tw.Cooldown()
  {
    QuietCharges(tw, scenes);
  }

  /** A freshly placed tower fires on the first update at which it has a
      target. */
  lemma FirstShotIsImmediate(kind: TowerKind, at: Point, scenes: seq<Scene>, next: Scene)
    requires Quiet(Placed(kind, at), scenes)
    requires TowerUpdate(Replay(Placed(kind, at), scenes), next.ids, next.table).tower.target.Some?
    ensures TowerUpdate(Replay(Placed(kind, at), scenes), next.ids, next.table).shot.Some?
  {
    QuietCharges(Placed(kind, at), scenes);
  }

  /** A tower without a target that never has an enemy in range never fires,
      and its timer keeps counting. */
  lemma {:induction false} IdleTowerNeverFires(tw: Tower, scenes: seq<Scene>)
    requires tw.target.None?
    requires forall k :: 0 <= k < |scenes| ==>
               FindTarget(tw.pos, tw.Range(), scenes[k].ids, scenes[k].table).None?
    decreases |scenes|
    ensures Quiet(tw, scenes)
    ensures Replay(tw, scenes).timer == tw.timer + |scenes|
  {
    if scenes != [] {
      var s := TowerUpdate(tw, scenes[0].ids, scenes[0].table);
      assert s.tower.target.None? && s.tower.pos == tw.pos && s.tower.kind == tw.kind;
      forall k | 0 <= k < |scenes[1..]|
        ensures FindTarget(s.tower.pos, s.tower.Range(), scenes[1..][k].ids, scenes[1..][k].table).None?
      {
        assert scenes[1..][k] == scenes[k + 1];
      }
      IdleTowerNeverFires(s.tower, scenes[1..]);
    }
  }
}
