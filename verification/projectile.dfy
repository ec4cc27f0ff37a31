/** Projectiles: homing shots that resolve a hit against the enemy they are
    aimed at. The target is an id into the enemy table; a hit changes the
    health of that table entry. */
module Projectiles {
  import opened Geometry
  import opened Stats
  import opened Enemies
  import opened Collections

  /** Position, target, homing speed, damage, the recent positions kept for
      drawing the tail, and the deletion flag. */
  datatype Projectile = Projectile(pos: Point, target: Id, speed: real, damage: nat,
                                   trail: seq<Point>, marked: bool)

  /** What an update reports: nothing, a hit, or a kill with its reward. */
  datatype Report = NoEvent | Hit | Killed(reward: int)

  datatype ProjStep = ProjStep(proj: Projectile, table: Table, report: Report)

  /** A kill credited during a tick: the enemy and the reward it paid. */
  datatype Kill = Kill(id: Id, reward: int)

  /** Oldest positions beyond this many are dropped from a trail. */
  const TrailLimit: nat := 5

  /** A freshly fired projectile. */
  function Shot(at: Point, target: Id, stats: ShotStats): (p: Projectile)
    ensures p.pos == at && p.target == target
    ensures p.speed == stats.speed && p.damage == stats.damage
    ensures p.trail == [] && !p.marked
  {
    Projectile(at, target, stats.speed, stats.damage, [], false)
  }

  /** Append a position to a trail, dropping the oldest one when the trail
      grows past the limit. */
  function PushTrail(trail: seq<Point>, p: Point): (r: seq<Point>)
    ensures |r| > 0 && r[|r| - 1] == p
    ensures |trail| <= TrailLimit ==> |r| <= TrailLimit
    ensures |r| == (if |trail| + 1 > TrailLimit then |trail| else |trail| + 1)
    ensures forall k :: 0 <= k < |r| - 1 ==> r[k] == trail[|trail| - (|r| - 1) + k]
  {
    var t := trail + [p];
    if |t| > TrailLimit then t[1..] else t
  }

  /** The projectile hits when closer to the target than its own speed plus
      the target's radius. */
  predicate Collides(p: Projectile, e: Enemy)
  {
    Closer(p.pos, e.pos, p.speed + e.Radius())
  }

  /** One tick of a projectile. If its target is already dead it retires and
      nothing else changes. Otherwise it records its position in the trail
      and, on collision, takes `damage` off the target: a target left with no
      health is flagged and the kill is reported with the target's reward
      (the projectile itself is NOT flagged then and retires on its next
      update); a surviving target is reported as hit and the projectile is
      flagged. Without a collision the projectile takes one homing step. */
  function ProjectileUpdate(p: Projectile, t: Table, step: Stepper): (r: ProjStep)
    requires p.target in t
    ensures r.table.Keys == t.Keys && Later(t, r.table)
    ensures forall id :: id in t && id != p.target ==> r.table[id] == t[id]
    ensures r.table[p.target].pos == t[p.target].pos && r.table[p.target].pathIndex == t[p.target].pathIndex
    ensures r.proj.target == p.target && r.proj.speed == p.speed && r.proj.damage == p.damage
    // the defensive retire
    ensures Dead(t, p.target) ==> r == ProjStep(p.(marked := true), t, NoEvent)
    // the trail
    ensures |p.trail| <= TrailLimit ==> |r.proj.trail| <= TrailLimit
    ensures !Dead(t, p.target) ==> r.proj.trail == PushTrail(p.trail, p.pos)
    // collision resolution
    ensures r.report != NoEvent <==> !Dead(t, p.target) && Collides(p, t[p.target])
    ensures r.report != NoEvent ==>
              r.table[p.target].health == t[p.target].health - p.damage
              && r.proj.pos == p.pos
    ensures r.report.Killed? <==> r.report != NoEvent && t[p.target].health - p.damage <= 0
    ensures r.report.Killed? ==>
              r.report.reward == t[p.target].Reward() && r.table[p.target].marked && r.proj.marked == p.marked
    ensures r.report.Hit? ==> r.table[p.target] == t[p.target].(health := t[p.target].health - p.damage)
                              && r.proj.marked
    // homing without contact
    ensures !Dead(t, p.target) && r.report == NoEvent ==>
              r.table == t && r.proj.marked == p.marked && r.proj.pos == step(p.pos, t[p.target].pos, p.speed)
    ensures forall path :: TableOk(t, path) ==> TableOk(r.table, path)
  {
    var e := t[p.target];
    if e.marked || e.health <= 0 then
      ProjStep(p.(marked := true), t, NoEvent)
    else
      var trail := PushTrail(p.trail, p.pos);
      if Collides(p, e) then
        var hurt := e.(health := e.health - p.damage);
        if hurt.health <= 0 then
          ProjStep(p.(trail := trail), t[p.target := hurt.(marked := true)], Killed(e.Reward()))
        else
          ProjStep(p.(trail := trail, marked := true), t[p.target := hurt], Hit)
      else
        ProjStep(p.(trail := trail, pos := step(p.pos, e.pos, p.speed)), t, NoEvent)
  }

  /** The projectile has flagged itself for deletion. */
  predicate Retired(p: Projectile)
  {
    p.marked
  }

  /** The result of updating a list of projectiles one after another: each
      projectile as updated (same order, nothing removed yet), the enemy table
      after all the hits, and the kills in the order they happened. */
  datatype Sweep = Sweep(updated: seq<Projectile>, table: Table, kills: seq<Kill>)

  predicate KilledIn(kills: seq<Kill>, id: Id)
  {
    exists k :: 0 <= k < |kills| && kills[k].id == id
  }

  /** No enemy is credited twice. */
  predicate DistinctKills(kills: seq<Kill>)
  {
    forall i, j :: 0 <= i < j < |kills| ==> kills[i].id != kills[j].id
  }

  /** The money the kills pay out. */
  function Bounty(kills: seq<Kill>): (b: int)
    ensures (forall k :: 0 <= k < |kills| ==> kills[k].reward >= 0) ==> b >= 0
  {
    if kills == [] then 0 else kills[0].reward + Bounty(kills[1..])
  }

  /** The kills of two stretches of play pay what each pays on its own. */
  lemma {:induction false} BountyAppend(a: seq<Kill>, b: seq<Kill>)
    ensures Bounty(a + b) == Bounty(a) + Bounty(b)
  {
    if a != [] {
      assert (a + b)[0] == a[0] && (a + b)[1..] == a[1..] + b;
      BountyAppend(a[1..], b);
    } else {
      assert a + b == b;
    }
  }

  /** Updates every projectile, the LAST one first, each against the table
      as the updates before it left it. */
  function ProjectileSweep(ps: seq<Projectile>, t: Table, step: Stepper): (r: Sweep)
    requires forall k :: 0 <= k < |ps| ==> ps[k].target in t
    ensures |r.updated| == |ps|
    ensures r.table.Keys == t.Keys && Later(t, r.table)
    ensures forall path :: TableOk(t, path) ==> TableOk(r.table, path)
    ensures forall id :: id in t ==> r.table[id].pathIndex == t[id].pathIndex
    decreases |ps|
  {
    if ps == [] then Sweep([], t, [])
    else
      var last := ps[|ps| - 1];
      var s := ProjectileUpdate(last, t, step);
      var rest := ProjectileSweep(ps[..|ps| - 1], s.table, step);
      var kill := if s.report.Killed? then [Kill(last.target, s.report.reward)] else [];
      Sweep(rest.updated + [s.proj], rest.table, kill + rest.kills)
  }

  /** Each projectile keeps its target through a sweep, and a bounded
      trail stays bounded. */
  lemma {:induction false} SweepKeepsAim(ps: seq<Projectile>, t: Table, step: Stepper)
    requires forall k :: 0 <= k < |ps| ==> ps[k].target in t
    decreases |ps|
    ensures var r := ProjectileSweep(ps, t, step);
      forall k :: 0 <= k < |ps| ==>
        r.updated[k].target == ps[k].target
        && (|ps[k].trail| <= TrailLimit ==> |r.updated[k].trail| <= TrailLimit)
  {
    if ps != [] {
      var n := |ps| - 1;
      var s := ProjectileUpdate(ps[n], t, step);
      var rest := ProjectileSweep(ps[..n], s.table, step);
      assert rest == ProjectileSweep(ps[..n], s.table, step);
      SweepKeepsAim(ps[..n], s.table, step);
      var r := ProjectileSweep(ps, t, step);
      assert r.updated == rest.updated + [s.proj];
      forall k | 0 <= k < |ps|
        ensures r.updated[k].target == ps[k].target
        ensures |ps[k].trail| <= TrailLimit ==> |r.updated[k].trail| <= TrailLimit
      {
        if k < n {
          assert ps[..n][k] == ps[k];
        }
      }
    }
  }

  /** Every kill names an enemy that was alive in `t0` and is dead in `t1`,
      and paid that enemy's reward. */
  predicate KillsSound(kills: seq<Kill>, t0: Table, t1: Table)
  {
    forall k :: 0 <= k < |kills| ==>
      var id := kills[k].id;
      id in t0 && !Dead(t0, id) && Dead(t1, id) && kills[k].reward == t0[id].Reward()
  }

  /** Sound kills of two consecutive stretches of play are sound for both. */
  lemma KillsSoundChain(head: seq<Kill>, tail: seq<Kill>, t0: Table, t1: Table, t2: Table)
    requires t1.Keys == t0.Keys && Later(t0, t1) && Later(t1, t2)
    requires KillsSound(head, t0, t1) && KillsSound(tail, t1, t2)
    ensures KillsSound(head + tail, t0, t2)
  {
    var all := head + tail;
    forall k | 0 <= k < |all|
      ensures var id := all[k].id;
        id in t0 && !Dead(t0, id) && Dead(t2, id) && all[k].reward == t0[id].Reward()
    {
      var id := all[k].id;
      if k < |head| {
        assert all[k] == head[k];
        DeadStaysDead(t1, t2, id);
      } else {
        assert all[k] == tail[k - |head|];
        if Dead(t0, id) {
          DeadStaysDead(t0, t1, id);
        }
      }
    }
  }

  /** Every kill names an enemy that is dead in `t1`, was not already dead
      in `t0` if it existed then, and paid its variant's reward. This is what
      a kill means across several ticks, during which enemies spawn. */
  predicate KillsFresh(kills: seq<Kill>, t0: Table, t1: Table)
  {
    forall k :: 0 <= k < |kills| ==>
      var id := kills[k].id;
      id in t1 && Dead(t1, id) && !Dead(t0, id) && kills[k].reward == t1[id].Reward()
  }

  /** Fresh, duplicate-free kills of two consecutive stretches of play are
      fresh and duplicate-free for both: no enemy pays twice. */
  lemma KillsFreshChain(head: seq<Kill>, tail: seq<Kill>, t0: Table, t1: Table, t2: Table)
    requires Later(t0, t1) && Later(t1, t2)
    requires KillsFresh(head, t0, t1) && KillsFresh(tail, t1, t2)
    requires DistinctKills(head) && DistinctKills(tail)
    ensures KillsFresh(head + tail, t0, t2) && DistinctKills(head + tail)
  {
    var all := head + tail;
    forall k | 0 <= k < |all|
      ensures var id := all[k].id;
        id in t2 && Dead(t2, id) && !Dead(t0, id) && all[k].reward == t2[id].Reward()
    {
      var id := all[k].id;
      if k < |head| {
        assert all[k] == head[k];
        DeadStaysDead(t1, t2, id);
      } else {
        assert all[k] == tail[k - |head|];
        if Dead(t0, id) {
          DeadStaysDead(t0, t1, id);
        }
      }
    }
    forall i, j | 0 <= i < j < |all|
      ensures all[i].id != all[j].id
    {
      if j < |head| {
        assert all[i] == head[i] && all[j] == head[j];
      } else if i >= |head| {
        assert all[i] == tail[i - |head|] && all[j] == tail[j - |head|];
      } else {
        assert all[i] == head[i] && all[j] == tail[j - |head|];
        assert Dead(t1, all[i].id) && !Dead(t1, all[j].id);
      }
    }
  }

  /** Sound kills of one stretch of play are fresh with respect to any
      earlier table and any later one. */
  lemma SoundIsFresh(kills: seq<Kill>, t: Table, t0: Table, t1: Table, t2: Table)
    requires Later(t, t0) && Later(t0, t1) && Later(t1, t2)
    requires KillsSound(kills, t0, t1)
    ensures KillsFresh(kills, t, t2)
  {
    forall k | 0 <= k < |kills|
      ensures var id := kills[k].id;
        id in t2 && Dead(t2, id) && !Dead(t, id) && kills[k].reward == t2[id].Reward()
    {
      var id := kills[k].id;
      DeadStaysDead(t1, t2, id);
      if Dead(t, id) {
        DeadStaysDead(t, t0, id);
      }
    }
  }

  /** Sound kills pay a bounty that is never negative. */
  lemma SoundBountyNonNegative(kills: seq<Kill>, t0: Table, t1: Table)
    requires KillsSound(kills, t0, t1)
    ensures Bounty(kills) >= 0
  {
    forall k | 0 <= k < |kills|
      ensures kills[k].reward >= 0
    {
      assert kills[k].reward == t0[kills[k].id].Reward();
    }
  }

  /** Every enemy a sweep reports killed was alive before it and is dead
      after it, and paid its variant's reward. */
  lemma {:induction false} SweepKillsWereAlive(ps: seq<Projectile>, t: Table, step: Stepper)
    requires forall k :: 0 <= k < |ps| ==> ps[k].target in t
    decreases |ps|
    ensures var r := ProjectileSweep(ps, t, step); KillsSound(r.kills, t, r.table)
  {
    if ps != [] {
      var last := ps[|ps| - 1];
      var s := ProjectileUpdate(last, t, step);
      var rest := ProjectileSweep(ps[..|ps| - 1], s.table, step);
      assert rest == ProjectileSweep(ps[..|ps| - 1], s.table, step);
      SweepKillsWereAlive(ps[..|ps| - 1], s.table, step);
      var kill := if s.report.Killed? then [Kill(last.target, s.report.reward)] else [];
      assert KillsSound(kill, t, s.table);
      KillsSoundChain(kill, rest.kills, t, s.table, rest.table);
      var r := ProjectileSweep(ps, t, step);
      assert r.kills == kill + rest.kills && r.table == rest.table;
    }
  }

  /** No enemy is credited twice within a sweep. */
  lemma {:induction false} SweepKillsDistinct(ps: seq<Projectile>, t: Table, step: Stepper)
    requires forall k :: 0 <= k < |ps| ==> ps[k].target in t
    decreases |ps|
    ensures DistinctKills(ProjectileSweep(ps, t, step).kills)
  {
    if ps != [] {
      var last := ps[|ps| - 1];
      var s := ProjectileUpdate(last, t, step);
      var rest := ProjectileSweep(ps[..|ps| - 1], s.table, step);
      assert rest == ProjectileSweep(ps[..|ps| - 1], s.table, step);
      SweepKillsDistinct(ps[..|ps| - 1], s.table, step);
      SweepKillsWereAlive(ps[..|ps| - 1], s.table, step);
      var kill := if s.report.Killed? then [Kill(last.target, s.report.reward)] else [];
      assert ProjectileSweep(ps, t, step).kills == kill + rest.kills;
      if s.report.Killed? {
        forall k | 0 <= k < |rest.kills|
          ensures rest.kills[k].id != last.target
        {
          assert KillsSound(rest.kills, s.table, rest.table);
          assert !Dead(s.table, rest.kills[k].id);
        }
        PrependKill(Kill(last.target, s.report.reward), rest.kills);
      }
    }
  }

  /** The kills of a sweep are fresh with respect to any earlier table and
      any later one, and duplicate-free. */
  lemma SweepKillsFresh(ps: seq<Projectile>, t: Table, step: Stepper, t0: Table, t2: Table)
    requires forall k :: 0 <= k < |ps| ==> ps[k].target in t
    requires Later(t0, t) && Later(ProjectileSweep(ps, t, step).table, t2)
    ensures KillsFresh(ProjectileSweep(ps, t, step).kills, t0, t2)
    ensures DistinctKills(ProjectileSweep(ps, t, step).kills)
  {
    var s := ProjectileSweep(ps, t, step);
    SweepKillsWereAlive(ps, t, step);
    SweepKillsDistinct(ps, t, step);
    SoundIsFresh(s.kills, t0, t, s.table, t2);
  }

  lemma PrependKill(kill: Kill, kills: seq<Kill>)
    requires DistinctKills(kills)
    requires forall k :: 0 <= k < |kills| ==> kills[k].id != kill.id
    ensures DistinctKills([kill] + kills)
  {
    var r := [kill] + kills;
    forall i, j | 0 <= i < j < |r|
      ensures r[i].id != r[j].id
    {
      assert r[j] == kills[j - 1];
      if i > 0 {
        assert r[i] == kills[i - 1];
      }
    }
  }

  /** Every enemy alive in `t0` and dead in `t1` is among the kills. */
  predicate KillsComplete(kills: seq<Kill>, t0: Table, t1: Table)
  {
    forall id :: id in t0 && !Dead(t0, id) && Dead(t1, id) ==> KilledIn(kills, id)
  }

  /** Complete kills of two consecutive stretches of play are complete for
      both. */
  lemma KillsCompleteChain(head: seq<Kill>, tail: seq<Kill>, t0: Table, t1: Table, t2: Table)
    requires t1.Keys == t0.Keys
    requires KillsComplete(head, t0, t1) && KillsComplete(tail, t1, t2)
    ensures KillsComplete(head + tail, t0, t2)
  {
    var all := head + tail;
    forall id | id in t0 && !Dead(t0, id) && Dead(t2, id)
      ensures KilledIn(all, id)
    {
      if Dead(t1, id) {
        var k :| 0 <= k < |head| && head[k].id == id;
        assert all[k] == head[k];
      } else {
        var k :| 0 <= k < |tail| && tail[k].id == id;
        assert all[|head| + k] == tail[k];
      }
    }
  }

  /** Conversely, every enemy that a sweep turns from alive to dead is
      reported killed. */
  lemma {:induction false} SweepMissesNoKill(ps: seq<Projectile>, t: Table, step: Stepper)
    requires forall k :: 0 <= k < |ps| ==> ps[k].target in t
    decreases |ps|
    ensures var r := ProjectileSweep(ps, t, step); KillsComplete(r.kills, t, r.table)
  {
    if ps != [] {
      var last := ps[|ps| - 1];
      var s := ProjectileUpdate(last, t, step);
      var rest := ProjectileSweep(ps[..|ps| - 1], s.table, step);
      assert rest == ProjectileSweep(ps[..|ps| - 1], s.table, step);
      SweepMissesNoKill(ps[..|ps| - 1], s.table, step);
      var kill := if s.report.Killed? then [Kill(last.target, s.report.reward)] else [];
      forall id | id in t && !Dead(t, id) && Dead(s.table, id)
        ensures KilledIn(kill, id)
      {
        assert kill[0].id == id;
      }
      KillsCompleteChain(kill, rest.kills, t, s.table, rest.table);
      var r := ProjectileSweep(ps, t, step);
      assert r.kills == kill + rest.kills && r.table == rest.table;
    }
  }

  /** The projectiles a sweep leaves after removing the flagged ones all
      aim at enemies of the table, have bounded trails and are unflagged. */
  lemma SweepSurvivorsSound(ps: seq<Projectile>, t: Table, step: Stepper)
    requires forall k :: 0 <= k < |ps| ==> ps[k].target in t && |ps[k].trail| <= TrailLimit
    ensures var s := ProjectileSweep(ps, t, step);
      var kept := Keep(s.updated, Retired);
      forall k :: 0 <= k < |kept| ==>
        kept[k].target in t && |kept[k].trail| <= TrailLimit && !kept[k].marked
  {
    var s := ProjectileSweep(ps, t, step);
    assert s == ProjectileSweep(ps, t, step);
    SweepKeepsAim(ps, t, step);
    var kept := Keep(s.updated, Retired);
    forall k | 0 <= k < |kept|
      ensures kept[k].target in t && |kept[k].trail| <= TrailLimit && !kept[k].marked
    {
      var j :| 0 <= j < |s.updated| && s.updated[j] == kept[k];
    }
  }
}
