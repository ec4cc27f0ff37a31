/** Enemies: path followers with health. Enemies live in a table indexed by a
    stable id, so that projectiles and towers can refer to one by id; an entry
    stays in the table after the enemy leaves the live list, as the object it
    models stays reachable from the projectiles still aimed at it. */
module Enemies {
  import opened Geometry
  import opened Stats
  import opened Collections

  type Id = nat

  /** One enemy: variant, position, index of the waypoint last reached,
      current health and the deletion flag. */
  datatype Enemy = Enemy(kind: EnemyKind, pos: Point, pathIndex: nat, health: int, marked: bool)
  {
    function Speed(): real { EnemyStatsOf(kind).speed }
    function MaxHealth(): nat { EnemyStatsOf(kind).health }
    function Reward(): nat { EnemyStatsOf(kind).reward }
    function Radius(): real { EnemyStatsOf(kind).radius }
  }

  type Table = map<Id, Enemy>

  /** What an enemy update reports: nothing, or that the enemy left the map. */
  datatype Signal = Moved | Escaped

  datatype EnemyStep = EnemyStep(enemy: Enemy, signal: Signal)

  /** A fresh enemy of the given variant on the first waypoint, at full health. */
  function Spawned(kind: EnemyKind, path: seq<Point>): (e: Enemy)
    requires |path| > 0
    ensures e.kind == kind && e.pos == path[0] && e.pathIndex == 0
    ensures e.health == e.MaxHealth() > 0 && !e.marked
  {
    Enemy(kind, path[0], 0, EnemyStatsOf(kind).health, false)
  }

  /** There is no waypoint after the one last reached. */
  predicate Exhausted(e: Enemy, path: seq<Point>)
  {
    e.pathIndex + 1 >= |path|
  }

  /** The enemy has been removed from play, or has no health left: the state
      in which a projectile aimed at it retires without effect. */
  predicate Dead(t: Table, id: Id)
  {
    id in t && (t[id].marked || t[id].health <= 0)
  }

  /** The well-formedness every table entry keeps: the waypoint index is on the
      path, health never exceeds the variant's maximum, and an enemy with no
      health left is flagged for deletion. */
  predicate EnemyOk(e: Enemy, path: seq<Point>)
  {
    e.pathIndex < |path| && e.health <= e.MaxHealth() && (e.health <= 0 ==> e.marked)
  }

  predicate TableOk(t: Table, path: seq<Point>)
  {
    forall id :: id in t ==> EnemyOk(t[id], path)
  }

  /** How a table may evolve during play: no entry disappears or changes
      variant, health never rises and a deletion flag is never cleared. */
  predicate Later(t0: Table, t1: Table)
  {
    forall id :: id in t0 ==>
      id in t1 && t1[id].kind == t0[id].kind && t1[id].health <= t0[id].health
      && (t0[id].marked ==> t1[id].marked)
  }

  lemma LaterTransitive(t0: Table, t1: Table, t2: Table)
    requires Later(t0, t1) && Later(t1, t2)
    ensures Later(t0, t2)
  {
  }

  /** Once dead, an enemy stays dead in every later table. */
  lemma DeadStaysDead(t0: Table, t1: Table, id: Id)
    requires Later(t0, t1) && Dead(t0, id)
    ensures Dead(t1, id)
  {
  }

  /** One tick of path following. With no waypoint after the current one the
      enemy flags itself for deletion and escapes; otherwise it snaps onto the
      next waypoint when closer to it than its speed, and takes one homing
      step toward it when not. */
  function EnemyUpdate(e: Enemy, path: seq<Point>, step: Stepper): (r: EnemyStep)
    ensures r.signal == Escaped <==> Exhausted(e, path)
    ensures r.signal == Escaped ==> r.enemy == e.(marked := true)
    ensures r.signal == Moved ==> r.enemy.marked == e.marked
    ensures r.enemy.kind == e.kind && r.enemy.health == e.health
    ensures e.pathIndex <= r.enemy.pathIndex <= e.pathIndex + 1
    ensures r.enemy.pathIndex == e.pathIndex + 1 <==>
              !Exhausted(e, path) && Closer(e.pos, path[e.pathIndex + 1], e.Speed())
    ensures r.enemy.pathIndex == e.pathIndex + 1 ==> r.enemy.pos == path[r.enemy.pathIndex]
    ensures e.pathIndex < |path| ==> r.enemy.pathIndex < |path|
    ensures EnemyOk(e, path) ==> EnemyOk(r.enemy, path)
  {
    if Exhausted(e, path) then
      EnemyStep(e.(marked := true), Escaped)
    else
      var target := path[e.pathIndex + 1];
      if Closer(e.pos, target, e.Speed()) then
        EnemyStep(e.(pathIndex := e.pathIndex + 1, pos := target), Moved)
      else
        EnemyStep(e.(pos := step(e.pos, target, e.Speed())), Moved)
  }

  /** The enemy after `n` updates in a row. */
  function March(e: Enemy, path: seq<Point>, step: Stepper, n: nat): Enemy
    decreases n
  {
    if n == 0 then e else March(EnemyUpdate(e, path, step).enemy, path, step, n - 1)
  }

  /** Over any number of updates an enemy never walks back along the path,
      gains at most one waypoint per update, stays on the path and keeps its
      health. */
  lemma {:induction false} MarchProgress(e: Enemy, path: seq<Point>, step: Stepper, n: nat)
    requires e.pathIndex < |path|
    decreases n
    ensures var f := March(e, path, step, n);
      e.pathIndex <= f.pathIndex <= e.pathIndex + n && f.pathIndex < |path|
      && f.health == e.health && f.kind == e.kind
  {
    if n > 0 {
      MarchProgress(EnemyUpdate(e, path, step).enemy, path, step, n - 1);
    }
  }

  /** The result of the enemy phase of a tick: the table after every listed
      enemy moved, the ids left after removing the flagged ones, lives and
      the playing flag, and how many enemies escaped. */
  datatype Retreat = Retreat(table: Table, kept: seq<Id>, lives: int, playing: bool, escapes: nat)

  /** On the last waypoint in `t`: the enemy escapes on its next update. */
  predicate AtExit(t: Table, path: seq<Point>, id: Id)
  {
    id in t && Exhausted(t[id], path)
  }

  /** How many of the listed enemies stand on their last waypoint in `t`,
      counted from the back. */
  function ExitCount(ids: seq<Id>, t: Table, path: seq<Point>): (n: nat)
    ensures n <= |ids|
    ensures n == 0 <== forall k :: 0 <= k < |ids| ==> !AtExit(t, path, ids[k])
    decreases |ids|
  {
    if ids == [] then 0
    else ExitCount(ids[..|ids| - 1], t, path) + (if AtExit(t, path, ids[|ids| - 1]) then 1 else 0)
  }

  /** Tables that agree on which listed enemies are on their last waypoint
      count the same exits. */
  lemma {:induction false} ExitCountAgree(ids: seq<Id>, t0: Table, t1: Table, path: seq<Point>)
    requires forall k :: 0 <= k < |ids| ==> AtExit(t0, path, ids[k]) == AtExit(t1, path, ids[k])
    decreases |ids|
    ensures ExitCount(ids, t0, path) == ExitCount(ids, t1, path)
  {
    if ids != [] {
      ExitCountAgree(ids[..|ids| - 1], t0, t1, path);
    }
  }

  /** The listed enemies that are not flagged for deletion in `t`, in list
      order: what is left of the live list once the flagged ones are
      spliced out. */
  function Survivors(ids: seq<Id>, t: Table): (r: seq<Id>)
    ensures |r| <= |ids|
    ensures forall k :: 0 <= k < |r| ==> r[k] in t && !t[r[k]].marked
    decreases |ids|
  {
    if ids == [] then []
    else
      var n := |ids| - 1;
      Survivors(ids[..n], t) + (if ids[n] in t && !t[ids[n]].marked then [ids[n]] else [])
  }

  /** Every survivor comes from the list, and a listed enemy of the table
      survives exactly when it is not flagged. */
  lemma {:induction false} SurvivorsAreListed(ids: seq<Id>, t: Table, id: Id)
    decreases |ids|
    ensures id in Survivors(ids, t) <==> id in ids && id in t && !t[id].marked
  {
    if ids != [] {
      var n := |ids| - 1;
      SurvivorsAreListed(ids[..n], t, id);
      assert ids == ids[..n] + [ids[n]];
    }
  }

  /** Removing flagged enemies never creates a duplicate. */
  lemma {:induction false} SurvivorsDistinct(ids: seq<Id>, t: Table)
    requires Distinct(ids)
    decreases |ids|
    ensures Distinct(Survivors(ids, t))
  {
    if ids != [] {
      var n := |ids| - 1;
      DistinctInit(ids);
      SurvivorsDistinct(ids[..n], t);
      SurvivorsAreListed(ids[..n], t, ids[n]);
    }
  }

  /** Updates the listed enemies, the LAST one first, removing each one that
      is flagged after its update. Every escape costs one life, and the game
      stops when an escape leaves no lives. Enemies killed earlier in the same
      tick are updated too, and can still escape. */
  function EnemySweep(ids: seq<Id>, t: Table, path: seq<Point>, lives: int, playing: bool,
                      step: Stepper): (r: Retreat)
    requires forall k :: 0 <= k < |ids| ==> ids[k] in t
    requires Distinct(ids)
    ensures r.table.Keys == t.Keys
    ensures forall id :: id in t && id !in ids ==> r.table[id] == t[id]
    ensures r.lives == lives - r.escapes
    ensures r.playing == (playing && (r.escapes == 0 || r.lives > 0))
    decreases |ids|
  {
    if ids == [] then Retreat(t, [], lives, playing, 0)
    else
      var n := |ids| - 1;
      var id := ids[n];
      var s := EnemyUpdate(t[id], path, step);
      var escaped := s.signal == Escaped;
      var lives' := if escaped then lives - 1 else lives;
      var playing' := if escaped && lives' <= 0 then false else playing;
      DistinctInit(ids);
      var rest := EnemySweep(ids[..n], t[id := s.enemy], path, lives', playing', step);
      Retreat(rest.table, rest.kept + (if s.enemy.marked then [] else [id]),
              rest.lives, rest.playing, rest.escapes + (if escaped then 1 else 0))
  }

  /** The escapes a sweep counts are the listed enemies that had no waypoint
      left when the phase began, killed ones included. */
  lemma {:induction false} SweepCountsEscapes(ids: seq<Id>, t: Table, path: seq<Point>, lives: int,
                                              playing: bool, step: Stepper)
    requires forall k :: 0 <= k < |ids| ==> ids[k] in t
    requires Distinct(ids)
    decreases |ids|
    ensures EnemySweep(ids, t, path, lives, playing, step).escapes == ExitCount(ids, t, path)
  {
    if ids != [] {
      var n := |ids| - 1;
      var id := ids[n];
      var s := EnemyUpdate(t[id], path, step);
      var lives' := if s.signal == Escaped then lives - 1 else lives;
      var playing' := if s.signal == Escaped && lives' <= 0 then false else playing;
      var t' := t[id := s.enemy];
      DistinctInit(ids);
      SweepCountsEscapes(ids[..n], t', path, lives', playing', step);
      var rest := EnemySweep(ids[..n], t', path, lives', playing', step);
      assert rest == EnemySweep(ids[..n], t', path, lives', playing', step);
      forall k | 0 <= k < n
        ensures AtExit(t', path, ids[..n][k]) == AtExit(t, path, ids[..n][k])
      {
        assert ids[..n][k] == ids[k] != id;
      }
      ExitCountAgree(ids[..n], t', t, path);
      assert EnemySweep(ids, t, path, lives, playing, step).escapes
             == rest.escapes + (if AtExit(t, path, id) then 1 else 0);
    }
  }

  /** The enemies a sweep keeps are exactly the listed ones not flagged
      after the sweep, in their original order. */
  lemma {:induction false} SweepKeepsUnflagged(ids: seq<Id>, t: Table, path: seq<Point>, lives: int,
                                               playing: bool, step: Stepper)
    requires forall k :: 0 <= k < |ids| ==> ids[k] in t
    requires Distinct(ids)
    decreases |ids|
    ensures var r := EnemySweep(ids, t, path, lives, playing, step);
      r.kept == Survivors(ids, r.table)
  {
    if ids != [] {
      var n := |ids| - 1;
      var id := ids[n];
      var s := EnemyUpdate(t[id], path, step);
      var lives' := if s.signal == Escaped then lives - 1 else lives;
      var playing' := if s.signal == Escaped && lives' <= 0 then false else playing;
      var t' := t[id := s.enemy];
      DistinctInit(ids);
      SweepKeepsUnflagged(ids[..n], t', path, lives', playing', step);
      var rest := EnemySweep(ids[..n], t', path, lives', playing', step);
      var r := EnemySweep(ids, t, path, lives, playing, step);
      assert r.table == rest.table && r.kept == rest.kept + (if s.enemy.marked then [] else [id]) by {
        assert rest == EnemySweep(ids[..n], t', path, lives', playing', step);
      }
      assert id in r.table && r.table[id] == s.enemy;
      assert Survivors(ids, r.table)
             == Survivors(ids[..n], r.table) + (if s.enemy.marked then [] else [id]);
    }
  }

  /** `t1` holds each listed enemy of `t0` as one update made it. */
  predicate UpdatedEach(ids: seq<Id>, t0: Table, t1: Table, path: seq<Point>, step: Stepper)
  {
    forall k :: 0 <= k < |ids| ==>
      ids[k] in t0 && ids[k] in t1 && t1[ids[k]] == EnemyUpdate(t0[ids[k]], path, step).enemy
  }

  /** Updating one more enemy first, on a table the others do not share,
      extends the list of updated enemies by that one. */
  lemma UpdatedEachSnoc(ids: seq<Id>, id: Id, t: Table, t1: Table, path: seq<Point>, step: Stepper)
    requires id in t && id !in ids
    requires UpdatedEach(ids, t[id := EnemyUpdate(t[id], path, step).enemy], t1, path, step)
    requires id in t1 && t1[id] == EnemyUpdate(t[id], path, step).enemy
    ensures UpdatedEach(ids + [id], t, t1, path, step)
  {
    var all := ids + [id];
    forall k | 0 <= k < |all|
      ensures all[k] in t && all[k] in t1 && t1[all[k]] == EnemyUpdate(t[all[k]], path, step).enemy
    {
      if k < |ids| {
        assert all[k] == ids[k] != id;
      }
    }
  }

  /** Each listed enemy ends the sweep as one update made it, whatever the
      updates of the others did. */
  lemma {:induction false} SweepUpdatesEach(ids: seq<Id>, t: Table, path: seq<Point>, lives: int,
                                            playing: bool, step: Stepper)
    requires forall k :: 0 <= k < |ids| ==> ids[k] in t
    requires Distinct(ids)
    decreases |ids|
    ensures UpdatedEach(ids, t, EnemySweep(ids, t, path, lives, playing, step).table, path, step)
  {
    if ids != [] {
      var n := |ids| - 1;
      var id := ids[n];
      var s := EnemyUpdate(t[id], path, step);
      var lives' := if s.signal == Escaped then lives - 1 else lives;
      var playing' := if s.signal == Escaped && lives' <= 0 then false else playing;
      var t' := t[id := s.enemy];
      DistinctInit(ids);
      SweepUpdatesEach(ids[..n], t', path, lives', playing', step);
      var rest := EnemySweep(ids[..n], t', path, lives', playing', step);
      assert rest == EnemySweep(ids[..n], t', path, lives', playing', step);
      assert EnemySweep(ids, t, path, lives, playing, step).table == rest.table;
      SplitLast(ids);
      UpdatedEachSnoc(ids[..n], id, t, rest.table, path, step);
    }
  }

  /** The enemy phase only moves enemies and flags escapes: it changes no
      health and clears no flag. */
  lemma SweepIsLater(ids: seq<Id>, t: Table, path: seq<Point>, lives: int, playing: bool,
                     step: Stepper)
    requires forall k :: 0 <= k < |ids| ==> ids[k] in t
    requires Distinct(ids)
    ensures var r := EnemySweep(ids, t, path, lives, playing, step);
      Later(t, r.table) && (TableOk(t, path) ==> TableOk(r.table, path))
  {
    var r := EnemySweep(ids, t, path, lives, playing, step);
    assert r == EnemySweep(ids, t, path, lives, playing, step);
    SweepUpdatesEach(ids, t, path, lives, playing, step);
    forall id | id in t
      ensures id in r.table && r.table[id].kind == t[id].kind && r.table[id].health <= t[id].health
      ensures t[id].marked ==> r.table[id].marked
      ensures EnemyOk(t[id], path) ==> EnemyOk(r.table[id], path)
    {
      if id in ids {
        var k :| 0 <= k < |ids| && ids[k] == id;
        assert r.table[id] == EnemyUpdate(t[id], path, step).enemy;
      }
    }
  }

  /** The enemies a sweep keeps are distinct, unflagged entries of the table,
      and the table keeps its well-formedness. */
  lemma SweepSurvivorsLive(ids: seq<Id>, t: Table, path: seq<Point>, lives: int, playing: bool,
                           step: Stepper)
    requires forall k :: 0 <= k < |ids| ==> ids[k] in t
    requires Distinct(ids)
    ensures var m := EnemySweep(ids, t, path, lives, playing, step);
      && Distinct(m.kept) && Later(t, m.table) && (TableOk(t, path) ==> TableOk(m.table, path))
      && (forall id :: id in m.kept ==> id in m.table && !m.table[id].marked)
  {
    var m := EnemySweep(ids, t, path, lives, playing, step);
    assert m == EnemySweep(ids, t, path, lives, playing, step);
    SweepIsLater(ids, t, path, lives, playing, step);
    SweepKeepsUnflagged(ids, t, path, lives, playing, step);
    SurvivorsDistinct(ids, m.table);
  }
}
