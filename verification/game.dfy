/** The game state and one tick of the game loop, with all drawing removed,
    plus the tower placement command. */
module Game {
  import opened Geometry
  import opened Stats
  import opened Collections
  import opened Enemies
  import opened Projectiles
  import opened Towers
  import opened Waves

  /** The waypoints every enemy follows, from its spawn point to the exit. */
  const Path: seq<Point> := [Point(0.0, 100.0), Point(150.0, 100.0), Point(150.0, 400.0),
                             Point(450.0, 400.0), Point(450.0, 200.0), Point(700.0, 200.0),
                             Point(700.0, 500.0), Point(850.0, 500.0)]

  /** An enemy spawns on ticks whose count is a multiple of this. */
  const SpawnEvery: nat := 60
  /** Enemies spawn on the ticks whose count is a multiple of 60, counted
      off here 60 at a time. */
  predicate SpawnTick(frame: nat)
    decreases frame
  {
    if frame < SpawnEvery then frame == 0 else SpawnTick(frame - SpawnEvery)
  }

  /** The spawn ticks are exactly the multiples of 60. */
  lemma {:induction false} SpawnTickIsMultiple(frame: nat)
    decreases frame
    ensures SpawnTick(frame) <==> frame % SpawnEvery == 0
  {
    if frame >= SpawnEvery {
      SpawnTickIsMultiple(frame - SpawnEvery);
      assert (frame - SpawnEvery) % SpawnEvery == frame % SpawnEvery;
    }
  }

  /** A wave can clear only after this many ticks. */
  const ClearAfter: nat := 200
  /** Money paid when a wave clears. */
  const WaveBonus: nat := 100
  /** Two towers must be at least this far apart. */
  const MinSpacing: real := 45.0

  /** The whole simulation state. `table` holds every enemy ever spawned,
      by id; `enemies` lists the live ones in spawn order; `nextId` is the id
      the next spawned enemy gets. `frame` counts ticks since the wave began,
      `queue` holds the variants still to spawn, front first. */
  datatype World = World(table: Table, enemies: seq<Id>, nextId: Id,
                         towers: seq<Tower>, projectiles: seq<Projectile>,
                         frame: nat, playing: bool, wave: int, queue: seq<EnemyKind>,
                         money: int, lives: int)

  /** What holds of every state the game reaches: the live list holds
      distinct, unflagged enemies of the table; every reference into the
      table resolves; trails are bounded; the game runs only while lives
      remain; money is never negative. */
  predicate Valid(w: World)
  {
    && (forall id :: id in w.enemies ==> id in w.table && !w.table[id].marked)
    && Distinct(w.enemies)
    && (forall id :: id in w.table ==> id < w.nextId)
    && TableOk(w.table, Path)
    && (forall k :: 0 <= k < |w.projectiles| ==>
          w.projectiles[k].target in w.table && |w.projectiles[k].trail| <= TrailLimit
          && !w.projectiles[k].marked)
    && (forall k :: 0 <= k < |w.towers| ==>
          w.towers[k].target.Some? ==> w.towers[k].target.value in w.table)
    && (w.playing ==> w.lives > 0)
    && w.money >= 0 && w.wave >= 1
  }

  /** The state when the game starts: wave 1 queued, nothing on the field. */
  function Initial(draw: nat -> real): (w: World)
    ensures Valid(w) && w.playing && w.wave == 1
    ensures |w.queue| == 10 && forall i :: 0 <= i < 10 ==> w.queue[i] == Normal
    ensures w.money == StartingMoney && w.lives == StartingLives
  {
    World(map[], [], 0, [], [], 0, true, 1, SetupWave(1, draw), StartingMoney, StartingLives)
  }

  datatype Arrival = Arrival(world: World, spawned: Option<EnemyKind>)

  /** The spawn step: on a tick whose count is a multiple of 60, the front of
      the queue enters at the start of the path under a fresh id. */
  function Spawn(w: World): (r: Arrival)
    requires Valid(w)
    ensures Valid(r.world) && Later(w.table, r.world.table)
    ensures r.spawned.Some? <==> SpawnTick(w.frame) && |w.queue| > 0
    ensures r.spawned.None? ==> r.world == w
    ensures r.spawned.Some? ==>
              var id := w.nextId;
              && r.spawned.value == w.queue[0] && r.world.queue == w.queue[1..]
              && id !in w.table && r.world.enemies == w.enemies + [id]
              && r.world.table == w.table[id := Spawned(w.queue[0], Path)]
              && r.world == w.(table := r.world.table, enemies := r.world.enemies,
                               nextId := r.world.nextId, queue := r.world.queue)
  {
    if SpawnTick(w.frame) && |w.queue| > 0 then
      var id := w.nextId;
      DistinctSnoc(w.enemies, id);
      Arrival(w.(table := w.table[id := Spawned(w.queue[0], Path)], enemies := w.enemies + [id],
                 nextId := id + 1, queue := w.queue[1..]),
              Some(w.queue[0]))
    else
      Arrival(w, None)
  }

  /** The wave is over: nothing alive, nothing left to spawn, and the grace
      period has passed. */
  predicate WaveOver(w: World)
  {
    |w.enemies| == 0 && |w.queue| == 0 && w.frame > ClearAfter
  }

  /** The wave-clear step: once the wave is over the next wave is queued,
      the tick count restarts and the bonus is paid. */
  function ClearWave(w: World, draw: nat -> real): (r: World)
    requires Valid(w)
    ensures Valid(r)
    ensures !WaveOver(w) ==> r == w
    ensures WaveOver(w) ==>
              && r.wave == w.wave + 1 && r.queue == SetupWave(w.wave + 1, draw)
              && r.frame == 0 && r.money == w.money + WaveBonus
              && r == w.(wave := r.wave, queue := r.queue, frame := 0, money := r.money)
  {
    if WaveOver(w) then
      w.(wave := w.wave + 1, queue := SetupWave(w.wave + 1, draw), frame := 0,
         money := w.money + WaveBonus)
    else
      w
  }

  /** What the combat part of a tick produced. */
  datatype Battle = Battle(world: World, kills: seq<Kill>, escapes: nat)

  /** The projectiles a tick's projectile phase updates: those already in
      flight, then the ones the towers fired this tick. All aim at table
      entries and have bounded trails. */
  function InFlight(w: World): (ps: seq<Projectile>)
    requires Valid(w)
    ensures |ps| >= |w.projectiles|
    ensures forall k :: 0 <= k < |ps| ==> ps[k].target in w.table && |ps[k].trail| <= TrailLimit
    ensures forall k :: |w.projectiles| <= k < |ps| ==> ps[k].trail == [] && !ps[k].marked
  {
    var shots := TowersPhase(w.towers, w.enemies, w.table).shots;
    var ps := w.projectiles + shots;
    assert forall k :: |w.projectiles| <= k < |ps| ==> ps[k] == shots[k - |w.projectiles|];
    ps
  }

  /** The projectiles already in flight keep their places at the front of
      the list, and the shots fired this tick follow them in tower order. */
  lemma InFlightOrder(w: World)
    requires Valid(w)
    ensures InFlight(w)[..|w.projectiles|] == w.projectiles
    ensures InFlight(w)[|w.projectiles|..] == Shots(w.towers, w.enemies, w.table)
  {
    TowersPhaseShots(w.towers, w.enemies, w.table);
  }

  /** Towers, then projectiles, then enemies; projectiles and enemies are
      updated from the back of their lists and removed once flagged. */
  function Combat(w: World, step: Stepper): (r: Battle)
    requires Valid(w)
    ensures r.world.table.Keys == w.table.Keys
    ensures |r.world.towers| == |w.towers|
    ensures forall k :: 0 <= k < |w.towers| ==>
              r.world.towers[k].pos == w.towers[k].pos && r.world.towers[k].kind == w.towers[k].kind
    ensures forall k :: 0 <= k < |w.towers| ==>
              r.world.towers[k].target.Some? ==> r.world.towers[k].target.value in r.world.table
    ensures r.world.money == w.money + Bounty(r.kills)
    ensures r.world.lives == w.lives - r.escapes
    ensures r.world.playing == (w.playing && r.world.lives > 0)
    ensures r.world.frame == w.frame && r.world.wave == w.wave && r.world.queue == w.queue
    ensures r.world.nextId == w.nextId
  {
    var v := TowersPhase(w.towers, w.enemies, w.table);
    var s := ProjectileSweep(InFlight(w), w.table, step);
    var m := EnemySweep(w.enemies, s.table, Path, w.lives, w.playing, step);
    Battle(w.(towers := v.towers, projectiles := Keep(s.updated, Retired), table := m.table,
              enemies := m.kept, money := w.money + Bounty(s.kills), lives := m.lives,
              playing := m.playing),
           s.kills, m.escapes)
  }

  /** After combat the live list holds distinct, unflagged enemies, and the
      table has only changed as play allows. */
  lemma CombatKeepsEnemiesSound(w: World, step: Stepper)
    requires Valid(w)
    ensures var r := Combat(w, step).world;
      && Distinct(r.enemies) && (forall id :: id in r.enemies ==> id in r.table && !r.table[id].marked)
      && Later(w.table, r.table) && TableOk(r.table, Path)
  {
    var s := ProjectileSweep(InFlight(w), w.table, step);
    SweepSurvivorsLive(w.enemies, s.table, Path, w.lives, w.playing, step);
    LaterTransitive(w.table, s.table, EnemySweep(w.enemies, s.table, Path, w.lives, w.playing, step).table);
  }

  /** After combat every projectile aims at a table entry, has a bounded
      trail and is unflagged. */
  lemma CombatKeepsProjectilesSound(w: World, step: Stepper)
    requires Valid(w)
    ensures var r := Combat(w, step).world;
      forall k :: 0 <= k < |r.projectiles| ==>
        r.projectiles[k].target in r.table && |r.projectiles[k].trail| <= TrailLimit
        && !r.projectiles[k].marked
  {
    var s := ProjectileSweep(InFlight(w), w.table, step);
    assert s == ProjectileSweep(InFlight(w), w.table, step);
    SweepSurvivorsSound(InFlight(w), w.table, step);
    assert Combat(w, step).world.projectiles == Keep(s.updated, Retired);
  }

  /** Combat never leaves the player in debt: every kill pays a reward that
      is not negative. */
  lemma CombatKeepsSolvent(w: World, step: Stepper)
    requires Valid(w)
    ensures Combat(w, step).world.money >= 0
  {
    var s := ProjectileSweep(InFlight(w), w.table, step);
    SweepKillsWereAlive(InFlight(w), w.table, step);
    SoundBountyNonNegative(s.kills, w.table, s.table);
  }

  /** Every kill combat credits is of an enemy alive when combat began and
      dead after it, and so not dead in any earlier table `t`; no enemy is
      credited twice. */
  lemma CombatCreditsKills(t: Table, w: World, step: Stepper)
    requires Valid(w) && Later(t, w.table)
    ensures var c := Combat(w, step);
      KillsFresh(c.kills, t, c.world.table) && DistinctKills(c.kills)
  {
    var s := ProjectileSweep(InFlight(w), w.table, step);
    var m := EnemySweep(w.enemies, s.table, Path, w.lives, w.playing, step);
    SweepIsLater(w.enemies, s.table, Path, w.lives, w.playing, step);
    SweepKillsFresh(InFlight(w), w.table, step, t, m.table);
    assert Combat(w, step).kills == s.kills && Combat(w, step).world.table == m.table;
  }

  /** Combat credits every enemy it kills: an enemy alive when combat began
      that has no health left afterwards is among the kills. */
  lemma CombatCreditsEveryKill(w: World, step: Stepper)
    requires Valid(w)
    ensures var c := Combat(w, step);
      forall id :: id in w.table && !Dead(w.table, id) && c.world.table[id].health <= 0 ==>
        KilledIn(c.kills, id)
  {
    var s := ProjectileSweep(InFlight(w), w.table, step);
    var m := EnemySweep(w.enemies, s.table, Path, w.lives, w.playing, step);
    SweepMissesNoKill(InFlight(w), w.table, step);
    SweepUpdatesEach(w.enemies, s.table, Path, w.lives, w.playing, step);
    assert Combat(w, step).kills == s.kills && Combat(w, step).world.table == m.table;
    forall id | id in w.table && !Dead(w.table, id) && m.table[id].health <= 0
      ensures KilledIn(s.kills, id)
    {
      // the enemy phase moves enemies but never changes their health
      if id in w.enemies {
        var k :| 0 <= k < |w.enemies| && w.enemies[k] == id;
        assert m.table[id] == EnemyUpdate(s.table[id], Path, step).enemy;
      }
      assert Dead(s.table, id);
    }
  }

  /** The escapes combat counts are exactly the live enemies that were on
      their last waypoint when combat began: projectiles never move an enemy
      along the path, and a killed enemy on its last waypoint still escapes. */
  lemma CombatCountsEscapes(w: World, step: Stepper)
    requires Valid(w)
    ensures Combat(w, step).escapes == ExitCount(w.enemies, w.table, Path)
  {
    var s := ProjectileSweep(InFlight(w), w.table, step);
    assert s == ProjectileSweep(InFlight(w), w.table, step);
    SweepCountsEscapes(w.enemies, s.table, Path, w.lives, w.playing, step);
    forall k | 0 <= k < |w.enemies|
      ensures AtExit(s.table, Path, w.enemies[k]) == AtExit(w.table, Path, w.enemies[k])
    {
      assert w.enemies[k] in w.table;
    }
    ExitCountAgree(w.enemies, s.table, w.table, Path);
  }

  /** The combat part of a tick keeps the world well-formed. */
  lemma CombatPreservesValid(w: World, step: Stepper)
    requires Valid(w)
    ensures Valid(Combat(w, step).world)
  {
    CombatKeepsEnemiesSound(w, step);
    CombatKeepsProjectilesSound(w, step);
    CombatKeepsSolvent(w, step);
  }

  /** What one tick did: the new state, the variant spawned (if any),
      whether the wave cleared, the kills credited and the escapes counted. */
  datatype TickResult = TickResult(world: World, spawned: Option<EnemyKind>, cleared: bool,
                                   kills: seq<Kill>, escapes: nat)

  /** What the scheduling part of a tick produced. */
  datatype Schedule = Schedule(world: World, spawned: Option<EnemyKind>, cleared: bool)

  /** The scheduling part of a running tick: the tick count advances, the
      front of the queue spawns on every 60th tick, and the wave clears once
      nothing is alive or queued and more than 200 ticks have passed, which
      queues the next wave, restarts the count and pays the bonus. */
  function Prepare(w: World, draw: nat -> real): (p: Schedule)
    requires Valid(w)
    ensures Valid(p.world) && Later(w.table, p.world.table)
    ensures p.spawned.Some? <==> SpawnTick(w.frame + 1) && |w.queue| > 0
    ensures p.spawned.Some? ==> p.spawned.value == w.queue[0]
    ensures p.spawned.Some? && !p.cleared ==> p.world.queue == w.queue[1..]
    ensures p.spawned.None? && !p.cleared ==> p.world.queue == w.queue
    ensures p.cleared <==> |w.enemies| == 0 && |w.queue| == 0 && w.frame + 1 > ClearAfter
    ensures p.cleared ==> p.world.wave == w.wave + 1 && p.world.frame == 0
                          && p.world.queue == SetupWave(w.wave + 1, draw)
    ensures !p.cleared ==> p.world.wave == w.wave && p.world.frame == w.frame + 1
    ensures p.world.money == w.money + (if p.cleared then WaveBonus else 0)
    ensures p.world.towers == w.towers && p.world.lives == w.lives && p.world.playing == w.playing
    ensures p.world.projectiles == w.projectiles
    ensures p.spawned.None? ==> p.world.table == w.table && p.world.enemies == w.enemies
    ensures p.spawned.Some? ==>
              && w.nextId !in w.table && p.world.enemies == w.enemies + [w.nextId]
              && p.world.table == w.table[w.nextId := Spawned(w.queue[0], Path)]
  {
    var a := Spawn(w.(frame := w.frame + 1));
    Schedule(ClearWave(a.world, draw), a.spawned, WaveOver(a.world))
  }

  /** One call of the game loop. A stopped game is left as it is. Otherwise
      the scheduling part runs, then the towers, projectiles and enemies are
      updated in that order. */
  function Tick(w: World, step: Stepper, draw: nat -> real): (r: TickResult)
    requires Valid(w)
    ensures Valid(r.world) && Later(w.table, r.world.table)
    ensures !w.playing ==> r == TickResult(w, None, false, [], 0)
    ensures r.world.lives == w.lives - r.escapes
    ensures r.world.playing == (w.playing && r.world.lives > 0)
    // the scheduling part decides spawning and wave clearing; combat leaves
    // the queue, the wave and the tick count alone
    ensures w.playing ==> r.world.money == w.money + (if r.cleared then WaveBonus else 0) + Bounty(r.kills)
    ensures |r.world.towers| == |w.towers|
    ensures forall k :: 0 <= k < |w.towers| ==>
              r.world.towers[k].pos == w.towers[k].pos && r.world.towers[k].kind == w.towers[k].kind
    ensures !w.playing ==> r.spawned.None? && !r.cleared
    ensures w.playing ==>
              var p := Prepare(w, draw);
              && r.spawned == p.spawned && r.cleared == p.cleared
              && r.world.queue == p.world.queue && r.world.wave == p.world.wave
              && r.world.frame == p.world.frame
  {
    if !w.playing then TickResult(w, None, false, [], 0)
    else
      var p := Prepare(w, draw);
      CombatPreservesValid(p.world, step);
      CombatKeepsEnemiesSound(p.world, step);
      LaterTransitive(w.table, p.world.table, Combat(p.world, step).world.table);
      var c := Combat(p.world, step);
      TickResult(c.world, p.spawned, p.cleared, c.kills, c.escapes)
  }

  /** Scheduling does not change how many live enemies stand on their last
      waypoint: a freshly spawned enemy starts on the first of eight. */
  lemma PrepareKeepsExits(w: World, draw: nat -> real)
    requires Valid(w)
    ensures var p := Prepare(w, draw);
      ExitCount(p.world.enemies, p.world.table, Path) == ExitCount(w.enemies, w.table, Path)
  {
    var p := Prepare(w, draw);
    if p.spawned.Some? {
      var n := w.nextId;
      var t := w.table[n := Spawned(w.queue[0], Path)];
      assert p.world.enemies == w.enemies + [n] && p.world.table == t;
      forall k | 0 <= k < |w.enemies|
        ensures AtExit(t, Path, w.enemies[k]) == AtExit(w.table, Path, w.enemies[k])
      {
        assert w.enemies[k] in w.table;
      }
      ExitCountAgree(w.enemies, t, w.table, Path);
      assert (w.enemies + [n])[..|w.enemies|] == w.enemies;
      assert !AtExit(t, Path, n);
    }
  }

  /** Every kill a tick credits is of an enemy that was not already dead
      before the tick (or spawned during it) and is dead after it, paying its
      variant's reward; no enemy is credited twice. */
  lemma TickCreditsKills(w: World, step: Stepper, draw: nat -> real)
    requires Valid(w)
    ensures var r := Tick(w, step, draw);
      KillsFresh(r.kills, w.table, r.world.table) && DistinctKills(r.kills)
  {
    if w.playing {
      CombatCreditsKills(w.table, Prepare(w, draw).world, step);
    }
  }

  /** A tick credits every enemy it kills: an enemy that ends the tick with
      no health left, and was not already dead before it (or was spawned
      during it), is among the kills. */
  lemma TickCreditsEveryKill(w: World, step: Stepper, draw: nat -> real)
    requires Valid(w)
    ensures var r := Tick(w, step, draw);
      forall id :: (id in r.world.table && r.world.table[id].health <= 0
                    && (id in w.table ==> !Dead(w.table, id))) ==> KilledIn(r.kills, id)
  {
    if w.playing {
      var p := Prepare(w, draw);
      CombatCreditsEveryKill(p.world, step);
      assert Tick(w, step, draw).kills == Combat(p.world, step).kills;
      assert Tick(w, step, draw).world.table == Combat(p.world, step).world.table;
      forall id | id in p.world.table && (id in w.table ==> !Dead(w.table, id))
        ensures !Dead(p.world.table, id)
      {
        if id !in w.table {
          assert p.world.table[id] == Spawned(w.queue[0], Path);
        }
      }
    }
  }

  /** A running tick costs one life for every live enemy that stood on its
      last waypoint when the tick began, killed or not. */
  lemma TickCountsEscapes(w: World, step: Stepper, draw: nat -> real)
    requires Valid(w)
    ensures w.playing ==> Tick(w, step, draw).escapes == ExitCount(w.enemies, w.table, Path)
  {
    if w.playing {
      PrepareKeepsExits(w, draw);
      CombatCountsEscapes(Prepare(w, draw).world, step);
    }
  }
}
