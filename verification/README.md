# Tower defense: the simulation core in Dafny

A model of the simulation core of a browser tower-defense game. Enemies of
three variants (Normal, Fast, Tank) walk a fixed eight-waypoint path. The
player buys towers (Cannon, Sniper, Gatling) and places them on the field.
Towers lock on to the nearest enemy in range and fire homing projectiles.
Kills pay rewards; escapes cost lives; a cleared wave pays a bonus and
queues the next, larger wave.

The model covers the entity updates of `src/GameClasses.js` (enemy movement,
projectile homing and hit resolution, tower targeting and cooldown, the stat
tables) and the game loop and click handler of `src/App.jsx` (the wave
queue, spawning every 60 ticks, wave clearing, the four phases of a tick,
compaction of the projectile and enemy lists, the economy, tower placement).

How the model is laid out:

- `geometry.dfy` (`Geometry`): points and squared distances. Every `Math.hypot`
  comparison in the game is stated exactly on squared distances. The
  floating-point homing step is a parameter of type `Stepper`.
- `stats.dfy` (`Stats`): the variant stat tables and the starting money and lives.
- `collections.dfy` (`Collections`): `Option`, distinctness, and `Keep`
  (order-preserving removal, the net effect of removing with `splice`).
- `enemy.dfy` (`Enemies`): enemies and the enemy phase.
  - JavaScript projectiles and towers hold object references. In the model,
    enemies therefore live in an id-indexed table that never shrinks; the
    live list holds ids.
  - `Later` is the relation between a table and any later table: no id
    lost, no variant changed, no flag cleared, no health regained.
- `projectile.dfy` (`Projectiles`): projectile update and the projectile phase
  as a sweep from the back of the list, with the kills it credits.
- `splice.dfy` (`Splicing`): the projectile phase as the game runs it. This is
  an in-place loop from the back that splices each finished projectile out at
  once. It is proved equal to the sweep-then-filter description.
- `tower.dfy` (`Towers`): targeting, the cooldown timer, firing, and the
  tower phase.
- `wave.dfy` (`Waves`): the wave composition.
- `game.dfy` (`Game`): the world state, its well-formedness invariant `Valid`,
  spawning, wave clearing and one tick of the loop.
- `placement.dfy` (`Placement`): the click handler that builds towers.
- `sessions.dfy` (`Sessions`): ticks and clicks interleaved over a whole
  session. It proves the invariants that span many events: game over is
  final, towers stay spaced apart, every kill paid is of an enemy alive at
  the start and no kill is paid twice, and money is accounted for exactly.
  Each single event pays for every enemy it kills.

Parameters that stand for what the model does not compute:

- `step: Stepper` is the unit-vector step `from + (to - from)/|to - from| * speed`.
- `draw: nat -> real` gives the successive results of `Math.random` during one
  wave set-up.

Behaviour of the code that the model keeps as it is:

- Health can go negative: a hit subtracts the full damage
  (`src/GameClasses.js:150`).
- A projectile that kills its target does not flag itself; only a plain hit
  does (`src/GameClasses.js:151-156`). The killing projectile is dropped on
  its next update, when it sees its target flagged, and it pays nothing then.
- Collision is tested before the projectile moves, with a strict `<` against
  `speed + radius` (`src/GameClasses.js:149`).
- The React `gameOver` state and the loop's `isPlaying` flag are set together
  (`src/App.jsx:127-130`). They are one `playing` flag here, and the state
  updaters are applied at once rather than at the next render.
- An enemy killed earlier in the same tick still takes its move in the enemy
  phase. If it is on its last waypoint it escapes and costs a life
  (`src/App.jsx:119-134`): nothing in that loop checks health.

## Model

| member | source | states |
|---|---|---|
| Stats.EnemyStatsOf | src/GameClasses.js:101-117 | every enemy variant has positive speed, health, reward and radius; the radius is the default of 15 exactly for Normal, the one variant that names none |
| Stats.TowerStatsOf | src/GameClasses.js:273-325 | every tower variant has positive range, cooldown, cost, projectile speed and damage |
| Enemies.Spawned | src/GameClasses.js:43-54 | a new enemy stands on the first waypoint with path index 0, full (positive) health and no deletion flag |
| Enemies.EnemyUpdate | src/GameClasses.js:56-75 | escapes exactly when no waypoint follows, and then only sets its flag; otherwise the path index rises by one exactly when the next waypoint is closer than the speed, snapping onto it; health never changes; the index stays on the path |
| Enemies.MarchProgress | src/GameClasses.js:56-75 | over n updates the path index rises by at most n, never decreases, stays on the path, and health is unchanged |
| Enemies.EnemySweep | src/App.jsx:119-135 | entries of enemies not in the list are untouched; lives drop by exactly the escapes counted; play stops exactly when an escape brings lives to zero or below |
| Enemies.SweepCountsEscapes | src/App.jsx:119-133 | the escapes counted are exactly the listed enemies standing on the last waypoint |
| Enemies.SweepKeepsUnflagged | src/App.jsx:134 | the list after the sweep is the listed enemies not flagged after their update, in the original order |
| Enemies.SurvivorsAreListed | src/App.jsx:134 | an id survives compaction if and only if it was listed, is in the table and is not flagged |
| Enemies.SweepUpdatesEach | src/App.jsx:119-122 | each listed enemy's new entry is its own update applied to its old entry |
| Enemies.SweepSurvivorsLive | src/App.jsx:119-135 | after the enemy phase the list is still distinct and holds only unflagged table entries |
| Projectiles.Shot | src/GameClasses.js:124-133 | a new projectile starts at the tower, aims at the given target with the tower's projectile speed and damage, with an empty trail and no flag |
| Projectiles.PushTrail | src/GameClasses.js:142-143 | the trail ends with the pushed point and keeps the newest older points in order; it grows by one until it holds 5, then keeps its length by dropping the oldest |
| Projectiles.ProjectileUpdate | src/GameClasses.js:135-162 | a flagged or non-positive target makes the projectile retire with no effect; otherwise contact (distance below speed plus radius) takes away exactly the damage, reporting a kill with the target's reward iff health drops to zero or below; a kill flags the target but not the projectile, a hit flags the projectile; without contact the projectile homes and nothing else changes |
| Projectiles.ProjectileSweep | src/App.jsx:107-116 | the phase changes no enemy's path position, keeps every table id, and only kills or damages enemies |
| Projectiles.SweepKeepsAim | src/App.jsx:107-109 | each projectile keeps its target and a bounded trail through the phase |
| Projectiles.SweepKillsWereAlive | src/App.jsx:107-114 | every kill credited was of an enemy alive before the phase and flagged after it, and pays that enemy's reward |
| Projectiles.SweepKillsDistinct | src/App.jsx:107-114 | no enemy is credited twice in one phase |
| Projectiles.SweepMissesNoKill | src/App.jsx:107-114 | every enemy the phase kills is credited |
| Projectiles.SweepSurvivorsSound | src/App.jsx:115 | the projectiles kept after the phase are unflagged, aim at table entries and have bounded trails |
| Splicing.SpliceOut | src/App.jsx:115 | removing index i shifts the later elements down by one and leaves the earlier ones alone |
| Splicing.UpdateAt | src/App.jsx:108-115 | one loop iteration leaves the entries below index i - 1 alone, replaces the projectile at i - 1 by its update or splices it out if the update flagged it, takes the updated table, and returns the reward of a kill (0 otherwise); what is left of the pass goes on from there |
| Splicing.PassIsSweep | src/App.jsx:107-116 | running the in-place loop over a prefix gives the sweep's kept projectiles, table and kills for that prefix and leaves the rest of the list alone |
| Splicing.ResolveProjectiles | src/App.jsx:107-116 | the in-place loop ends with exactly the sweep's kept projectiles and table, and the money it adds is the sweep's total bounty |
| Towers.Placed | src/GameClasses.js:192-202 | a placed tower has no target and a timer already at its cooldown |
| Towers.NearestIndex | src/GameClasses.js:226-237 | finds nothing exactly when no enemy is in range; otherwise finds an enemy in range at least as near as every other in range and strictly nearer than every earlier one |
| Towers.FindTarget | src/GameClasses.js:226-237 | finds nothing exactly when no listed enemy is in range; otherwise a listed enemy in range that is at least as near as every other in range |
| Towers.TowerUpdate | src/GameClasses.js:204-224 | keeps a target that is unflagged and in range, else re-targets; fires exactly when a target exists and the incremented timer reaches the cooldown, resetting the timer; otherwise the timer counts up |
| Towers.TowersPhase | src/App.jsx:100-103 | each tower is updated against the same enemies and keeps its place; shots are fresh, unflagged and aim at table entries |
| Towers.TowersPhaseShots | src/App.jsx:100-103 | the shots of the tower phase are exactly the shots of its towers, read front to back |
| Towers.ShotsSplit | src/GameClasses.js:219-221 | the shots of two groups of towers are the first group's followed by the second's |
| Towers.ShotsInTowerOrder | src/GameClasses.js:219-221 | each tower adds exactly one projectile if it fires and none otherwise, after the shots of the towers before it and before those after it |
| Towers.QuietCharges | src/GameClasses.js:205 | a tower that does not fire gains one timer tick per update |
| Towers.FireSpacing | src/GameClasses.js:219-221 | after firing, a tower fires again no sooner than its cooldown allows |
| Towers.FirstShotIsImmediate | src/GameClasses.js:196 | a newly placed tower fires on the first update in which it has a target |
| Towers.IdleTowerNeverFires | src/GameClasses.js:204-213 | a tower that never sees an enemy in range never fires and keeps charging |
| Waves.Classify | src/App.jsx:46-49 | a draw below 0.5 gives Normal, below 0.8 gives Fast, otherwise Tank |
| Waves.Drawn | src/App.jsx:44-50 | the i-th queued variant is the classification of the i-th draw |
| Waves.SetupWave | src/App.jsx:31-51 | wave 1 is ten Normal; wave 2 is ten Normal then five Fast; a later wave n has 15 + 2n random variants |
| Waves.WaveSizeIgnoresDraws | src/App.jsx:44-45 | the size of a wave from the third on does not depend on the draws |
| Game.SpawnTickIsMultiple | src/App.jsx:79 | the spawn ticks are exactly the tick counts divisible by 60 |
| Game.Initial | src/App.jsx:12-28 | the game starts valid and running in wave 1 with ten Normal queued, 350 money and 20 lives |
| Game.Spawn | src/App.jsx:79-86 | on a spawn tick with a non-empty queue the front variant enters at the path start under a fresh id; otherwise nothing changes |
| Game.ClearWave | src/App.jsx:89-95 | once nothing is alive or queued after tick 200, the next wave is queued, the count restarts and 100 is paid; otherwise nothing changes |
| Game.Prepare | src/App.jsx:68-95 | the tick count advances first; spawning and clearing are decided on the advanced count with the queue and live list of the tick's start; only the wave bonus changes money |
| Game.InFlight | src/App.jsx:100-103 | every projectile the phase sees aims at a table entry and has a bounded trail; the ones fired this tick are fresh |
| Game.InFlightOrder | src/App.jsx:100-107 | the projectile phase sees the projectiles already in flight, unchanged and in place, followed by this tick's shots in tower order |
| Game.Combat | src/App.jsx:97-135 | the towers keep their positions and variants; money rises by the bounty and lives fall by the escapes; play stops exactly when lives run out |
| Game.CombatKeepsEnemiesSound | src/App.jsx:115-134 | after combat the live list is distinct and holds only unflagged enemies |
| Game.CombatKeepsProjectilesSound | src/App.jsx:107-116 | after combat every projectile is unflagged, aims at a table entry and has a bounded trail |
| Game.CombatKeepsSolvent | src/App.jsx:112-114 | combat never makes money negative |
| Game.CombatCreditsKills | src/App.jsx:112-114 | every kill credited is of an enemy alive at the start and dead at the end, and none twice |
| Game.CombatCreditsEveryKill | src/App.jsx:107-135 | every enemy alive when combat began that ends it with no health is among the kills credited |
| Game.CombatCountsEscapes | src/App.jsx:119-133 | the escapes are exactly the live enemies on the last waypoint when combat began, killed or not |
| Game.CombatPreservesValid | src/App.jsx:97-135 | combat keeps the world well formed |
| Game.Tick | src/App.jsx:67-138 | a stopped game is left alone; a running tick keeps the world valid, pays bonus plus bounty, costs one life per escape, and stops exactly when lives run out |
| Game.PrepareKeepsExits | src/App.jsx:79-86 | spawning does not change how many live enemies stand on the last waypoint |
| Game.TickCreditsKills | src/App.jsx:107-116 | every kill a tick credits is of an enemy not dead before the tick and dead after it, paying its reward, and none is credited twice |
| Game.TickCreditsEveryKill | src/App.jsx:77-135 | every enemy that ends a tick with no health, and was alive before it or spawned during it, is among the kills credited |
| Game.TickCountsEscapes | src/App.jsx:119-133 | a running tick's escapes are the live enemies on the last waypoint at its start |
| Placement.Judge | src/App.jsx:170-190 | a tower is built exactly when the game runs, the money covers the cost and no tower stands closer than 45; the refusal reasons are told apart |
| Placement.Place | src/App.jsx:176-185 | a build appends the new tower and debits its cost; a refused click changes nothing |
| Placement.PlaceKeepsSpacing | src/App.jsx:180-183 | placing keeps every two towers at least 45 apart |
| Placement.PlaceConservesMoney | src/App.jsx:183-184 | money plus the cost of all towers is unchanged by a click |
| Placement.TickKeepsTowers | src/App.jsx:100-103 | a tick neither moves, adds nor removes towers, so spacing and tower value are kept |
| Sessions.Apply | src/App.jsx:67-190 | one frame or click keeps the world valid and the towers spaced, only stops the game, credits each kill once, and balances the money |
| Sessions.ApplyCreditsEveryKill | src/App.jsx:107-116 | every enemy a frame or click leaves with no health, and that was alive before it or is new, is among the kills credited |
| Sessions.Run | src/App.jsx:137-140 | a session keeps the world valid and costs one life per escape |
| Sessions.RunGameOverIsFinal | src/App.jsx:68 | once the game is over, no frame or click changes anything, and a stopped game never restarts |
| Sessions.RunKeepsSpacing | src/App.jsx:180-183 | towers stay at least 45 apart over a whole session |
| Sessions.RunCreditsKills | src/App.jsx:112-114 | over a session every kill paid is of an enemy not already dead at the start (or spawned later) and dead at the end, paying its reward, and none is paid twice |
| Sessions.RunBalancesMoney | src/App.jsx:94 | final money plus tower value equals starting money plus tower value, plus 100 per wave cleared, plus the rewards of the credited kills |

## Left out

- Drawing: every `draw` method, the map decorations and path rendering, the canvas, shadows and colours, the health bar and the trail effect. They do not change the simulation state.
- The turret angle (`Math.atan2`). It is only read by drawing.
- The homing step's square root and floating-point rounding. It is the `Stepper` parameter. Distance comparisons are exact on reals rather than IEEE doubles.
- `Math.random`. Its results for one wave are the `draw` parameter.
- React's asynchronous state updates and re-rendering. Updates take effect at once, which matches the order the loop applies them in.
- `requestAnimationFrame` and its cancellation. A session is a sequence of frames and clicks.
- The canvas-coordinate conversion of a click. A click carries its field position.
- The tower selection buttons. A click carries the selected variant.
- The "not enough money" console message. It is a `Verdict`, `Unaffordable`.
- The unused asset table and loader. They have no behaviour.
- Sessions.Run: one `Stepper` serves the whole session. The real step is a fixed function of its inputs, so this loses nothing.
- Sessions.RunCreditsKills: does not state that every enemy killed during a whole session is paid for, only that what is paid is genuine and never twice. Completeness is proved for each single event (Sessions.ApplyCreditsEveryKill). Chaining it across events would also need a proof that a flagged enemy's health never changes, because an escaped enemy is flagged with health left.
- Projectiles.ProjectileSweep: the full per-projectile behaviour of the sweep is stated through `Splicing` and the kill lemmas, not on the sweep itself.
