/** The fixed stat bundles of the enemy and tower variants and the session's
    starting economy. Each variant is a tag with a constant record, in place
    of the subclass that passes the record to its parent constructor. */
module Stats {

  datatype EnemyKind = Normal | Fast | Tank

  datatype TowerKind = Cannon | Sniper | Gatling

  /** Movement speed (pixels per tick), starting and maximal health, kill
      reward and collision radius of an enemy variant. */
  datatype EnemyStats = EnemyStats(speed: real, health: nat, reward: nat, radius: real)

  /** What a tower's projectiles carry: homing speed and damage per hit. */
  datatype ShotStats = ShotStats(speed: real, damage: nat)

  /** Range (pixels), cooldown (ticks), price and projectile of a tower variant. */
  datatype TowerStats = TowerStats(range: real, cooldown: nat, cost: nat, shot: ShotStats)

  /** Radius an enemy gets when its variant names none. */
  const DefaultRadius: real := 15.0

  const StartingMoney: int := 350
  const StartingLives: int := 20

  function EnemyStatsOf(kind: EnemyKind): (s: EnemyStats)
    ensures s.speed > 0.0 && s.health > 0 && s.reward > 0 && s.radius > 0.0
    // only the Normal variant names no radius and so gets the default
    ensures s.radius == DefaultRadius <==> kind == Normal
  {
    match kind
    case Normal => EnemyStats(1.5, 100, 20, DefaultRadius)
    case Fast => EnemyStats(3.0, 60, 15, 12.0)
    case Tank => EnemyStats(0.8, 300, 50, 22.0)
  }

  /** The tower stat bundles. The price listed in the build menu is the same
      `cost` for every variant, so one table serves both. */
  function TowerStatsOf(kind: TowerKind): (s: TowerStats)
    ensures s.range > 0.0 && s.cooldown > 0 && s.cost > 0
    ensures s.shot.speed > 0.0 && s.shot.damage > 0
  {
    match kind
    case Cannon => TowerStats(150.0, 50, 100, ShotStats(6.0, 40))
    case Sniper => TowerStats(300.0, 120, 180, ShotStats(15.0, 150))
    case Gatling => TowerStats(100.0, 8, 220, ShotStats(8.0, 15))
  }
}
