/** A whole session: the game loop's ticks interleaved with the player's
    clicks, applied one after another to the same state. */
module Sessions {
  import opened Geometry
  import opened Stats
  import opened Enemies
  import opened Projectiles
  import opened Towers
  import opened Game
  import opened Placement

  /** One event: an animation frame (with the random draws its tick may
      consume) or a click on the field with a tower variant selected. */
  datatype Input = Frame(draw: nat -> real) | Click(at: Point, kind: TowerKind)

  /** The state after some events, the kills credited and the escapes
      counted along the way. */
  datatype Session = Session(world: World, kills: seq<Kill>, escapes: nat)

  /** The money the player ends with and has spent on towers, against the
      money started with and spent before: the difference is exactly the wave
      bonuses (one per wave cleared) and the kill rewards. */
  predicate Balanced(w: World, s: Session)
  {
    s.world.money + Spent(s.world.towers)
      == w.money + Spent(w.towers) + WaveBonus * (s.world.wave - w.wave) + Bounty(s.kills)
  }

  /** One event. */
  function Apply(w: World, step: Stepper, input: Input): (s: Session)
    requires Valid(w)
    ensures Valid(s.world) && Later(w.table, s.world.table)
    ensures s.world.lives == w.lives - s.escapes
    ensures s.world.playing ==> w.playing
    ensures !w.playing ==> s == Session(w, [], 0)
    ensures WellSpaced(w.towers) ==> WellSpaced(s.world.towers)
    ensures KillsFresh(s.kills, w.table, s.world.table) && DistinctKills(s.kills)
    ensures Balanced(w, s)
  {
    match input
    case Frame(draw) =>
      var t := Tick(w, step, draw);
      TickKeepsTowers(w, step, draw);
      TickCreditsKills(w, step, draw);
      Session(t.world, t.kills, t.escapes)
    case Click(at, kind) =>
      PlaceKeepsSpacing(w, at, kind);
      PlaceConservesMoney(w, at, kind);
      Session(Place(w, at, kind), [], 0)
  }

  /** Every enemy an event kills is credited: a click kills nothing, and a
      frame credits every enemy its tick kills. */
  lemma ApplyCreditsEveryKill(w: World, step: Stepper, input: Input)
    requires Valid(w)
    ensures var s := Apply(w, step, input);
      forall id :: (id in s.world.table && s.world.table[id].health <= 0
                    && (id in w.table ==> !Dead(w.table, id))) ==> KilledIn(s.kills, id)
  {
    match input
    case Frame(draw) =>
      TickCreditsEveryKill(w, step, draw);
      assert Apply(w, step, input).world == Tick(w, step, draw).world;
      assert Apply(w, step, input).kills == Tick(w, step, draw).kills;
    case Click(at, kind) =>
      assert Apply(w, step, input).world.table == w.table;
  }

  /** The events applied in order. */
  function Run(w: World, step: Stepper, inputs: seq<Input>): (r: Session)
    requires Valid(w)
    ensures Valid(r.world) && Later(w.table, r.world.table)
    ensures r.world.lives == w.lives - r.escapes
    decreases |inputs|
  {
    if inputs == [] then Session(w, [], 0)
    else
      var s := Apply(w, step, inputs[0]);
      var rest := Run(s.world, step, inputs[1..]);
      LaterTransitive(w.table, s.world.table, rest.world.table);
      Session(rest.world, s.kills + rest.kills, s.escapes + rest.escapes)
  }

  /** Game over is final: once the game has stopped, no frame and no click
      changes anything; and a stopped game never starts again. */
  lemma {:induction false} RunGameOverIsFinal(w: World, step: Stepper, inputs: seq<Input>)
    requires Valid(w)
    decreases |inputs|
    ensures !w.playing ==> Run(w, step, inputs) == Session(w, [], 0)
    ensures Run(w, step, inputs).world.playing ==> w.playing
  {
    if inputs != [] {
      var s := Apply(w, step, inputs[0]);
      RunGameOverIsFinal(s.world, step, inputs[1..]);
    }
  }

  /** No two towers ever stand closer than the minimum spacing. */
  lemma {:induction false} RunKeepsSpacing(w: World, step: Stepper, inputs: seq<Input>)
    requires Valid(w) && WellSpaced(w.towers)
    decreases |inputs|
    ensures WellSpaced(Run(w, step, inputs).world.towers)
  {
    if inputs != [] {
      var s := Apply(w, step, inputs[0]);
      RunKeepsSpacing(s.world, step, inputs[1..]);
      assert Run(w, step, inputs).world == Run(s.world, step, inputs[1..]).world;
    }
  }

  /** Over a whole session every credited kill is of an enemy that was not
      dead at the start and is dead at the end, paying its variant's reward,
      and no enemy is ever credited twice. */
  lemma {:induction false} RunCreditsKills(w: World, step: Stepper, inputs: seq<Input>)
    requires Valid(w)
    decreases |inputs|
    ensures var r := Run(w, step, inputs);
      KillsFresh(r.kills, w.table, r.world.table) && DistinctKills(r.kills)
  {
    if inputs != [] {
      var s := Apply(w, step, inputs[0]);
      var rest := Run(s.world, step, inputs[1..]);
      RunCreditsKills(s.world, step, inputs[1..]);
      KillsFreshChain(s.kills, rest.kills, w.table, s.world.table, rest.world.table);
    }
  }

  /** Money is only ever made by clearing waves and killing enemies, and
      only ever spent on towers. */
  lemma {:induction false} RunBalancesMoney(w: World, step: Stepper, inputs: seq<Input>)
    requires Valid(w)
    decreases |inputs|
    ensures Balanced(w, Run(w, step, inputs))
  {
    if inputs != [] {
      var s := Apply(w, step, inputs[0]);
      var rest := Run(s.world, step, inputs[1..]);
      RunBalancesMoney(s.world, step, inputs[1..]);
      BountyAppend(s.kills, rest.kills);
      assert Run(w, step, inputs) == Session(rest.world, s.kills + rest.kills, s.escapes + rest.escapes);
    }
  }
}
