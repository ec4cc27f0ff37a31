/** Building towers: a click on the field places the selected variant there
    when the game is running, the player can pay for it, and no tower stands
    within 45 pixels of the spot. */
module Placement {
  import opened Geometry
  import opened Stats
  import opened Towers
  import opened Game

  /** Some tower stands strictly closer than the minimum spacing to `at`. */
  predicate Crowded(ts: seq<Tower>, at: Point)
  {
    exists k :: 0 <= k < |ts| && Closer(ts[k].pos, at, MinSpacing)
  }

  /** No two towers stand strictly closer than the minimum spacing. */
  predicate WellSpaced(ts: seq<Tower>)
  {
    forall i, j :: 0 <= i < j < |ts| ==> !Closer(ts[i].pos, ts[j].pos, MinSpacing)
  }

  /** What a click at `at` with variant `kind` selected does. */
  datatype Verdict = Stopped | Unaffordable | Overlapping | Built

  /** The click is judged in the order the game checks: a finished game
      ignores it, then the price is checked, then the spacing. */
  function Judge(w: World, at: Point, kind: TowerKind): (v: Verdict)
    ensures v == Built <==>
              w.playing && w.money >= TowerStatsOf(kind).cost && !Crowded(w.towers, at)
    ensures v == Unaffordable ==> w.playing && w.money < TowerStatsOf(kind).cost
    ensures v == Overlapping ==> Crowded(w.towers, at)
  {
    if !w.playing then Stopped
    else if w.money < TowerStatsOf(kind).cost then Unaffordable
    else if Crowded(w.towers, at) then Overlapping
    else Built
  }

  /** The money paid for a list of towers. */
  function Spent(ts: seq<Tower>): nat
  {
    if ts == [] then 0 else ts[0].Cost() + Spent(ts[1..])
  }

  /** Adding a tower adds its price to the total paid. */
  lemma {:induction false} SpentSnoc(ts: seq<Tower>, tw: Tower)
    ensures Spent(ts + [tw]) == Spent(ts) + tw.Cost()
  {
    if ts != [] {
      assert (ts + [tw])[1..] == ts[1..] + [tw];
      SpentSnoc(ts[1..], tw);
    }
  }

  /** Lists of towers of the same variants, position by position, cost the
      same: a tick changes timers and targets but never a variant. */
  lemma {:induction false} SpentAgree(a: seq<Tower>, b: seq<Tower>)
    requires |a| == |b| && forall k :: 0 <= k < |a| ==> a[k].kind == b[k].kind
    ensures Spent(a) == Spent(b)
  {
    if a != [] {
      SpentAgree(a[1..], b[1..]);
    }
  }

  /** The click handler. A built tower is added at the end of the tower list
      and its price is taken from the money; any other verdict leaves the
      state alone. */
  function Place(w: World, at: Point, kind: TowerKind): (r: World)
    requires Valid(w)
    ensures Valid(r)
    ensures Judge(w, at, kind) != Built ==> r == w
    ensures Judge(w, at, kind) == Built ==>
              && r.towers == w.towers + [Placed(kind, at)]
              && r.money == w.money - TowerStatsOf(kind).cost
              && r == w.(towers := r.towers, money := r.money)
  {
    if Judge(w, at, kind) == Built then
      var r := w.(towers := w.towers + [Placed(kind, at)], money := w.money - TowerStatsOf(kind).cost);
      assert forall k :: 0 <= k < |w.towers| ==> r.towers[k] == w.towers[k];
      r
    else
      w
  }

  /** Placing a tower keeps the towers spaced out: the new one is built only
      where no tower is within the minimum spacing. */
  lemma PlaceKeepsSpacing(w: World, at: Point, kind: TowerKind)
    requires Valid(w)
    ensures WellSpaced(w.towers) ==> WellSpaced(Place(w, at, kind).towers)
  {
    var r := Place(w, at, kind);
    if Judge(w, at, kind) == Built && WellSpaced(w.towers) {
      forall i, j | 0 <= i < j < |r.towers|
        ensures !Closer(r.towers[i].pos, r.towers[j].pos, MinSpacing)
      {
        assert r.towers[i] == w.towers[i];
        if j == |w.towers| {
          assert r.towers[j].pos == at;
        } else {
          assert r.towers[j] == w.towers[j];
        }
      }
    }
  }

  /** Building moves money into towers and never creates or loses any: the
      money plus the price of every tower stays the same. */
  lemma PlaceConservesMoney(w: World, at: Point, kind: TowerKind)
    requires Valid(w)
    ensures var r := Place(w, at, kind);
      r.money + Spent(r.towers) == w.money + Spent(w.towers)
  {
    SpentSnoc(w.towers, Placed(kind, at));
  }

  /** A tick keeps the towers where they are, so it keeps them spaced out,
      and keeps their variants, so it keeps the total paid for them. */
  lemma TickKeepsTowers(w: World, step: Stepper, draw: nat -> real)
    requires Valid(w)
    ensures var r := Tick(w, step, draw).world;
      (WellSpaced(w.towers) ==> WellSpaced(r.towers)) && Spent(r.towers) == Spent(w.towers)
  {
    SpentAgree(Tick(w, step, draw).world.towers, w.towers);
  }
}
