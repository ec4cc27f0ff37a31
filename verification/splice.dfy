/** The projectile phase as the game loop runs it: one pass over the list
    from the last index down, updating each projectile where it stands and
    splicing it out of the list at once when it has flagged itself. */
module Splicing {
  import opened Geometry
  import opened Collections
  import opened Enemies
  import opened Projectiles

  /** Removes the entry at index `i`, like `Array.prototype.splice(i, 1)`. */
  function SpliceOut<T>(xs: seq<T>, i: nat): (r: seq<T>)
    requires i < |xs|
    ensures |r| == |xs| - 1
    ensures forall k :: 0 <= k < i ==> r[k] == xs[k]
    ensures forall k :: i <= k < |r| ==> r[k] == xs[k + 1]
  {
    xs[..i] + xs[i + 1..]
  }

  /** Peeling the last projectile off a sweep: it is updated first, against
      the table as given, and the others are swept against the table it
      leaves. */
  lemma SweepLast(ps: seq<Projectile>, t: Table, step: Stepper)
    requires |ps| > 0 && forall k :: 0 <= k < |ps| ==> ps[k].target in t
    ensures var u := ProjectileUpdate(ps[|ps| - 1], t, step);
      var s := ProjectileSweep(ps, t, step);
      var rest := ProjectileSweep(ps[..|ps| - 1], u.table, step);
      && s.table == rest.table
      && Keep(s.updated, Retired) == Keep(rest.updated, Retired) + (if u.proj.marked then [] else [u.proj])
      && Bounty(s.kills) == (if u.report.Killed? then u.report.reward else 0) + Bounty(rest.kills)
  {
    var n := |ps| - 1;
    var u := ProjectileUpdate(ps[n], t, step);
    var rest := ProjectileSweep(ps[..n], u.table, step);
    var kill := if u.report.Killed? then [Kill(ps[n].target, u.report.reward)] else [];
    assert ProjectileSweep(ps, t, step) == Sweep(rest.updated + [u.proj], rest.table, kill + rest.kills);
    KeepSnoc(rest.updated, u.proj, Retired);
    BountyAppend(kill, rest.kills);
    if kill != [] {
      assert Bounty(kill) == u.report.reward + Bounty([]);
    }
  }

  /** The entry at `i - 1` updated where it stands, then spliced out if it
      flagged itself. */
  function Advance(ps: seq<Projectile>, i: nat, u: Projectile): (r: seq<Projectile>)
    requires 0 < i <= |ps|
    ensures |r| >= i - 1 && r[..i - 1] == ps[..i - 1]
    ensures r[i - 1..] == (if u.marked then [] else [u]) + ps[i..]
  {
    var q := ps[i - 1 := u];
    assert q[..i - 1] == ps[..i - 1] && q[i..] == ps[i..];
    if u.marked then SpliceOut(q, i - 1) else q
  }

  lemma Regroup<T>(before: seq<T>, after: seq<T>, x: seq<T>, tail: seq<T>, tail': seq<T>)
    requires before == after + x && tail' == x + tail
    ensures before + tail == after + tail'
  {
  }

  /** What the pass leaves: the list, the enemy table, and the kills in the
      order they happened. */
  datatype Outcome = Outcome(ps: seq<Projectile>, table: Table, kills: seq<Kill>)

  /** The kill an update reports, if any. */
  function Credit(target: Id, report: Report): (ks: seq<Kill>)
    ensures |ks| <= 1 && Bounty(ks) == (if report.Killed? then report.reward else 0)
  {
    if report.Killed? then [Kill(target, report.reward)] else []
  }

  /** The pass from index `i` down, one entry at a time: update the entry
      where it stands, splice it out if it flagged itself, go one lower. */
  function Pass(ps: seq<Projectile>, i: nat, t: Table, step: Stepper): (o: Outcome)
    requires i <= |ps| && forall k :: 0 <= k < i ==> ps[k].target in t
    ensures o.table.Keys == t.Keys
    decreases i
  {
    if i == 0 then Outcome(ps, t, [])
    else
      var u := ProjectileUpdate(ps[i - 1], t, step);
      var o := Pass(Advance(ps, i, u.proj), i - 1, u.table, step);
      Outcome(o.ps, o.table, Credit(ps[i - 1].target, u.report) + o.kills)
  }

  /** The pass over the entries of `pre`, with `post` above them, ends with
      the sweep-then-filter description of `pre` followed by `post`,
      untouched, and makes the same kills in the same order. */
  lemma {:induction false} PassIsSweep(pre: seq<Projectile>, post: seq<Projectile>, t: Table, step: Stepper)
    requires forall k :: 0 <= k < |pre| ==> pre[k].target in t
    decreases |pre|
    ensures Pass(pre + post, |pre|, t, step).ps == Keep(ProjectileSweep(pre, t, step).updated, Retired) + post
    ensures Pass(pre + post, |pre|, t, step).table == ProjectileSweep(pre, t, step).table
    ensures Pass(pre + post, |pre|, t, step).kills == ProjectileSweep(pre, t, step).kills
  {
    var ps := pre + post;
    var i := |pre|;
    if i == 0 {
      assert pre == [] && ps == post;
    } else {
      var u := ProjectileUpdate(pre[i - 1], t, step);
      var x := if u.proj.marked then [] else [u.proj];
      assert ps[i - 1] == pre[i - 1] && ps[..i] == pre && ps[i..] == post;
      assert Advance(ps, i, u.proj) == pre[..i - 1] + (x + post);
      PassIsSweep(pre[..i - 1], x + post, u.table, step);
      SweepLast(pre, t, step);
      Regroup(Keep(ProjectileSweep(pre, t, step).updated, Retired),
              Keep(ProjectileSweep(pre[..i - 1], u.table, step).updated, Retired),
              x, post, x + post);
    }
  }

  /** One step of the pass: the entry at `i - 1` is updated and spliced,
      its kill credited, and the rest of the pass runs one index lower
      against the table the update left. */
  lemma PassStep(ps: seq<Projectile>, i: nat, t: Table, step: Stepper)
    requires 0 < i <= |ps| && forall k :: 0 <= k < i ==> ps[k].target in t
    ensures var u := ProjectileUpdate(ps[i - 1], t, step);
      var next := Advance(ps, i, u.proj);
      && i - 1 <= |next| && (forall k :: 0 <= k < i - 1 ==> next[k].target in u.table)
      && var o := Pass(next, i - 1, u.table, step);
         Pass(ps, i, t, step) == Outcome(o.ps, o.table, Credit(ps[i - 1].target, u.report) + o.kills)
  {
    var u := ProjectileUpdate(ps[i - 1], t, step);
    var next := Advance(ps, i, u.proj);
    assert forall k :: 0 <= k < i - 1 ==> next[k] == next[..i - 1][k] == ps[k];
  }

  /** The whole pass ends with the sweep-then-filter description. */
  lemma PassWhole(ps: seq<Projectile>, t: Table, step: Stepper)
    requires forall k :: 0 <= k < |ps| ==> ps[k].target in t
    ensures var s := ProjectileSweep(ps, t, step);
      Pass(ps, |ps|, t, step) == Outcome(Keep(s.updated, Retired), s.table, s.kills)
  {
    PassIsSweep(ps, [], t, step);
    assert ps + [] == ps;
  }

  /** Crediting one more update's kills keeps the running total equal to
      the bounty of the kills credited so far. */
  lemma Ledger(credited: seq<Kill>, kill: seq<Kill>, rest: seq<Kill>, gained: int)
    requires gained == Bounty(credited)
    ensures gained + Bounty(kill) == Bounty(credited + kill)
    ensures credited + (kill + rest) == (credited + kill) + rest
  {
    BountyAppend(credited, kill);
  }

  /** One iteration of the game loop's projectile phase: the projectile at
      `i - 1` is updated where it stands and spliced out of the list at once
      if it flagged itself; a kill's reward is returned. What is left of the
      pass then runs one index lower. */
  method UpdateAt(ps: seq<Projectile>, i: nat, t: Table, step: Stepper)
    returns (ps': seq<Projectile>, t': Table, reward: int, ghost kill: seq<Kill>, ghost rest: Outcome)
    requires 0 < i <= |ps| && forall k :: 0 <= k < i ==> ps[k].target in t
    ensures i - 1 <= |ps'| && forall k :: 0 <= k < i - 1 ==> ps'[k].target in t'
    // the projectile at i - 1 is updated where it stands and spliced out if
    // it flagged itself; the entries below it are untouched
    ensures var u := ProjectileUpdate(ps[i - 1], t, step);
      && ps'[..i - 1] == ps[..i - 1]
      && ps'[i - 1..] == (if u.proj.marked then [] else [u.proj]) + ps[i..]
      && t' == u.table
      && reward == (if u.report.Killed? then u.report.reward else 0)
    // and what is left of the pass continues from there
    ensures rest == Pass(ps', i - 1, t', step)
    ensures Pass(ps, i, t, step) == Outcome(rest.ps, rest.table, kill + rest.kills)
    ensures reward == Bounty(kill)
  {
    var u := ProjectileUpdate(ps[i - 1], t, step);
    PassStep(ps, i, t, step);
    kill := Credit(ps[i - 1].target, u.report);
    ps' := ps[i - 1 := u.proj];
    if u.proj.marked {
      ps' := SpliceOut(ps', i - 1);
    }
    assert ps' == Advance(ps, i, u.proj);
    reward := 0;
    if u.report.Killed? {
      reward := u.report.reward;
    }
    t' := u.table;
    rest := Pass(ps', i - 1, t', step);
  }

  /** Updates and compacts the list in place and adds up the rewards of the
      kills. It ends with the projectiles, enemy table and bounty of the
      sweep-then-filter description of the phase. */
  method ResolveProjectiles(ps0: seq<Projectile>, t0: Table, step: Stepper)
    returns (ps: seq<Projectile>, t: Table, gained: int)
    requires forall k :: 0 <= k < |ps0| ==> ps0[k].target in t0
    ensures var all := ProjectileSweep(ps0, t0, step);
      ps == Keep(all.updated, Retired) && t == all.table && gained == Bounty(all.kills)
  {
    ps, t, gained := ps0, t0, 0;
    var i := |ps0|;
    ghost var whole := Pass(ps0, |ps0|, t0, step);
    ghost var rem := whole;
    ghost var credited: seq<Kill> := [];
    while i > 0
      invariant 0 <= i <= |ps| && forall k :: 0 <= k < i ==> ps[k].target in t
      invariant rem == Pass(ps, i, t, step)
      invariant rem.ps == whole.ps && rem.table == whole.table
      invariant credited + rem.kills == whole.kills
      invariant gained == Bounty(credited)
      decreases i
    {
      var reward;
      ghost var kill;
      ghost var rest;
      ps, t, reward, kill, rest := UpdateAt(ps, i, t, step);
      Ledger(credited, kill, rest.kills, gained);
      gained := gained + reward;
      credited := credited + kill;
      rem := rest;
      i := i - 1;
    }
    assert rem == Outcome(ps, t, []);
    assert credited + [] == credited;
    PassWhole(ps0, t0, step);
  }
}
