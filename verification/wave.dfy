/** Wave composition. Waves 1 and 2 are fixed; every other wave is drawn at
    random. The random source is a parameter: `draw(i)` is the value the
    i-th call of the uniform generator in [0, 1) returns while the queue is
    built. */
module Waves {
  import opened Stats

  /** The variant a uniform draw selects: below 0.5 Normal, below 0.8 Fast,
      otherwise Tank. */
  function Classify(draw: real): (kind: EnemyKind)
    ensures kind == Normal <==> draw < 0.5
    ensures kind == Fast <==> 0.5 <= draw < 0.8
    ensures kind == Tank <==> 0.8 <= draw
  {
    if draw < 0.5 then Normal else if draw < 0.8 then Fast else Tank
  }

  /** `n` copies of one tag, pushed one at a time. */
  function Repeat(kind: EnemyKind, n: nat): (q: seq<EnemyKind>)
    ensures |q| == n && forall i :: 0 <= i < n ==> q[i] == kind
  {
    if n == 0 then [] else Repeat(kind, n - 1) + [kind]
  }

  /** `count` tags, the i-th one chosen by the i-th draw, pushed in order. */
  function Drawn(count: nat, draw: nat -> real): (q: seq<EnemyKind>)
    ensures |q| == count
    ensures forall i :: 0 <= i < count ==> q[i] == Classify(draw(i))
  {
    if count == 0 then [] else Drawn(count - 1, draw) + [Classify(draw(count - 1))]
  }

  /** The spawn queue of wave `n`, front first. */
  function SetupWave(n: int, draw: nat -> real): (q: seq<EnemyKind>)
    ensures n == 1 ==> |q| == 10 && forall i :: 0 <= i < 10 ==> q[i] == Normal
    ensures n == 2 ==> |q| == 15 && (forall i :: 0 <= i < 10 ==> q[i] == Normal)
                                 && (forall i :: 10 <= i < 15 ==> q[i] == Fast)
    ensures n != 1 && n != 2 ==> |q| == (if 15 + 2 * n > 0 then 15 + 2 * n else 0)
    ensures n != 1 && n != 2 ==> forall i :: 0 <= i < |q| ==>
              (q[i] == Normal <==> draw(i) < 0.5)
              && (q[i] == Fast <==> 0.5 <= draw(i) < 0.8)
              && (q[i] == Tank <==> 0.8 <= draw(i))
  {
    if n == 1 then Repeat(Normal, 10)
    else if n == 2 then Repeat(Normal, 10) + Repeat(Fast, 5)
    else Drawn(if 15 + 2 * n > 0 then 15 + 2 * n else 0, draw)
  }

  /** From wave 3 on, the size of a wave does not depend on the draws. */
  lemma WaveSizeIgnoresDraws(n: int, d1: nat -> real, d2: nat -> real)
    requires n >= 3
    ensures |SetupWave(n, d1)| == |SetupWave(n, d2)| == 15 + 2 * n
  {
  }
}
