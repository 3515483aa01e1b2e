/** The player's shots (`class Projectile`): small rectangles that move right
    at a fixed speed and are flagged for deletion once they pass 80% of the
    game's width. */
module Projectiles {
  import opened Seqs

  /** Values the constructor gives every projectile. */
  const Width: int := 10
  const Height: int := 3
  const Speed: int := 3

  datatype Projectile = Projectile(
    x: int,
    y: int,
    width: int,
    height: int,
    speed: int,
    markedForDeletion: bool)

  /** A fresh projectile at `(x, y)`, moving at `Speed`, not flagged. */
  function New(x: int, y: int): Projectile {
    Projectile(x, y, Width, Height, Speed, false)
  }

  /** `x > gameWidth * 0.8`, in integer form. */
  predicate Beyond(x: int, gameWidth: int) {
    5 * x > 4 * gameWidth
  }

  /** One frame of `Projectile.update`: move right by the projectile's own
      speed, then flag it if it is past the threshold. A flag, once set, is
      never cleared. */
  function Update(p: Projectile, gameWidth: int): (r: Projectile)
    ensures r.x == p.x + p.speed
    ensures r == p.(x := r.x, markedForDeletion := r.markedForDeletion)
    ensures r.markedForDeletion <==> p.markedForDeletion || Beyond(r.x, gameWidth)
  {
    var x := p.x + p.speed;
    if Beyond(x, gameWidth) then p.(x := x, markedForDeletion := true)
    else p.(x := x)
  }

  /** `n` consecutive frames of `Update`. */
  function Iterate(p: Projectile, gameWidth: int, n: nat): Projectile
    decreases n
  {
    if n == 0 then p else Update(Iterate(p, gameWidth, n - 1), gameWidth)
  }

  /** After `n` frames a projectile has moved `n * speed` to the right, and
      (its speed being non-negative) it is flagged exactly when it was flagged
      already or its final position is past the threshold: a projectile that
      is past the threshold once stays past it. */
  lemma {:induction false} IterateFlag(p: Projectile, gameWidth: int, n: nat)
    requires p.speed >= 0
    ensures Iterate(p, gameWidth, n).x == p.x + n * p.speed
    ensures Iterate(p, gameWidth, n).y == p.y
    ensures Iterate(p, gameWidth, n).speed == p.speed
    ensures Iterate(p, gameWidth, n).markedForDeletion
        <==> p.markedForDeletion || (n > 0 && Beyond(p.x + n * p.speed, gameWidth))
    decreases n
  {
    if n > 0 {
      IterateFlag(p, gameWidth, n - 1);
      assert p.x + n * p.speed == p.x + (n - 1) * p.speed + p.speed;
    }
  }

  /** Every element of `ps`, one frame later, in the same order. */
  function AdvanceAll(ps: seq<Projectile>, gameWidth: int): seq<Projectile> {
    seq(|ps|, i requires 0 <= i < |ps| => Update(ps[i], gameWidth))
  }

  /** `projectiles.filter(p => !p.markedForDeletion)`. */
  function Survivors(ps: seq<Projectile>): (r: seq<Projectile>)
    ensures |r| <= |ps|
    ensures forall q :: q in r ==> q in ps && !q.markedForDeletion
    ensures forall q :: q in ps && !q.markedForDeletion ==> q in r
  {
    if |ps| == 0 then []
    else if ps[0].markedForDeletion then Survivors(ps[1..])
    else [ps[0]] + Survivors(ps[1..])
  }

  /** The survivors keep their relative order. */
  lemma {:induction false} SurvivorsSubseq(ps: seq<Projectile>)
    ensures IsSubseq(Survivors(ps), ps)
    decreases |ps|
  {
    if |ps| > 0 {
      SurvivorsSubseq(ps[1..]);
      var r := Survivors(ps);
      if !ps[0].markedForDeletion {
        assert r[0] == ps[0] && r[1..] == Survivors(ps[1..]);
      }
    }
  }

  /** The survivors are exactly the unflagged elements, counted with their
      multiplicity: each unflagged projectile is kept as often as it occurs,
      and no flagged one is kept. */
  lemma {:induction false} SurvivorsCount(ps: seq<Projectile>, q: Projectile)
    ensures multiset(Survivors(ps))[q]
         == if q.markedForDeletion then 0 else multiset(ps)[q]
    decreases |ps|
  {
    if |ps| > 0 {
      SurvivorsCount(ps[1..], q);
      assert ps == [ps[0]] + ps[1..];
    }
  }

  /** Filtering distributes over concatenation. */
  lemma {:induction false} SurvivorsAppend(a: seq<Projectile>, b: seq<Projectile>)
    ensures Survivors(a + b) == Survivors(a) + Survivors(b)
    decreases |a|
  {
    if |a| > 0 {
      assert (a + b)[0] == a[0];
      assert (a + b)[1..] == a[1..] + b;
      SurvivorsAppend(a[1..], b);
    } else {
      assert a + b == b;
    }
  }

  /** A list with no flagged projectile passes the filter unchanged. */
  lemma {:induction false} SurvivorsNoneFlagged(ps: seq<Projectile>)
    requires forall i :: 0 <= i < |ps| ==> !ps[i].markedForDeletion
    ensures Survivors(ps) == ps
    decreases |ps|
  {
    if |ps| > 0 {
      SurvivorsNoneFlagged(ps[1..]);
      assert ps == [ps[0]] + ps[1..];
    }
  }
}
