/** A play session as a sequence of events delivered to the game: key presses,
    key releases and animation frames. This is where the properties that hold
    across many events are stated: the invariant every reachable state keeps,
    and the accounting of ammo against shots fired. */
module Session {
  import opened Seqs
  import opened Keyboard
  import Projectiles
  import Players
  import opened Games
  import Input

  datatype Event = Press(key: Key) | Release(key: Key) | Frame

  /** One event: the `keydown` handler, the `keyup` handler, or one call of
      `Game.update` from the animation loop. */
  function Step(g: Game, e: Event): Game {
    match e
    case Press(k) => Input.KeyDown(g, k)
    case Release(k) => Input.KeyUp(g, k)
    case Frame => Games.Update(g)
  }

  /** The state after the events `evs`, in order. */
  function Run(g: Game, evs: seq<Event>): Game
    decreases |evs|
  {
    if |evs| == 0 then g else Run(Step(g, evs[0]), evs[1..])
  }

  /** The event is a press of the space bar while ammo is left: a shot. */
  predicate Fires(g: Game, e: Event) {
    e == Press(Space) && g.ammo > 0
  }

  /** How many of the events `evs`, delivered from `g`, fire a shot. */
  function ShotsFired(g: Game, evs: seq<Event>): nat
    decreases |evs|
  {
    if |evs| == 0 then 0
    else (if Fires(g, evs[0]) then 1 else 0) + ShotsFired(Step(g, evs[0]), evs[1..])
  }

  /** What holds of every state a session can reach: the held keys are arrow
      keys without repetition, ammo is between zero and the initial supply,
      the ship keeps its column, size and top speed, and every projectile in
      flight is unflagged and moves at the constructor's speed. */
  ghost predicate Valid(g: Game) {
    && NoDup(g.keys)
    && (forall i :: 0 <= i < |g.keys| ==> IsArrow(g.keys[i]))
    && 0 <= g.ammo <= InitialAmmo
    && g.player.x == Players.StartX
    && g.player.width == Players.Width
    && g.player.height == Players.Height
    && g.player.maxSpeed == Players.MaxSpeed
    && (forall i :: 0 <= i < |g.player.projectiles| ==>
          && !g.player.projectiles[i].markedForDeletion
          && g.player.projectiles[i].speed == Projectiles.Speed)
  }

  /** The game as constructed: no key held, full ammo, the ship at rest at
      its starting point with no projectile; it satisfies the invariant. */
  lemma NewGameValid(width: int, height: int)
    ensures var g := New(width, height);
            && Valid(g)
            && g.keys == [] && g.ammo == InitialAmmo
            && g.player.y == Players.StartY && g.player.speedY == 0
            && g.player.projectiles == []
  {
  }

  /** A key press keeps the invariant: only an absent arrow key is added,
      and a shot adds an unflagged projectile at the constructor's speed
      while ammo stays non-negative. */
  lemma PressValid(g: Game, k: Key)
    requires Valid(g)
    ensures Valid(Input.KeyDown(g, k))
  {
    var r := Input.KeyDown(g, k);
    if IsArrow(k) && k !in g.keys {
      assert r.keys == g.keys + [k];
    } else if k == Space && g.ammo > 0 {
      var ps := g.player.projectiles;
      assert r.player.projectiles
          == ps + [Projectiles.New(g.player.x + MuzzleOffset, g.player.y + MuzzleOffset)];
    }
  }

  /** A key release keeps the invariant: the remaining keys are a part of
      the held ones. */
  lemma ReleaseValid(g: Game, k: Key)
    requires Valid(g)
    ensures Valid(Input.KeyUp(g, k))
  {
    var r := Input.KeyUp(g, k);
    var i := IndexOf(g.keys, k);
    if i > -1 {
      assert r.keys == RemoveAt(g.keys, i);
      forall j | 0 <= j < |r.keys|
        ensures IsArrow(r.keys[j])
      {
        assert r.keys[j] == g.keys[if j < i then j else j + 1];
      }
    }
  }

  /** A frame keeps the invariant: the surviving projectiles are unflagged
      and keep their speed, and nothing else it touches is constrained. */
  lemma FrameValid(g: Game)
    requires Valid(g)
    ensures Valid(Games.Update(g))
  {
    var ps := g.player.projectiles;
    var moved := Projectiles.AdvanceAll(ps, g.width);
    var kept := Games.Update(g).player.projectiles;
    assert kept == Projectiles.Survivors(moved);
    forall i | 0 <= i < |kept|
      ensures !kept[i].markedForDeletion && kept[i].speed == Projectiles.Speed
    {
      assert kept[i] in moved;
      var j :| 0 <= j < |moved| && moved[j] == kept[i];
      assert moved[j] == Projectiles.Update(ps[j], g.width);
    }
  }

  /** Every event keeps the invariant. */
  lemma StepValid(g: Game, e: Event)
    requires Valid(g)
    ensures Valid(Step(g, e))
  {
    match e
    case Press(k) => PressValid(g, k);
    case Release(k) => ReleaseValid(g, k);
    case Frame => FrameValid(g);
  }

  /** Every session keeps the invariant. */
  lemma {:induction false} RunValid(g: Game, evs: seq<Event>)
    requires Valid(g)
    ensures Valid(Run(g, evs))
    decreases |evs|
  {
    if |evs| > 0 {
      StepValid(g, evs[0]);
      RunValid(Step(g, evs[0]), evs[1..]);
    }
  }

  /** Ammo goes down by one exactly on a shot and is otherwise unchanged;
      the projectile list grows by at most one, and only on a shot. */
  lemma StepAmmo(g: Game, e: Event)
    ensures Step(g, e).ammo == g.ammo - (if Fires(g, e) then 1 else 0)
    ensures |Step(g, e).player.projectiles|
         <= |g.player.projectiles| + (if Fires(g, e) then 1 else 0)
  {
  }

  /** Over any session, the ammo left plus the shots fired is the ammo at
      the start. */
  lemma {:induction false} AmmoAccounting(g: Game, evs: seq<Event>)
    ensures Run(g, evs).ammo + ShotsFired(g, evs) == g.ammo
    decreases |evs|
  {
    if |evs| > 0 {
      StepAmmo(g, evs[0]);
      AmmoAccounting(Step(g, evs[0]), evs[1..]);
    }
  }

  /** Over any session, the projectiles in flight are at most those at the
      start plus the shots fired. */
  lemma {:induction false} ProjectileBound(g: Game, evs: seq<Event>)
    ensures |Run(g, evs).player.projectiles| <= |g.player.projectiles| + ShotsFired(g, evs)
    decreases |evs|
  {
    if |evs| > 0 {
      StepAmmo(g, evs[0]);
      ProjectileBound(Step(g, evs[0]), evs[1..]);
    }
  }

  /** From a new game, whatever the events: the state is valid, ammo never
      goes negative, ammo left plus shots fired is always the initial 20, so
      at most 20 shots are ever fired and at most 20 projectiles are ever in
      flight. */
  lemma FromNewGame(width: int, height: int, evs: seq<Event>)
    ensures var f := Run(New(width, height), evs);
            var shots := ShotsFired(New(width, height), evs);
            && Valid(f)
            && f.ammo >= 0
            && f.ammo + shots == InitialAmmo
            && shots <= InitialAmmo
            && |f.player.projectiles| <= shots
  {
    var g := New(width, height);
    NewGameValid(width, height);
    RunValid(g, evs);
    AmmoAccounting(g, evs);
    ProjectileBound(g, evs);
  }

  /** Right after a frame, no projectile in flight is flagged or past the
      threshold, and a frame leaves the keys and the ammo alone. */
  lemma FrameClearsFlagged(g: Game)
    ensures var r := Step(g, Frame);
            && r.keys == g.keys && r.ammo == g.ammo
            && forall i :: 0 <= i < |r.player.projectiles| ==>
                 && !r.player.projectiles[i].markedForDeletion
                 && !Projectiles.Beyond(r.player.projectiles[i].x, g.width)
  {
    var r := Step(g, Frame);
    assert forall i :: 0 <= i < |r.player.projectiles| ==>
      r.player.projectiles[i] in r.player.projectiles;
  }
}
