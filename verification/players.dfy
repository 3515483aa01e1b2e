/** The player's ship (`class Player`): it moves vertically while an arrow key
    is held and owns the list of projectiles it has fired. */
module Players {
  import opened Seqs
  import opened Keyboard
  import Projectiles

  type Projectile = Projectiles.Projectile

  datatype Player = Player(
    x: int,
    y: int,
    width: int,
    height: int,
    speedY: int,
    maxSpeed: int,
    projectiles: seq<Projectile>)

  /** Where the constructor places the ship, its size and its speed. */
  const StartX: int := 20
  const StartY: int := 100
  const Width: int := 120
  const Height: int := 190
  const MaxSpeed: int := 2

  /** The ship as constructed: at rest at `(StartX, StartY)`, no shots. */
  function New(): Player {
    Player(StartX, StartY, Width, Height, 0, MaxSpeed, [])
  }

  /** The vertical speed the held keys select: up wins over down. */
  function SpeedFor(keys: seq<Key>, maxSpeed: int): int {
    if ArrowUp in keys then -maxSpeed
    else if ArrowDown in keys then maxSpeed
    else 0
  }

  /** One frame of `Player.update`, given the game's held keys and width:
      choose the vertical speed, move by it, advance every projectile and
      drop the flagged ones. */
  function Update(p: Player, keys: seq<Key>, gameWidth: int): (r: Player)
    ensures ArrowUp in keys ==> r.speedY == -p.maxSpeed
    ensures ArrowUp !in keys && ArrowDown in keys ==> r.speedY == p.maxSpeed
    ensures ArrowUp !in keys && ArrowDown !in keys ==> r.speedY == 0
    ensures r.y == p.y + r.speedY
    ensures r == p.(y := r.y, speedY := r.speedY, projectiles := r.projectiles)
    ensures |r.projectiles| <= |p.projectiles|
    ensures forall q :: q in r.projectiles ==>
              !q.markedForDeletion && !Projectiles.Beyond(q.x, gameWidth)
    ensures forall i ::
              (0 <= i < |p.projectiles| &&
               !Projectiles.Update(p.projectiles[i], gameWidth).markedForDeletion) ==>
              Projectiles.Update(p.projectiles[i], gameWidth) in r.projectiles
  {
    var speedY := SpeedFor(keys, p.maxSpeed);
    var moved := Projectiles.AdvanceAll(p.projectiles, gameWidth);
    var kept := Projectiles.Survivors(moved);
    assert forall q :: q in kept ==> !Projectiles.Beyond(q.x, gameWidth) by {
      forall q | q in kept
        ensures !Projectiles.Beyond(q.x, gameWidth)
      {
        var i :| 0 <= i < |moved| && moved[i] == q;
      }
    }
    assert forall i :: 0 <= i < |p.projectiles| ==>
      moved[i] == Projectiles.Update(p.projectiles[i], gameWidth) && moved[i] in moved;
    p.(y := p.y + speedY, speedY := speedY, projectiles := kept)
  }

  /** The projectiles after a frame are the advanced projectiles that are not
      flagged, in their original order and each as often as it occurs. */
  lemma UpdateProjectiles(p: Player, keys: seq<Key>, gameWidth: int, q: Projectile)
    ensures var moved := Projectiles.AdvanceAll(p.projectiles, gameWidth);
            var kept := Update(p, keys, gameWidth).projectiles;
            && IsSubseq(kept, moved)
            && multiset(kept)[q] == if q.markedForDeletion then 0 else multiset(moved)[q]
  {
    var moved := Projectiles.AdvanceAll(p.projectiles, gameWidth);
    Projectiles.SurvivorsSubseq(moved);
    Projectiles.SurvivorsCount(moved, q);
  }

  /** When no projectile is flagged before the frame and none crosses the
      threshold during it, the frame removes nothing: the list is every
      projectile, advanced. */
  lemma UpdateRemovesNothing(p: Player, keys: seq<Key>, gameWidth: int)
    requires forall i :: 0 <= i < |p.projectiles| ==>
               && !p.projectiles[i].markedForDeletion
               && !Projectiles.Beyond(p.projectiles[i].x + p.projectiles[i].speed, gameWidth)
    ensures Update(p, keys, gameWidth).projectiles
         == Projectiles.AdvanceAll(p.projectiles, gameWidth)
  {
    Projectiles.SurvivorsNoneFlagged(Projectiles.AdvanceAll(p.projectiles, gameWidth));
  }
}
