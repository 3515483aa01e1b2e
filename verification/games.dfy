/** The game state (`class Game`) and the two operations on it that are not
    key bookkeeping: a shot (`Player.shootTop`, which spends the game's ammo)
    and a frame (`Game.update`). */
module Games {
  import opened Keyboard
  import Projectiles
  import Players

  /** Shots available when the game starts; nothing refills them. */
  const InitialAmmo: int := 20
  /** A shot leaves the ship this far right of and below its corner. */
  const MuzzleOffset: int := 80

  datatype Game = Game(
    width: int,
    height: int,
    keys: seq<Key>,
    ammo: int,
    player: Players.Player)

  /** A new game on a `width` by `height` board: no key held, full ammo, the
      ship as constructed. */
  function New(width: int, height: int): Game {
    Game(width, height, [], InitialAmmo, Players.New())
  }

  /** `Player.shootTop`: with ammo left, spend one unit and add one fresh
      projectile at the muzzle behind the existing ones; with none left,
      change nothing. Either way ammo plus projectiles in flight is
      conserved, and ammo never drops below zero. */
  function ShootTop(g: Game): (r: Game)
    ensures g.ammo > 0 ==> r.ammo == g.ammo - 1
    ensures g.ammo > 0 ==>
              r.player.projectiles == g.player.projectiles
                + [Projectiles.New(g.player.x + MuzzleOffset, g.player.y + MuzzleOffset)]
    ensures g.ammo <= 0 ==> r == g
    ensures r == g.(ammo := r.ammo, player := g.player.(projectiles := r.player.projectiles))
    ensures r.ammo + |r.player.projectiles| == g.ammo + |g.player.projectiles|
    ensures g.ammo >= 0 ==> r.ammo >= 0
  {
    if g.ammo > 0 then
      var shot := Projectiles.New(g.player.x + MuzzleOffset, g.player.y + MuzzleOffset);
      g.(player := g.player.(projectiles := g.player.projectiles + [shot]),
         ammo := g.ammo - 1)
    else
      g
  }

  /** `Game.update`: one frame of the player, reading the game's held keys
      and width. Only the ship's vertical position, its vertical speed and
      its projectile list change; keys, ammo and the board's size do not. */
  function Update(g: Game): (r: Game)
    ensures r == g.(player := r.player)
    ensures r.player == g.player.(y := r.player.y, speedY := r.player.speedY,
                                  projectiles := r.player.projectiles)
  {
    g.(player := Players.Update(g.player, g.keys, g.width))
  }
}
