# 2d-shooter: the game state as a verified state machine

This project models the game-state logic of the 2D side-scrolling shooter in
`script.js`: the player's ship moves vertically while an arrow key is held,
the space bar fires a projectile while ammo lasts, and every animation frame
moves the ship and its projectiles and discards the projectiles that have
flown past 80% of the board's width.

The browser objects become immutable values and the event handlers become
pure step functions:

- `Keyboard` names the keys the game reacts to (`"ArrowUp"`, `"ArrowDown"`,
  `" "`), as the browser's `KeyboardEvent.key` strings.
- `Seqs` gives the JavaScript array operations the game uses (`indexOf`,
  `splice(i, 1)`) and the list properties stated about them (no duplicates,
  in-order subsequence).
- `Projectiles` is `class Projectile`: its constructor (`New`), its per-frame
  `Update`, and the `filter` on `markedForDeletion` (`Survivors`).
- `Players` is `class Player`: its constructor and its per-frame `Update`. The
  player's back-reference to the game becomes two parameters, the held keys
  and the board's width.
- `Games` is `class Game`: its constructor, `Player.shootTop` (`ShootTop`,
  which spends the game's ammo) and `Game.update`.
- `Input` is `class InputHandler`: the `keydown` and `keyup` listeners as
  `KeyDown` and `KeyUp`.
- `Session` plays a sequence of events (key press, key release, frame) from a
  state. It states the invariant every reachable state keeps and the ammo
  accounting: ammo left plus shots fired is always 20.

The test `x > width * 0.8` is written `5 * x > 4 * width`. Positions are
integers throughout: the ship starts at (20, 100), moves 2 per frame, and
shots move 3 per frame. So the comparison is exact, and on the 1500-wide board
the threshold is 1200.

`script.js` has no enemies, collisions, score or end states: `Particle`,
`Enemy`, `Layer`, `Background` and `UI` are empty, and ammo starts at 20, only
goes down and is never refilled. `Session.Valid` states the bound that does
hold: `0 <= ammo <= 20`.

## Model

| member | source | states |
|---|---|---|
| Seqs.IndexOf | script.js:24-25 | `indexOf` returns -1 exactly when the key is absent; otherwise it returns the position of the key, and no earlier position holds it |
| Seqs.RemoveAt | script.js:25 | `splice(i, 1)` shortens the list by one, keeps the elements before `i` in place, shifts those after it down by one, and removes exactly one copy of `s[i]` from the multiset |
| Seqs.RemoveAtNoDup | script.js:24-26 | removing an element from a duplicate-free list keeps it duplicate-free, and the removed key is no longer present |
| Seqs.AppendNoDup | script.js:17-18 | appending a key that is absent keeps the list duplicate-free |
| Seqs.RemoveAtSubseq | script.js:25 | the list after the splice is an in-order subsequence of the list before it |
| Projectiles.Update | script.js:43-46 | a frame moves a projectile right by exactly its speed and leaves every other field alone, except the flag; the flag is set iff it was already set or the new `x` exceeds 80% of the width, so a set flag is never cleared |
| Projectiles.IterateFlag | script.js:43-46 | after `n` frames a projectile with non-negative speed has moved `n * speed` with the same `y`, and it is flagged iff it was flagged already or its final position is past the threshold |
| Projectiles.Survivors | script.js:83 | the filter never lengthens the list; every survivor is an unflagged member of the input; every unflagged member of the input survives |
| Projectiles.SurvivorsSubseq | script.js:83 | the survivors keep their relative order (an in-order subsequence of the input) |
| Projectiles.SurvivorsCount | script.js:83 | each unflagged projectile is kept exactly as many times as it occurs in the input, and a flagged one not at all |
| Projectiles.SurvivorsAppend | script.js:83 | filtering a concatenation gives the concatenation of the filtered parts |
| Projectiles.SurvivorsNoneFlagged | script.js:83 | a list with no flagged projectile passes the filter unchanged |
| Players.Update | script.js:73-85 | holding `ArrowUp` sets the speed to `-maxSpeed` even when `ArrowDown` is also held; `ArrowDown` alone sets `+maxSpeed`; no arrow sets 0. `y` moves by exactly that speed with no clamping, and `x`, size and top speed stay the same. The list never grows, no survivor is flagged or past the threshold, and every projectile still unflagged after its move survives |
| Players.UpdateProjectiles | script.js:80-83 | the projectile list after a frame is an in-order subsequence of the advanced projectiles, and it holds each unflagged advanced projectile exactly as often as it occurs and no flagged one |
| Players.UpdateRemovesNothing | script.js:80-83 | if no projectile is flagged and none crosses the threshold during the frame, the frame removes none: the list is every projectile, advanced in order |
| Games.ShootTop | script.js:95-102 | with ammo left, ammo drops by one and exactly one unflagged projectile is appended at `(x + 80, y + 80)`; with no ammo nothing changes; keys, board and ship position are untouched; ammo plus projectiles in flight is conserved; non-negative ammo stays non-negative |
| Games.Update | script.js:136-138 | a frame changes only the ship's `y`, `speedY` and projectile list; keys, ammo, width, height and the ship's `x` are unchanged |
| Input.KeyDown | script.js:16-22 | an arrow key that is not held is appended; an arrow key already held changes nothing; the space bar fires one shot and leaves `keys` alone; any other key changes nothing; a duplicate-free key list stays duplicate-free |
| Input.KeyUp | script.js:23-27 | only `keys` changes. A held key is removed at its first occurrence, the rest keep their order, and the multiset loses exactly one copy of the key. A key that is not held changes nothing. A duplicate-free list stays duplicate-free and no longer holds the key |
| Input.KeyDownIdempotent | script.js:17-21 | a repeated `keydown` of an arrow key leaves the state as the first one left it |
| Input.PressRelease | script.js:16-27 | pressing an arrow key that is not held and then releasing it restores the game state exactly |
| Input.KeyUpIdempotent | script.js:23-27 | on a duplicate-free key list, a second `keyup` of the same key changes nothing |
| Input.ReleasePress | script.js:16-27 | on a duplicate-free key list, releasing a held arrow key and pressing it again holds the same keys, the pressed one now last |
| Session.NewGameValid | script.js:127-134 | a new game has no key held, 20 ammo and no projectile, and the ship is at rest at `y = 100`; it satisfies the invariant |
| Session.PressValid | script.js:16-22 | a key press preserves the invariant: only an absent arrow key is added, and a shot adds an unflagged projectile with speed 3 while ammo stays within `0..20` |
| Session.ReleaseValid | script.js:23-27 | a key release preserves the invariant: the keys left are still distinct arrow keys |
| Session.FrameValid | script.js:73-85 | a frame preserves the invariant: every surviving projectile is unflagged and still has speed 3, and the ship keeps its column, size and top speed |
| Session.StepValid | script.js:13-138 | every key press, key release and frame preserves the invariant: held keys are distinct arrow keys, `0 <= ammo <= 20`, the ship keeps its column, size and top speed, and every projectile in flight is unflagged with speed 3 |
| Session.RunValid | script.js:13-138 | every sequence of events preserves the invariant |
| Session.StepAmmo | script.js:95-100 | an event lowers ammo by one exactly when it is a space press with ammo left, and otherwise leaves it unchanged; only such an event can add a projectile, and it adds at most one |
| Session.AmmoAccounting | script.js:96-100 | over any sequence of events, ammo left plus shots fired equals the ammo at the start |
| Session.ProjectileBound | script.js:96-100 | over any sequence of events, projectiles in flight are at most those at the start plus the shots fired |
| Session.FromNewGame | script.js:96-133 | from a new game, for any events, the state stays valid, ammo is never negative, ammo plus shots fired is always 20, at most 20 shots are fired, and at most that many projectiles are in flight |
| Session.FrameClearsFlagged | script.js:136-138 | right after a frame, no projectile in flight is flagged or past the threshold, and keys and ammo are unchanged |

## Left out

- The `draw` methods and all canvas calls (script.js:48-51, 88-94, 140-142): they only render, and the state does not depend on them.
- The `load` listener, the canvas setup, the `addEventListener` registration, `requestAnimationFrame` and the `animate` loop with its unused `deltaTime` (script.js:3-10, 145-163): browser plumbing. The listeners are modelled as `Input.KeyDown` and `Input.KeyUp`. One call of `animate` is modelled as the `Session.Frame` event.
- The `console.log` in `shootTop` (script.js:101): debug output with no effect on state.
- The empty classes `Particle`, `Enemy`, `Layer`, `Background` and `UI` (script.js:55-57, 106-123): they have no behaviour.
- Object identity and the `game` back-references held by `Player`, `Projectile` and `InputHandler`: the model passes the values those references are read for (held keys, board width, ammo) explicitly.
- Floating point: `Projectiles.Beyond` is the exact comparison `x > 0.8 * width` on integers. For the 1500-wide board the double product `1500 * 0.8` is exactly 1200, so the two agree. For other widths the rounding of `0.8` is not modelled.
- `Projectiles.AdvanceAll` (the `forEach` of script.js:80-82) and `Players.SpeedFor` (the speed selection of script.js:74-76) carry no contract of their own. What they compute is stated by `Players.Update` and `Players.UpdateProjectiles`.
- The constructors `Projectiles.New`, `Players.New` and `Games.New` carry no contract of their own. The values they produce are stated by `Session.NewGameValid` and `Games.ShootTop`.
