/** Keyboard keys, identified as the browser's `KeyboardEvent.key` string. */
module Keyboard {

  type Key = string

  const ArrowUp: Key := "ArrowUp"
  const ArrowDown: Key := "ArrowDown"
  /** The space bar, which fires. */
  const Space: Key := " "

  /** The two keys the game records as held. */
  predicate IsArrow(k: Key) {
    k == ArrowUp || k == ArrowDown
  }
}
