/** The keyboard handlers (`class InputHandler`) as step functions on the game
    state. The game records which arrow keys are held in `keys`, a list kept
    free of duplicates; the space bar fires. */
module Input {
  import opened Seqs
  import opened Keyboard
  import opened Games

  /** The `keydown` handler: an arrow key not yet held is appended; otherwise
      the space bar fires; any other key, or an arrow already held, is
      ignored. */
  function KeyDown(g: Game, key: Key): (r: Game)
    ensures IsArrow(key) && key !in g.keys ==> r == g.(keys := g.keys + [key])
    ensures IsArrow(key) && key in g.keys ==> r == g
    ensures key == Space ==> r == ShootTop(g) && r.keys == g.keys
    ensures !IsArrow(key) && key != Space ==> r == g
    ensures NoDup(g.keys) ==> NoDup(r.keys)
  {
    if IsArrow(key) && IndexOf(g.keys, key) == -1 then
      assert NoDup(g.keys) ==> NoDup(g.keys + [key]) by {
        if NoDup(g.keys) { AppendNoDup(g.keys, key); }
      }
      g.(keys := g.keys + [key])
    else if key == Space then
      ShootTop(g)
    else
      g
  }

  /** The `keyup` handler: the first occurrence of the key is spliced out of
      `keys`, the rest keeping their order; a key that is not held changes
      nothing. Nothing but `keys` ever changes. */
  function KeyUp(g: Game, key: Key): (r: Game)
    ensures r == g.(keys := r.keys)
    ensures key !in g.keys ==> r == g
    ensures key in g.keys ==>
              exists i :: && 0 <= i < |g.keys| && g.keys[i] == key
                          && (forall j :: 0 <= j < i ==> g.keys[j] != key)
                          && r.keys == g.keys[..i] + g.keys[i + 1..]
    ensures key in g.keys ==> multiset(r.keys) == multiset(g.keys) - multiset{key}
    ensures IsSubseq(r.keys, g.keys)
    ensures NoDup(g.keys) ==> NoDup(r.keys) && key !in r.keys
  {
    var i := IndexOf(g.keys, key);
    if i > -1 then
      RemoveAtSubseq(g.keys, i);
      assert g.keys[i] == key && RemoveAt(g.keys, i) == g.keys[..i] + g.keys[i + 1..];
      assert NoDup(g.keys) ==> NoDup(RemoveAt(g.keys, i)) && key !in RemoveAt(g.keys, i) by {
        if NoDup(g.keys) { RemoveAtNoDup(g.keys, i); }
      }
      g.(keys := RemoveAt(g.keys, i))
    else
      SubseqRefl(g.keys);
      g
  }

  /** Holding an arrow key down is idempotent: auto-repeated `keydown`
      events after the first leave the state as the first one left it. */
  lemma KeyDownIdempotent(g: Game, key: Key)
    requires IsArrow(key)
    ensures KeyDown(KeyDown(g, key), key) == KeyDown(g, key)
  {
  }

  /** Pressing an arrow key that is not held and releasing it restores the
      state exactly. */
  lemma PressRelease(g: Game, key: Key)
    requires IsArrow(key)
    requires key !in g.keys
    ensures KeyUp(KeyDown(g, key), key) == g
  {
    var keys := g.keys + [key];
    assert IndexOf(keys, key) == |g.keys|;
    assert keys[..|g.keys|] == g.keys;
  }

  /** On a duplicate-free key list, releasing a key twice is the same as
      releasing it once. */
  lemma KeyUpIdempotent(g: Game, key: Key)
    requires NoDup(g.keys)
    ensures KeyUp(KeyUp(g, key), key) == KeyUp(g, key)
  {
  }

  /** On a duplicate-free key list, releasing a held arrow key and pressing it
      again holds the same keys, the pressed one now last. */
  lemma ReleasePress(g: Game, key: Key)
    requires NoDup(g.keys)
    requires IsArrow(key)
    requires key in g.keys
    ensures KeyDown(KeyUp(g, key), key).keys[|g.keys| - 1] == key
    ensures multiset(KeyDown(KeyUp(g, key), key).keys) == multiset(g.keys)
  {
  }
}
