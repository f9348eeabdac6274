/** The at most one key that the input poll yields per tick. */
module Controls {

  /** `None` when no key was pending, otherwise the character read. */
  datatype Key = NoKey | Pressed(c: char)

  /** Space makes the crab jump. */
  predicate IsJump(k: Key) {
    k == Pressed(' ')
  }

  /** `q` or `Q` leaves the game loop. */
  predicate IsQuit(k: Key) {
    k == Pressed('q') || k == Pressed('Q')
  }

  /**
   * The loop tests space first and the quit letters second; no key is both,
   * and a tick with no key pending neither jumps nor quits.
   */
  lemma KeyMeaning(k: Key)
    ensures !(IsJump(k) && IsQuit(k))
    ensures k == NoKey ==> !IsJump(k) && !IsQuit(k)
    ensures IsJump(k) || IsQuit(k) ==> k.Pressed?
  {
  }
}
