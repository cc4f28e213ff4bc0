/**
 * `Completer<T>` of src/utils/completer.ts: a write-once result slot. The
 * promise it exposes is read-only and is settled only through `complete`;
 * the private `reject` is never called, so the only change of state is
 * from pending to resolved, and the first value given wins.
 */
module Utils {
  import opened Wrappers

  class Completer<T> {
    /** The state of the single `promise`: `None` while pending. */
    var resolution: Option<T>

    /** A fresh completer's promise is pending. */
    constructor ()
      ensures resolution == None
    {
      resolution := None;
    }

    /** What every reader awaiting `promise` observes (nothing yet while pending). */
    function Promise(): Option<T>
      reads this
    {
      resolution
    }

    /**
     * `complete(value)`: resolves the promise with `value` when it is still
     * pending; once resolved, later calls leave the value unchanged.
     */
    method Complete(value: T)
      modifies this
      ensures old(resolution).None? ==> resolution == Some(value)
      ensures old(resolution).Some? ==> resolution == old(resolution)
    {
      if resolution.None? {
        resolution := Some(value);
      }
    }
  }

  /**
   * Resolving a fresh completer twice: readers see the first value, and two
   * readers see the same one.
   */
  method FirstCompletionWins<T>(first: T, second: T) returns (seen: Option<T>, seenAgain: Option<T>)
    ensures seen == Some(first)
    ensures seenAgain == seen
  {
    var c := new Completer<T>();
    c.Complete(first);
    c.Complete(second);
    seen := c.Promise();
    seenAgain := c.Promise();
  }
}
