/**
 * The small throttler's documented claim, at the level of the objects: a
 * burst and a small throttler in the same logical state, given the same
 * clock readings, take the same decisions and reach the same state again,
 * for as long as the small throttler's offsets fit in an `int`.
 */

module Simulation {
  import opened Window
  import Burst
  import Small

  /** Same configuration, same indices, same live entries, history and clock. */
  ghost predicate Agree(b: Burst.BurstThrottler, s: Small.SmallThrottler)
    reads b, s
  {
    && b.periodMs == s.periodMs && b.bufferSize == s.bufferSize
    && b.head == s.head && b.tail == s.tail
    && b.Contents == s.Contents && b.History == s.History && b.Clock == s.Clock
  }

  /**
   * One allow() on each.  When the casts of the small throttler's call are
   * exact, both calls sleep alike, land on the same head and tail and keep
   * the same entries.
   */
  method AllowBoth(b: Burst.BurstThrottler, s: Small.SmallThrottler, now: int, lag: nat)
    returns (w: Wait, r: Result<Wait, Small.SleepError>)
    requires b.Valid() && s.Valid() && Agree(b, s) && b.Clock <= now
    requires b.timestamps != s.timestamps
    modifies b, b.timestamps, s, s.timestamps
    ensures b.Valid() && s.Valid()
    ensures Small.StepFits(Small.SmallStep(old(s.Contents), old(s.baseMs), s.periodMs, s.bufferSize - 1, now, lag),
                           old(s.baseMs), s.periodMs, now)
            ==> r == Ok(w) && Agree(b, s)
  {
    ghost var o := Small.SmallStep(s.Contents, s.baseMs, s.periodMs, s.bufferSize - 1, now, lag);
    ghost var fits := Small.StepFits(o, s.baseMs, s.periodMs, now);
    Small.SmallRefinesBurst(s.Contents, s.baseMs, s.periodMs, s.bufferSize - 1, now, lag);
    ghost var step := Burst.BurstStep(b.Contents, b.periodMs, b.bufferSize - 1, now, lag);
    assert fits ==> o.Admitted? && o.step == step;
    w := b.Allow(now, lag);
    r := s.Allow(now, lag);
  }
}
