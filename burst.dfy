/**
 * BurstThrottler: admits actions immediately while the window has room,
 * and when it is full sleeps until the oldest entry leaves the window.
 *
 * A call `allow()` is modelled as `Allow(now, lag)`: `now` is the clock
 * reading taken at the start of the call (used for eviction and for the
 * wait), and the action is recorded at `now + sleep + lag`, where `lag`
 * is the time by which the sleep overshoots plus the time that passes
 * before the clock is read again.
 */
module Burst {
  import opened Window

  /**
   * One call of allow() on the logical contents `live` (oldest first):
   * evict outdated entries; if the buffer is still full, sleep until one
   * millisecond after its oldest entry leaves the window and drop that
   * entry; record the action.
   */
  function BurstStep(live: seq<int>, periodMs: int, capacity: int, now: int, lag: nat): (s: Step)
    requires 1 <= capacity && |live| <= capacity
    ensures s.removed <= |live| && |s.live| <= capacity
  {
    var kept := Evict(live, now - periodMs);
    if |kept| == capacity then
      var ms := kept[0] + periodMs - now + 1;
      Step(Slept(ms), |live| - |kept| + 1, now + ms + lag, kept[1..] + [now + ms + lag])
    else
      Step(NoWait, |live| - |kept|, now + lag, kept + [now + lag])
  }

  /**
   * What one burst admission promises: it waits only when the buffer is
   * still full after eviction, and then at least 1 ms; the new action is
   * recorded after the wait; every entry it removes is outdated when the
   * new action is recorded; and in the full branch it drops exactly one
   * in-window entry, from which the new action is more than periodMs away.
   */
  lemma BurstStepSpec(live: seq<int>, periodMs: int, capacity: int, now: int, lag: nat)
    requires 1 <= capacity && |live| <= capacity
    ensures var s := BurstStep(live, periodMs, capacity, now, lag);
            && s.recorded == now + SleptMs(s.wait) + lag
            && (s.wait == NoWait <==> |Evict(live, now - periodMs)| < capacity)
            && (s.wait.Slept? ==> s.wait.ms >= 1)
            && (forall i :: 0 <= i < s.removed ==> live[i] < s.recorded - periodMs)
            && (s.wait.Slept? ==>
                  s.removed == |live| - |Evict(live, now - periodMs)| + 1 &&
                  live[s.removed - 1] >= now - periodMs &&
                  s.recorded >= live[s.removed - 1] + periodMs + 1)
            && (s.wait == NoWait ==> s.live == Evict(live, now - periodMs) + [now + lag])
            && s.live == live[s.removed..] + [s.recorded]
  {
    EvictSuffix(live, now - periodMs);
    var kept := Evict(live, now - periodMs);
    if |kept| == capacity {
      assert kept[1..] == live[|live| - |kept| + 1..];
    }
  }

  /**
   * BurstStep as the class computes it: first evict (leaving `kept`), then,
   * if `kept` fills the buffer, wait and drop its oldest entry (leaving `rest`).
   */
  lemma BurstStepAfterEvict(live: seq<int>, periodMs: int, capacity: int, now: int, lag: nat,
                            kept: seq<int>, w: Wait, rest: seq<int>)
    requires 1 <= capacity && |live| <= capacity
    requires kept == Evict(live, now - periodMs)
    requires w == (if |kept| == capacity then Slept(kept[0] + periodMs - now + 1) else NoWait)
    requires rest == (if |kept| == capacity then kept[1..] else kept)
    ensures var s := BurstStep(live, periodMs, capacity, now, lag);
            && s.wait == w
            && s.removed == |live| - |kept| + (if |kept| == capacity then 1 else 0)
            && s.recorded == now + SleptMs(w) + lag && s.live == rest + [s.recorded]
  {
  }

  /** A burst admission keeps the history invariant, and so the rate guarantee. */
  lemma BurstStepAdmissible(hist: seq<int>, live: seq<int>, clock: int, periodMs: int, capacity: int,
                            now: int, lag: nat, hist1: seq<int>, live1: seq<int>, clock1: int)
    requires 1 <= capacity && |live| <= capacity
    requires Admissible(hist, live, clock, periodMs, capacity)
    requires clock <= now
    requires var s := BurstStep(live, periodMs, capacity, now, lag);
             hist1 == hist + [s.recorded] && live1 == s.live && clock1 == s.recorded
    ensures Admissible(hist1, live1, clock1, periodMs, capacity)
  {
    var s := BurstStep(live, periodMs, capacity, now, lag);
    BurstStepSpec(live, periodMs, capacity, now, lag);
    AdmitPreserves(hist, live, clock, periodMs, capacity, s.removed, s.recorded);
  }

  /** The clock readings of one call: its start, and the lag before recording. */
  datatype Call = Call(now: int, lag: nat)

  /**
   * The waits of a run of calls, starting from the contents `live`: a
   * helper over which BurstNeverWaitsWithRoom is stated.
   */
  function BurstRun(live: seq<int>, periodMs: int, capacity: int, calls: seq<Call>): (waits: seq<Wait>)
    requires 1 <= capacity && |live| <= capacity
    ensures |waits| == |calls|
    decreases |calls|
  {
    if calls == [] then []
    else
      var s := BurstStep(live, periodMs, capacity, calls[0].now, calls[0].lag);
      [s.wait] + BurstRun(s.live, periodMs, capacity, calls[1..])
  }

  /**
   * While the room is not used up nobody waits: in particular the first
   * actionsInPeriod calls on a fresh throttler never sleep.
   */
  lemma {:induction false} BurstNeverWaitsWithRoom(live: seq<int>, periodMs: int, capacity: int, calls: seq<Call>)
    requires 1 <= capacity && |live| + |calls| <= capacity
    ensures forall i :: 0 <= i < |calls| ==> BurstRun(live, periodMs, capacity, calls)[i] == NoWait
    decreases |calls|
  {
    if calls != [] {
      var s := BurstStep(live, periodMs, capacity, calls[0].now, calls[0].lag);
      BurstNeverWaitsWithRoom(s.live, periodMs, capacity, calls[1..]);
      var rest := BurstRun(s.live, periodMs, capacity, calls[1..]);
      assert BurstRun(live, periodMs, capacity, calls) == [s.wait] + rest;
    }
  }

  class BurstThrottler {
    const periodMs: int
    const bufferSize: int
    /** The circular buffer of recent admission times. */
    const timestamps: array<int>
    /** The next free cell. */
    var head: int
    /** The oldest live entry. */
    var tail: int

    /** The live entries, oldest first. */
    ghost var Contents: seq<int>
    /** Every admission time so far. */
    ghost var History: seq<int>
    /** The latest clock reading. */
    ghost var Clock: int

    /** The circular-buffer structure: `Contents` is what the cells from tail to head hold. */
    ghost predicate Ring()
      reads this, timestamps
    {
      && 3 <= bufferSize && timestamps.Length == bufferSize
      && 0 <= head < bufferSize && 0 <= tail < bufferSize
      && |Contents| == Count(head, tail, bufferSize)
      && Holds(timestamps[..], tail, Contents, 0)
    }

    ghost predicate Valid()
      reads this, timestamps
    {
      && Ring()
      && bufferSize <= 10001 && bufferSize - 1 <= periodMs
      && Admissible(History, Contents, Clock, periodMs, bufferSize - 1)
    }

    /** The throttler allows at most this many actions in periodMs. */
    function ActionsInPeriod(): int
      reads this
    {
      bufferSize - 1
    }

    /** The constructor once its checks have passed; `clock` is the time of creation. */
    constructor Init(periodMs: int, actionsInPeriod: int, ghost clock: int)
      requires CheckConfig(periodMs, actionsInPeriod, 10000) == None
      ensures Valid() && fresh(timestamps)
      ensures this.periodMs == periodMs && bufferSize == actionsInPeriod + 1
      ensures head == 0 && tail == 0
      ensures Contents == [] && History == [] && Clock == clock
    {
      this.periodMs := periodMs;
      this.bufferSize := actionsInPeriod + 1;
      timestamps := new int[actionsInPeriod + 1];
      head, tail := 0, 0;
      Contents, History, Clock := [], [], clock;
      AdmissibleInitially(clock, periodMs, actionsInPeriod);
    }

    /** The source's constructor: the argument checks, then the initial state. */
    static method New(periodMs: Int32, actionsInPeriod: Int32, ghost clock: int)
      returns (r: Result<BurstThrottler, ConfigError>)
      ensures r.Err? <==> CheckConfig(periodMs, actionsInPeriod, 10000) != None
      ensures r.Err? ==> Some(r.error) == CheckConfig(periodMs, actionsInPeriod, 10000)
      ensures r.Ok? ==> fresh(r.value) && fresh(r.value.timestamps) && r.value.Valid()
      ensures r.Ok? ==> r.value.periodMs == periodMs && r.value.bufferSize == actionsInPeriod + 1
      ensures r.Ok? ==> r.value.head == 0 && r.value.tail == 0 && r.value.Contents == []
      ensures r.Ok? ==> r.value.History == [] && r.value.Clock == clock
    {
      var check := CheckConfig(periodMs, actionsInPeriod, 10000);
      if check.Some? {
        return Err(check.value);
      }
      var t := new BurstThrottler.Init(periodMs, actionsInPeriod, clock);
      return Ok(t);
    }

    /** The eviction loop of allow(): advance tail past every entry older than `cutoff`. */
    method EvictBefore(cutoff: int)
      requires Ring()
      modifies this
      ensures Ring() && head == old(head)
      ensures Contents == Evict(old(Contents), cutoff)
      ensures History == old(History) && Clock == old(Clock)
    {
      ghost var live0 := Contents;
      if Contents != [] {
        HoldsDrop(timestamps[..], tail, Contents, 0);
      }
      while tail != head && timestamps[tail] < cutoff
        invariant Ring() && head == old(head)
        invariant History == old(History) && Clock == old(Clock)
        invariant Contents != [] ==> Contents[0] == timestamps[tail]
        invariant Evict(Contents, cutoff) == Evict(live0, cutoff)
        decreases |Contents|
      {
        EvictStep(Contents, cutoff);
        DropOldest();
      }
      EvictNone(Contents, cutoff);
    }

    /** The full-buffer branch of allow(): wait for the oldest entry to leave the window, and drop it. */
    method WaitIfFull(now: int) returns (w: Wait)
      requires Ring()
      modifies this
      ensures Ring() && head == old(head) && Next(head, bufferSize) != tail
      ensures var full := |old(Contents)| == bufferSize - 1;
              && w == (if full then Slept(old(Contents)[0] + periodMs - now + 1) else NoWait)
              && Contents == (if full then old(Contents)[1..] else old(Contents))
              && tail == (if full then Next(old(tail), bufferSize) else old(tail))
      ensures History == old(History) && Clock == old(Clock)
    {
      if Next(head, bufferSize) == tail {
        var relaxMs := timestamps[tail] + periodMs - now;
        w := Slept(relaxMs + 1);
        HoldsDrop(timestamps[..], tail, Contents, 0);
        DropOldest();
      } else {
        w := NoWait;
      }
    }

    /** `tail = (tail + 1) % bufferSize` on a non-empty buffer: forget the oldest entry. */
    method DropOldest()
      requires Ring() && tail != head
      modifies this
      ensures Ring() && head == old(head) && tail == Next(old(tail), bufferSize)
      ensures Contents == old(Contents)[1..]
      ensures Contents != [] ==> Contents[0] == timestamps[tail]
      ensures History == old(History) && Clock == old(Clock)
    {
      AdvanceTail(head, tail, bufferSize);
      NextWraps(tail, bufferSize);
      HoldsDrop(timestamps[..], tail, Contents, 0);
      tail := (tail + 1) % bufferSize;
      Contents := Contents[1..];
      if Contents != [] {
        HoldsDrop(timestamps[..], tail, Contents, 0);
      }
    }

    /** Write `stamp` at head and advance head, as allow() does last. */
    method Record(stamp: int)
      requires Ring() && Next(head, bufferSize) != tail
      modifies this, timestamps
      ensures Ring() && tail == old(tail) && head == Next(old(head), bufferSize)
      ensures Contents == old(Contents) + [stamp]
      ensures timestamps[..] == old(timestamps[..])[old(head) := stamp]
      ensures History == old(History) + [stamp] && Clock == stamp
    {
      AdvanceHead(head, tail, bufferSize);
      NextWraps(head, bufferSize);
      HoldsAppend(timestamps[..], tail, Contents, 0, stamp);
      ghost var cells := timestamps[..];
      timestamps[head] := stamp;
      assert timestamps[..] == cells[head := stamp];
      head := (head + 1) % bufferSize;
      Contents := Contents + [stamp];
      History := History + [stamp];
      Clock := stamp;
    }

    /**
     * allow(): evict, wait if full, record.  The new state is the burst step
     * of the old contents; only the cell at the old head is written.
     */
    method Admit(now: int, lag: nat) returns (w: Wait)
      requires Ring()
      modifies this, timestamps
      ensures Ring()
      ensures var s := BurstStep(old(Contents), periodMs, bufferSize - 1, now, lag);
              && w == s.wait && Contents == s.live
              && History == old(History) + [s.recorded] && Clock == s.recorded
              && head == Next(old(head), bufferSize)
              && tail == Slot(old(tail), s.removed, bufferSize)
              && timestamps[..] == old(timestamps[..])[old(head) := s.recorded]
    {
      ghost var live0 := Contents;
      ghost var cells0 := timestamps[..];
      EvictBefore(now - periodMs);
      ghost var kept := Contents;
      w := WaitIfFull(now);
      ghost var rest := Contents;
      assert timestamps[..] == cells0;
      Record(now + SleptMs(w) + lag);
      Stepped(live0, old(History), old(head), old(tail), cells0, kept, rest, w, now, lag);
    }

    /** The fields after the three phases of allow() are those of the burst step. */
    lemma Stepped(live0: seq<int>, hist0: seq<int>, head0: int, tail0: int, cells0: seq<int>,
                  kept: seq<int>, rest: seq<int>, w: Wait, now: int, lag: nat)
      requires 2 <= bufferSize && |live0| <= bufferSize - 1 && 0 <= tail0 < bufferSize
      requires 0 <= head0 < |cells0|
      requires kept == Evict(live0, now - periodMs)
      requires w == (if |kept| == bufferSize - 1 then Slept(kept[0] + periodMs - now + 1) else NoWait)
      requires rest == (if |kept| == bufferSize - 1 then kept[1..] else kept)
      requires var stamp := now + SleptMs(w) + lag;
               && Contents == rest + [stamp] && History == hist0 + [stamp] && Clock == stamp
               && timestamps[..] == cells0[head0 := stamp]
      requires head == Next(head0, bufferSize) && Slot(tail0, |live0|, bufferSize) == head0
      requires 0 <= tail < bufferSize && |Contents| < bufferSize && Slot(tail, |Contents|, bufferSize) == head
      ensures var s := BurstStep(live0, periodMs, bufferSize - 1, now, lag);
              && w == s.wait && Contents == s.live
              && History == hist0 + [s.recorded] && Clock == s.recorded
              && head == Next(head0, bufferSize)
              && tail == Slot(tail0, s.removed, bufferSize)
              && timestamps[..] == cells0[head0 := s.recorded]
    {
      BurstStepAfterEvict(live0, periodMs, bufferSize - 1, now, lag, kept, w, rest);
      var s := BurstStep(live0, periodMs, bufferSize - 1, now, lag);
      TailAfter(tail0, |live0|, tail, s.removed, bufferSize);
    }

    method Allow(now: int, lag: nat) returns (w: Wait)
      requires Valid() && Clock <= now
      modifies this, timestamps
      ensures Valid()
      ensures var s := BurstStep(old(Contents), periodMs, bufferSize - 1, now, lag);
              && w == s.wait && Contents == s.live
              && History == old(History) + [s.recorded] && Clock == s.recorded
              && head == Next(old(head), bufferSize)
              && tail == Slot(old(tail), s.removed, bufferSize)
              && timestamps[..] == old(timestamps[..])[old(head) := s.recorded]
    {
      ghost var live0, hist0, clock0 := Contents, History, Clock;
      w := Admit(now, lag);
      BurstStepAdmissible(hist0, live0, clock0, periodMs, bufferSize - 1, now, lag, History, Contents, Clock);
    }

    /** The rate guarantee of the class documentation, at every moment. */
    lemma RateGuarantee(from: int)
      requires Valid()
      ensures CountWithin(History, from, periodMs) <= ActionsInPeriod()
    {
      AtMostCapacityInAnyWindow(History, bufferSize - 1, periodMs, from);
    }
  }
}
