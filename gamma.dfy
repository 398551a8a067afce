/**
 * GammaThrottler: the same sliding window as the burst throttler, but
 * while the buffer is neither empty nor full every admission is delayed by
 * an amount shaped by a gamma curve, so that actions spread over the period.
 *
 * `Allow(now, lag, expectedMs)`: `now` is the clock reading of the call, and
 * the action is recorded at `now + sleep + lag`.  `expectedMs` stands for
 * `(long)(periodMs * Math.pow(actionsCount / actionsInPeriod, gamma))`, a
 * floating-point value that is only known to lie in [0, periodMs].
 */
module Gamma {
  import opened Window

  // ---------------------------------------------------------------------
  // The gamma parameter

  /** A Java `double`, as far as the constructor's comparisons can tell values apart. */
  datatype Double = NaN | NegInfinity | PosInfinity | Finite(value: real)

  /** Java's `d <= c`: false when d is NaN. */
  predicate AtMost(d: Double, c: real)
  {
    match d
    case NaN => false
    case NegInfinity => true
    case PosInfinity => false
    case Finite(x) => x <= c
  }

  /** Java's `d > c`: false when d is NaN. */
  predicate Above(d: Double, c: real)
  {
    match d
    case NaN => false
    case NegInfinity => false
    case PosInfinity => true
    case Finite(x) => x > c
  }

  /** The range the constructor's message announces: ]0...10]. */
  predicate GammaInRange(gamma: Double)
  {
    gamma.Finite? && 0.0 < gamma.value <= 10.0
  }

  /** The gamma check as the constructor writes it: reject when `gamma <= 0.0 || gamma > 10.0`. */
  function CheckGammaAsWritten(gamma: Double): (r: Option<ConfigError>)
    ensures r == None <==> GammaInRange(gamma) || gamma == NaN
  {
    if AtMost(gamma, 0.0) || Above(gamma, 10.0) then Some(GammaOutOfRange) else None
  }

  /** NaN fails both comparisons, so the check as written lets it through. */
  lemma NaNPassesGammaCheck()
    ensures CheckGammaAsWritten(NaN) == None && !GammaInRange(NaN)
  {
  }

  /** The gamma check as intended: accept exactly the values in ]0...10]. */
  function CheckGamma(gamma: Double): (r: Option<ConfigError>)
    ensures r == None <==> GammaInRange(gamma)
    ensures r != None ==> r == Some(GammaOutOfRange)
  {
    if !(Above(gamma, 0.0) && AtMost(gamma, 10.0)) then Some(GammaOutOfRange) else None
  }

  /** The intended check differs from the written one on NaN only. */
  lemma CheckGammaAgreesExceptNaN(gamma: Double)
    ensures gamma != NaN ==> CheckGamma(gamma) == CheckGammaAsWritten(gamma)
    ensures CheckGamma(NaN) != CheckGammaAsWritten(NaN)
  {
  }

  /** All constructor checks, in the constructor's order. */
  function CheckGammaConfig(periodMs: int, actionsInPeriod: int, gamma: Double): (r: Option<ConfigError>)
    ensures r == None <==>
              2 <= actionsInPeriod <= 10000 && actionsInPeriod <= periodMs && GammaInRange(gamma)
    ensures CheckConfig(periodMs, actionsInPeriod, 10000) != None ==>
              r == CheckConfig(periodMs, actionsInPeriod, 10000)
  {
    var r := CheckConfig(periodMs, actionsInPeriod, 10000);
    if r.Some? then r else CheckGamma(gamma)
  }

  /**
   * All constructor checks as the constructor writes them: NaN passes the
   * gamma check, and on every other gamma the result is the intended one.
   */
  function CheckGammaConfigAsWritten(periodMs: int, actionsInPeriod: int, gamma: Double): (r: Option<ConfigError>)
    ensures r == None <==>
              2 <= actionsInPeriod <= 10000 && actionsInPeriod <= periodMs && (GammaInRange(gamma) || gamma == NaN)
    ensures gamma != NaN ==> r == CheckGammaConfig(periodMs, actionsInPeriod, gamma)
  {
    var r := CheckConfig(periodMs, actionsInPeriod, 10000);
    if r.Some? then r else CheckGammaAsWritten(gamma)
  }

  /** The gamma of the two-argument constructor. */
  const DefaultGamma: Double := Finite(1.0)

  // ---------------------------------------------------------------------
  // relax() and gamma()

  /** relax(ms): sleep for ms milliseconds when ms is positive, otherwise do nothing. */
  function Relax(ms: int): (w: Wait)
    ensures w.Slept? <==> ms > 0
    ensures w.Slept? ==> w.ms == ms
  {
    if ms > 0 then Slept(ms) else NoWait
  }

  /**
   * gamma(actionsCount): the delay for an admission while `actionsCount`
   * entries are live and `oldest` is the oldest of them.  `timeReserve` is
   * how long the oldest entry stays in the window; the delay spends the part
   * of it that the gamma curve does not reserve.
   */
  function GammaDelay(bufferSize: int, actionsCount: int, oldest: int, periodMs: int, now: int,
                      expectedMs: int): (d: int)
    ensures bufferSize - 1 - actionsCount >= 1 ==> d >= 1
    ensures bufferSize - 1 - actionsCount >= 1 && 0 <= expectedMs <= periodMs ==>
              d <= Max(1, oldest + periodMs - now)
    ensures bufferSize - 1 - actionsCount >= 1 && expectedMs - periodMs + oldest + periodMs - now > 0 ==>
              d + periodMs - expectedMs == oldest + periodMs - now
    ensures bufferSize - 1 - actionsCount >= 1 && 0 <= expectedMs <= periodMs && 1 <= periodMs && oldest <= now ==>
              d <= periodMs
  {
    var actionsReserve := bufferSize - 1 - actionsCount;
    var timeReserveMs := oldest + periodMs - now;
    if actionsReserve < 1 then
      timeReserveMs - 1
    else
      var result := expectedMs - periodMs + timeReserveMs;
      if result <= 0 then 1 else result
  }

  function Max(a: int, b: int): int
  {
    if a >= b then a else b
  }

  // ---------------------------------------------------------------------
  // One admission on the logical contents

  /**
   * One call of allow() on the logical contents `live` (oldest first):
   * evict outdated entries; if the buffer is full, relax until the oldest
   * entry leaves the window and drop it; otherwise, if it is not empty,
   * relax by the gamma delay; record the action.
   */
  function GammaStep(live: seq<int>, periodMs: int, capacity: int, now: int, lag: nat,
                     expectedMs: int): (s: Step)
    requires 1 <= capacity && |live| <= capacity
    ensures s.removed <= |live| && |s.live| <= capacity
  {
    var kept := Evict(live, now - periodMs);
    var full := |kept| == capacity;
    var w := GammaWait(kept, periodMs, capacity, now, expectedMs);
    var t := now + SleptMs(w) + lag;
    Step(w, |live| - |kept| + (if full then 1 else 0), t, (if full then kept[1..] else kept) + [t])
  }

  /** The relax() of registerNewAction() once eviction has left `kept`. */
  function GammaWait(kept: seq<int>, periodMs: int, capacity: int, now: int, expectedMs: int): (w: Wait)
    requires 1 <= capacity && |kept| <= capacity
    ensures kept == [] ==> w == NoWait
    ensures |kept| == capacity && kept[0] >= now - periodMs ==> w == Slept(kept[0] + periodMs - now + 1)
    ensures 0 < |kept| < capacity ==> w.Slept? && w.ms >= 1
  {
    if |kept| == capacity then Relax(kept[0] + periodMs - now + 1)
    else if kept == [] then NoWait
    else Relax(GammaDelay(capacity + 1, |kept|, kept[0], periodMs, now, expectedMs))
  }

  /**
   * GammaStep as the class computes it: first evict (leaving `kept`), then
   * relax, dropping the oldest entry of a full buffer (leaving `rest`).
   */
  lemma GammaStepAfterEvict(live: seq<int>, periodMs: int, capacity: int, now: int, lag: nat,
                            expectedMs: int, kept: seq<int>, w: Wait, rest: seq<int>)
    requires 1 <= capacity && |live| <= capacity
    requires kept == Evict(live, now - periodMs)
    requires w == GammaWait(kept, periodMs, capacity, now, expectedMs)
    requires rest == (if |kept| == capacity then kept[1..] else kept)
    ensures var s := GammaStep(live, periodMs, capacity, now, lag, expectedMs);
            && s.wait == w
            && s.removed == |live| - |kept| + (if |kept| == capacity then 1 else 0)
            && s.recorded == now + SleptMs(w) + lag && s.live == rest + [s.recorded]
  {
  }

  /**
   * What one gamma admission promises.  On an empty buffer it only records.
   * On a full one it sleeps at least 1 ms, drops exactly one entry, and
   * records more than periodMs after the dropped entry.  In between it
   * sleeps by a gamma delay computed for the live count, which lies in
   * [1, actionsInPeriod - 1], so gamma()'s full-buffer fallback is never
   * taken; the delay is at least 1 ms and, for an `expectedMs` in
   * [0, periodMs], at most the time the oldest entry stays in the window
   * (or 1 ms).  Every removed entry is outdated when the action is recorded.
   */
  lemma GammaStepSpec(live: seq<int>, periodMs: int, capacity: int, now: int, lag: nat, expectedMs: int)
    requires 1 <= capacity && |live| <= capacity
    ensures var s := GammaStep(live, periodMs, capacity, now, lag, expectedMs);
            var kept := Evict(live, now - periodMs);
            && s.recorded == now + SleptMs(s.wait) + lag
            && s.live == live[s.removed..] + [s.recorded]
            && (forall i :: 0 <= i < s.removed ==> live[i] < s.recorded - periodMs)
            && (kept == [] ==> s.wait == NoWait && s.removed == |live|)
            && (|kept| == capacity ==>
                  && s.wait.Slept? && s.wait.ms >= 1
                  && s.removed == |live| - |kept| + 1
                  && s.recorded >= live[s.removed - 1] + periodMs + 1)
            && (0 < |kept| < capacity ==>
                  && 1 <= |kept| <= (capacity + 1) - 2
                  && s.wait == Slept(GammaDelay(capacity + 1, |kept|, kept[0], periodMs, now, expectedMs))
                  && s.removed == |live| - |kept|
                  && (0 <= expectedMs <= periodMs ==> s.wait.ms <= Max(1, kept[0] + periodMs - now)))
  {
    EvictSuffix(live, now - periodMs);
    var kept := Evict(live, now - periodMs);
    if |kept| == capacity {
      assert kept[1..] == live[|live| - |kept| + 1..];
    }
  }

  /** A gamma admission keeps the history invariant, and so the rate guarantee. */
  lemma GammaStepAdmissible(hist: seq<int>, live: seq<int>, clock: int, periodMs: int, capacity: int,
                            now: int, lag: nat, expectedMs: int,
                            hist1: seq<int>, live1: seq<int>, clock1: int)
    requires 1 <= capacity && |live| <= capacity
    requires Admissible(hist, live, clock, periodMs, capacity)
    requires clock <= now
    requires var s := GammaStep(live, periodMs, capacity, now, lag, expectedMs);
             hist1 == hist + [s.recorded] && live1 == s.live && clock1 == s.recorded
    ensures Admissible(hist1, live1, clock1, periodMs, capacity)
  {
    var s := GammaStep(live, periodMs, capacity, now, lag, expectedMs);
    GammaStepSpec(live, periodMs, capacity, now, lag, expectedMs);
    AdmitPreserves(hist, live, clock, periodMs, capacity, s.removed, s.recorded);
  }

  class GammaThrottler {
    const gamma: Double
    const periodMs: int
    const bufferSize: int
    /** The circular buffer of recent admission times. */
    const timestamps: array<int>
    /** The next free cell. */
    var head: int
    /** The oldest live entry. */
    var tail: int

    /** The live entries, oldest first. */
    ghost var Contents: seq<int>
    /** Every admission time so far. */
    ghost var History: seq<int>
    /** The latest clock reading. */
    ghost var Clock: int

    /** The circular-buffer structure: `Contents` is what the cells from tail to head hold. */
    ghost predicate Ring()
      reads this, timestamps
    {
      && 3 <= bufferSize && timestamps.Length == bufferSize
      && 0 <= head < bufferSize && 0 <= tail < bufferSize
      && |Contents| == Count(head, tail, bufferSize)
      && Holds(timestamps[..], tail, Contents, 0)
    }

    ghost predicate Valid()
      reads this, timestamps
    {
      && Ring()
      && bufferSize <= 10001 && bufferSize - 1 <= periodMs
      && Admissible(History, Contents, Clock, periodMs, bufferSize - 1)
    }

    /** The throttler allows at most this many actions in periodMs. */
    function ActionsInPeriod(): int
      reads this
    {
      bufferSize - 1
    }

    /** The constructor once its checks have passed; `clock` is the time of creation. */
    constructor Init(periodMs: int, actionsInPeriod: int, gamma: Double, ghost clock: int)
      requires CheckGammaConfig(periodMs, actionsInPeriod, gamma) == None
      ensures Valid() && fresh(timestamps)
      ensures this.gamma == gamma && this.periodMs == periodMs && bufferSize == actionsInPeriod + 1
      ensures head == 0 && tail == 0
      ensures Contents == [] && History == [] && Clock == clock
    {
      this.gamma := gamma;
      this.periodMs := periodMs;
      this.bufferSize := actionsInPeriod + 1;
      timestamps := new int[actionsInPeriod + 1];
      head, tail := 0, 0;
      Contents, History, Clock := [], [], clock;
      AdmissibleInitially(clock, periodMs, actionsInPeriod);
    }

    /** The three-argument constructor: the argument checks, then the initial state. */
    static method New(periodMs: Int32, actionsInPeriod: Int32, gamma: Double, ghost clock: int)
      returns (r: Result<GammaThrottler, ConfigError>)
      ensures r.Err? <==> CheckGammaConfig(periodMs, actionsInPeriod, gamma) != None
      ensures r.Err? ==> Some(r.error) == CheckGammaConfig(periodMs, actionsInPeriod, gamma)
      ensures r.Ok? ==> fresh(r.value) && fresh(r.value.timestamps) && r.value.Valid()
      ensures r.Ok? ==> r.value.gamma == gamma && r.value.periodMs == periodMs
      ensures r.Ok? ==> r.value.bufferSize == actionsInPeriod + 1
      ensures r.Ok? ==> r.value.head == 0 && r.value.tail == 0 && r.value.Contents == []
      ensures r.Ok? ==> r.value.History == [] && r.value.Clock == clock
    {
      var check := CheckGammaConfig(periodMs, actionsInPeriod, gamma);
      if check.Some? {
        return Err(check.value);
      }
      var t := new GammaThrottler.Init(periodMs, actionsInPeriod, gamma, clock);
      return Ok(t);
    }

    /** The two-argument constructor: gamma 1.0. */
    static method NewDefault(periodMs: Int32, actionsInPeriod: Int32, ghost clock: int)
      returns (r: Result<GammaThrottler, ConfigError>)
      ensures r.Err? <==> CheckConfig(periodMs, actionsInPeriod, 10000) != None
      ensures r.Err? ==> Some(r.error) == CheckConfig(periodMs, actionsInPeriod, 10000)
      ensures r.Ok? ==> fresh(r.value) && fresh(r.value.timestamps) && r.value.Valid()
      ensures r.Ok? ==> r.value.gamma == DefaultGamma && r.value.periodMs == periodMs
      ensures r.Ok? ==> r.value.bufferSize == actionsInPeriod + 1
      ensures r.Ok? ==> r.value.head == 0 && r.value.tail == 0 && r.value.Contents == []
    {
      r := New(periodMs, actionsInPeriod, DefaultGamma, clock);
    }

    /** removeOutdatedActions(): advance tail past every entry older than now - periodMs. */
    method RemoveOutdatedActions(now: int)
      requires Ring()
      modifies this
      ensures Ring() && head == old(head)
      ensures Contents == Evict(old(Contents), now - periodMs)
      ensures History == old(History) && Clock == old(Clock)
    {
      var outdatedMs := now - periodMs;
      ghost var live0 := Contents;
      if Contents != [] {
        HoldsDrop(timestamps[..], tail, Contents, 0);
      }
      while tail != head && timestamps[tail] < outdatedMs
        invariant Ring() && head == old(head)
        invariant History == old(History) && Clock == old(Clock)
        invariant Contents != [] ==> Contents[0] == timestamps[tail]
        invariant Evict(Contents, outdatedMs) == Evict(live0, outdatedMs)
        decreases |Contents|
      {
        EvictStep(Contents, outdatedMs);
        DropOldest();
      }
      EvictNone(Contents, outdatedMs);
    }

    /**
     * The branches of registerNewAction() before it records: on a full
     * buffer relax until the oldest entry is outdated and drop it; on a
     * non-empty one relax by gamma(actionsCount).
     */
    method DelayOrDrop(now: int, expectedMs: int) returns (w: Wait)
      requires Ring()
      modifies this
      ensures Ring() && head == old(head) && Next(head, bufferSize) != tail
      ensures var full := |old(Contents)| == bufferSize - 1;
              && w == GammaWait(old(Contents), periodMs, bufferSize - 1, now, expectedMs)
              && Contents == (if full then old(Contents)[1..] else old(Contents))
              && tail == (if full then Next(old(tail), bufferSize) else old(tail))
      ensures History == old(History) && Clock == old(Clock)
    {
      if Next(head, bufferSize) == tail {
        var msToRelaxToMakeTailOutdated := timestamps[tail] + periodMs - now + 1;
        w := Relax(msToRelaxToMakeTailOutdated);
        HoldsDrop(timestamps[..], tail, Contents, 0);
        DropOldest();
      } else if tail != head {
        var actionsCount := head - tail;
        if actionsCount < 0 {
          actionsCount := actionsCount + bufferSize;
        }
        HoldsDrop(timestamps[..], tail, Contents, 0);
        w := Relax(GammaDelay(bufferSize, actionsCount, timestamps[tail], periodMs, now, expectedMs));
      } else {
        w := NoWait;
      }
    }

    /** `tail = (tail + 1) % bufferSize` on a non-empty buffer: forget the oldest entry. */
    method DropOldest()
      requires Ring() && tail != head
      modifies this
      ensures Ring() && head == old(head) && tail == Next(old(tail), bufferSize)
      ensures Contents == old(Contents)[1..]
      ensures Contents != [] ==> Contents[0] == timestamps[tail]
      ensures History == old(History) && Clock == old(Clock)
    {
      AdvanceTail(head, tail, bufferSize);
      NextWraps(tail, bufferSize);
      HoldsDrop(timestamps[..], tail, Contents, 0);
      tail := (tail + 1) % bufferSize;
      Contents := Contents[1..];
      if Contents != [] {
        HoldsDrop(timestamps[..], tail, Contents, 0);
      }
    }

    /** Write `stamp` at head and advance head, as registerNewAction() does last. */
    method Record(stamp: int)
      requires Ring() && Next(head, bufferSize) != tail
      modifies this, timestamps
      ensures Ring() && tail == old(tail) && head == Next(old(head), bufferSize)
      ensures Contents == old(Contents) + [stamp]
      ensures timestamps[..] == old(timestamps[..])[old(head) := stamp]
      ensures History == old(History) + [stamp] && Clock == stamp
    {
      AdvanceHead(head, tail, bufferSize);
      NextWraps(head, bufferSize);
      HoldsAppend(timestamps[..], tail, Contents, 0, stamp);
      ghost var cells := timestamps[..];
      timestamps[head] := stamp;
      assert timestamps[..] == cells[head := stamp];
      head := (head + 1) % bufferSize;
      Contents := Contents + [stamp];
      History := History + [stamp];
      Clock := stamp;
    }

    /** registerNewAction(): delay or drop, then record at `now + sleep + lag`. */
    method RegisterNewAction(now: int, lag: nat, expectedMs: int) returns (w: Wait)
      requires Ring()
      modifies this, timestamps
      ensures Ring() && head == Next(old(head), bufferSize)
      ensures var full := |old(Contents)| == bufferSize - 1;
              var t := now + SleptMs(w) + lag;
              && w == GammaWait(old(Contents), periodMs, bufferSize - 1, now, expectedMs)
              && Contents == (if full then old(Contents)[1..] else old(Contents)) + [t]
              && tail == (if full then Next(old(tail), bufferSize) else old(tail))
              && timestamps[..] == old(timestamps[..])[old(head) := t]
              && History == old(History) + [t] && Clock == t
    {
      ghost var cells0, live0 := timestamps[..], Contents;
      ghost var kept := if |live0| == bufferSize - 1 then live0[1..] else live0;
      w := DelayOrDrop(now, expectedMs);
      assert timestamps[..] == cells0 && Contents == kept;
      var t := now + SleptMs(w) + lag;
      Record(t);
      assert Contents == kept + [t];
    }

    /**
     * allow(): removeOutdatedActions() then registerNewAction().  The new
     * state is the gamma step of the old contents; only the cell at the old
     * head is written.
     */
    method Admit(now: int, lag: nat, expectedMs: int) returns (w: Wait)
      requires Ring()
      modifies this, timestamps
      ensures Ring()
      ensures var s := GammaStep(old(Contents), periodMs, bufferSize - 1, now, lag, expectedMs);
              && w == s.wait && Contents == s.live
              && History == old(History) + [s.recorded] && Clock == s.recorded
              && head == Next(old(head), bufferSize)
              && tail == Slot(old(tail), s.removed, bufferSize)
              && timestamps[..] == old(timestamps[..])[old(head) := s.recorded]
    {
      ghost var live0 := Contents;
      ghost var cells0 := timestamps[..];
      RemoveOutdatedActions(now);
      ghost var kept := Contents;
      assert timestamps[..] == cells0;
      w := RegisterNewAction(now, lag, expectedMs);
      Stepped(live0, old(History), old(head), old(tail), cells0, kept, w, now, lag, expectedMs);
    }

    /** The fields after removeOutdatedActions() and registerNewAction() are those of the gamma step. */
    lemma Stepped(live0: seq<int>, hist0: seq<int>, head0: int, tail0: int, cells0: seq<int>,
                  kept: seq<int>, w: Wait, now: int, lag: nat, expectedMs: int)
      requires 2 <= bufferSize && |live0| <= bufferSize - 1 && 0 <= tail0 < bufferSize
      requires 0 <= head0 < |cells0|
      requires kept == Evict(live0, now - periodMs)
      requires var full := |kept| == bufferSize - 1;
               var t := now + SleptMs(w) + lag;
               && w == GammaWait(kept, periodMs, bufferSize - 1, now, expectedMs)
               && Contents == (if full then kept[1..] else kept) + [t]
               && timestamps[..] == cells0[head0 := t]
               && History == hist0 + [t] && Clock == t
      requires head == Next(head0, bufferSize) && Slot(tail0, |live0|, bufferSize) == head0
      requires 0 <= tail < bufferSize && |Contents| < bufferSize && Slot(tail, |Contents|, bufferSize) == head
      ensures var s := GammaStep(live0, periodMs, bufferSize - 1, now, lag, expectedMs);
              && w == s.wait && Contents == s.live
              && History == hist0 + [s.recorded] && Clock == s.recorded
              && head == Next(head0, bufferSize)
              && tail == Slot(tail0, s.removed, bufferSize)
              && timestamps[..] == cells0[head0 := s.recorded]
    {
      var rest := if |kept| == bufferSize - 1 then kept[1..] else kept;
      GammaStepAfterEvict(live0, periodMs, bufferSize - 1, now, lag, expectedMs, kept, w, rest);
      var s := GammaStep(live0, periodMs, bufferSize - 1, now, lag, expectedMs);
      TailAfter(tail0, |live0|, tail, s.removed, bufferSize);
    }

    /** allow(), keeping the history invariant. */
    method Allow(now: int, lag: nat, expectedMs: int) returns (w: Wait)
      requires Valid() && Clock <= now
      modifies this, timestamps
      ensures Valid()
      ensures var s := GammaStep(old(Contents), periodMs, bufferSize - 1, now, lag, expectedMs);
              && w == s.wait && Contents == s.live
              && History == old(History) + [s.recorded] && Clock == s.recorded
              && head == Next(old(head), bufferSize)
              && tail == Slot(old(tail), s.removed, bufferSize)
              && timestamps[..] == old(timestamps[..])[old(head) := s.recorded]
    {
      ghost var live0, hist0, clock0 := Contents, History, Clock;
      w := Admit(now, lag, expectedMs);
      GammaStepAdmissible(hist0, live0, clock0, periodMs, bufferSize - 1, now, lag, expectedMs,
                          History, Contents, Clock);
    }

    /** The rate guarantee, at every moment. */
    lemma RateGuarantee(from: int)
      requires Valid()
      ensures CountWithin(History, from, periodMs) <= ActionsInPeriod()
    {
      AtMostCapacityInAnyWindow(History, bufferSize - 1, periodMs, from);
    }
  }
}
