/**
 * SmallThrottler: the burst throttler with half the memory.  The buffer
 * holds Java `int` offsets from a `long` base time `baseMs`, and the base is
 * moved to the current time whenever the buffer is empty.
 *
 * A call `allow()` is modelled as `Allow(now, lag)`, as for the burst
 * throttler: `now` is the clock reading at the start of the call and the
 * action is recorded (and, on an empty buffer, the base moved) at
 * `now + sleep + lag`.  Offsets are computed with Java's narrowing cast
 * `(int)` of a `long`, which wraps around; while every cast is exact the
 * throttler does what the burst throttler does.
 */
module Small {
  import opened Window
  import Burst

  /** Java's `(int)` cast of a `long`: the value modulo 2^32, in [MinInt32, MaxInt32]. */
  function ToInt32(x: int): (r: Int32)
    ensures Fits(x) <==> r == x
    ensures (x - r) % 0x1_0000_0000 == 0
  {
    (x - MinInt32) % 0x1_0000_0000 + MinInt32
  }

  /** The cast `(int) x` is exact. */
  predicate Fits(x: int)
  {
    MinInt32 <= x <= MaxInt32
  }

  /** The exception Thread.sleep() throws out of allow() on a negative argument. */
  datatype SleepError = NegativeTimeout(ms: int)

  /**
   * The outcome of one call on the decoded contents (offset + base, oldest
   * first): either it records an action (`step`, with the base afterwards),
   * or its full-buffer sleep is handed a negative time and the exception
   * leaves the call after eviction, with nothing recorded.
   */
  datatype Outcome =
    | Admitted(step: Step, base: int)
    | Refused(kept: seq<int>, ms: int)

  /**
   * The first two phases of allow() on the decoded contents `live` with
   * base `base`: evict entries whose offset is below the truncated cutoff,
   * then, on a full buffer, sleep until one millisecond after the oldest
   * entry leaves the window and drop it.  The result is what the sleep did
   * (or the exception it threw, with nothing dropped) and the contents left.
   */
  function SmallPrepare(live: seq<int>, base: int, periodMs: int, capacity: int, now: int)
    : (p: (Result<Wait, SleepError>, seq<int>))
    requires 1 <= capacity && |live| <= capacity
    ensures |p.1| <= |live|
  {
    FullBranch(Evict(live, ToInt32(now - periodMs - base) + base), periodMs, capacity, now)
  }

  /**
   * The full-buffer branch alone: with `capacity` live entries, sleep until
   * the oldest leaves the window and drop it, unless the sleep time is
   * negative.
   */
  function FullBranch(kept: seq<int>, periodMs: int, capacity: int, now: int)
    : (p: (Result<Wait, SleepError>, seq<int>))
    requires 1 <= capacity && |kept| <= capacity
    ensures |p.1| <= |kept|
    ensures p.0.Err? <==> |kept| == capacity && kept[0] + periodMs - now + 1 < 0
    ensures p.0.Ok? ==> |p.1| < capacity
    ensures p.1 == kept || (kept != [] && p.1 == kept[1..])
  {
    if |kept| < capacity then (Ok(NoWait), kept)
    else
      var ms := kept[0] + periodMs - now + 1;
      if ms < 0 then (Err(NegativeTimeout(ms)), kept) else (Ok(Slept(ms)), kept[1..])
  }

  /**
   * One call of allow(): the first two phases, then, unless the sleep threw,
   * move the base to the recording time if the buffer is empty and record
   * the truncated offset.  `step.recorded` is the time of the call, the last
   * entry of `step.live` the value it is stored as.
   */
  function SmallStep(live: seq<int>, base: int, periodMs: int, capacity: int, now: int, lag: nat): (o: Outcome)
    requires 1 <= capacity && |live| <= capacity
    ensures o.Admitted? ==> o.step.removed <= |live| && |o.step.live| <= capacity
  {
    var (r, rest) := SmallPrepare(live, base, periodMs, capacity, now);
    match r
    case Err(e) => Refused(rest, e.ms)
    case Ok(w) =>
      var t := now + SleptMs(w) + lag;
      var base1 := if rest == [] then t else base;
      Admitted(Step(w, |live| - |rest|, t, rest + [ToInt32(t - base1) + base1]), base1)
  }

  /** The cutoff offset of the eviction loop is computed exactly. */
  predicate CutoffFits(base: int, periodMs: int, now: int)
  {
    Fits(now - periodMs - base)
  }

  /** Every cast of the call is exact: the cutoff, and the offset it records. */
  predicate StepFits(o: Outcome, base: int, periodMs: int, now: int)
  {
    CutoffFits(base, periodMs, now) && (o.Admitted? ==> Fits(o.step.recorded - o.base))
  }

  /**
   * What one call promises on its own.  The entries it keeps are stored
   * unchanged, so moving the base never changes the meaning of a live
   * entry, and the base only moves when nothing else is live.  A full
   * buffer always leaves at least one entry (actionsInPeriod >= 2), so a
   * forced sleep and a rebase never happen in the same call, and after a
   * sleep the new action is more than periodMs after the entry it drops.
   * The new entry is stored exactly when its offset fits in an `int`.
   */
  lemma SmallStepSpec(live: seq<int>, base: int, periodMs: int, capacity: int, now: int, lag: nat)
    requires 2 <= capacity && |live| <= capacity
    ensures match SmallStep(live, base, periodMs, capacity, now, lag)
            case Admitted(s, base1) =>
              && s.removed <= |live| && |s.live| <= capacity
              && s.recorded == now + SleptMs(s.wait) + lag
              && s.live == live[s.removed..] + [ToInt32(s.recorded - base1) + base1]
              && (base1 != base ==> s.removed == |live| && base1 == s.recorded)
              && (s.wait.Slept? ==> base1 == base && s.wait.ms >= 0)
              && (s.wait.Slept? ==> 1 <= s.removed && s.recorded >= live[s.removed - 1] + periodMs + 1)
              && (s.live[|s.live| - 1] == s.recorded <==> Fits(s.recorded - base1))
            case Refused(kept, ms) =>
              && ms < 0 && |kept| == capacity
              && kept == live[|live| - |kept|..]
  {
    var cutoff := ToInt32(now - periodMs - base) + base;
    EvictSuffix(live, cutoff);
    var kept := Evict(live, cutoff);
    if |kept| == capacity {
      assert kept[1..] == live[|live| - |kept| + 1..];
    }
  }

  /**
   * The class documentation's claim that the small throttler repeats the
   * burst throttler's behaviour: when the cutoff cast is exact the call is
   * never refused, and when the recorded offset fits too, the call waits,
   * removes, records and keeps exactly what the burst throttler's call does.
   */
  lemma SmallRefinesBurst(live: seq<int>, base: int, periodMs: int, capacity: int, now: int, lag: nat)
    requires 1 <= capacity && |live| <= capacity
    ensures var o := SmallStep(live, base, periodMs, capacity, now, lag);
            && (CutoffFits(base, periodMs, now) ==> o.Admitted?)
            && (StepFits(o, base, periodMs, now) ==> o.step == Burst.BurstStep(live, periodMs, capacity, now, lag))
  {
    var cutoff := ToInt32(now - periodMs - base) + base;
    if CutoffFits(base, periodMs, now) {
      assert cutoff == now - periodMs;
      EvictSuffix(live, cutoff);
    }
  }

  /**
   * Stored offsets fit in an `int` (and are not negative) exactly while the
   * time since the base is at most 2^31 - 1 milliseconds.
   */
  lemma OffsetFitsIff(base: int, t: int)
    requires base <= t
    ensures 0 <= ToInt32(t - base) <= MaxInt32 && ToInt32(t - base) + base == t <==> t - base <= MaxInt32
  {
  }

  /** The lifetime the class documentation announces for a never-emptied buffer: 200 days. */
  const DocumentedLifetimeMs: int := 200 * 24 * 60 * 60 * 1000

  /**
   * Within the documented lifetime the offset of a new action can already
   * wrap around: 2^31 ms after the base (about 24.86 days) it is stored as
   * -2^31, so the entry decodes to a time 2^32 ms in the past, outdated for
   * any periodMs.
   */
  lemma DocumentedLifetimeOverflows(base: int, periodMs: Int32)
    ensures var t := base + MaxInt32 + 1;
            && t - base <= DocumentedLifetimeMs
            && ToInt32(t - base) == MinInt32
            && ToInt32(t - base) + base < t - periodMs
  {
  }

  /** The lifetime the offsets actually have: 2^31 - 1 ms, roughly 24.86 days. */
  const OffsetLifetimeMs: int := MaxInt32

  /**
   * Every action recorded within OffsetLifetimeMs of the base is stored
   * exactly, and the first one after it is not.
   */
  lemma OffsetLifetimeExact(base: int, t: int)
    requires base <= t
    ensures t - base <= OffsetLifetimeMs <==> ToInt32(t - base) + base == t
    ensures OffsetLifetimeMs < DocumentedLifetimeMs
  {
  }

  /**
   * The lifetime reaches the exact-cast flag: with an `int` period, a call
   * no earlier than the base and at most OffsetLifetimeMs after it, whose
   * action is recorded at most OffsetLifetimeMs after the base it keeps,
   * makes only exact casts.
   */
  lemma StepFitsWithinLifetime(live: seq<int>, base: int, periodMs: int, capacity: int, now: int, lag: nat)
    requires 2 <= capacity && |live| <= capacity
    requires 0 <= periodMs <= MaxInt32 && base <= now && now - base <= OffsetLifetimeMs
    requires var o := SmallStep(live, base, periodMs, capacity, now, lag);
             o.Admitted? ==> o.step.recorded - o.base <= OffsetLifetimeMs
    ensures StepFits(SmallStep(live, base, periodMs, capacity, now, lag), base, periodMs, now)
  {
    SmallStepSpec(live, base, periodMs, capacity, now, lag);
  }

  /**
   * One idle gap of about 24.86 days breaks the throttler, although the
   * buffer was emptied before it: with periodMs 10 and actionsInPeriod 2,
   * an action at the base time 0 and the next call 2^31 + 11 ms later, the
   * cutoff cast wraps negative, so the stale entry is kept, and the new
   * offset wraps too.  The call after that finds a full buffer and hands
   * Thread.sleep a negative time.
   */
  lemma IdleGapRefuses()
    ensures var o0 := SmallStep([], 0, 10, 2, 0, 0);
            && o0 == Admitted(Step(NoWait, 0, 0, [0]), 0)
            && var now := MaxInt32 + 12;
               && !CutoffFits(0, 10, now)
               && var o1 := SmallStep([0], 0, 10, 2, now, 0);
                  && o1 == Admitted(Step(NoWait, 0, now, [0, MinInt32 + 11]), 0)
                  && SmallStep(o1.step.live, 0, 10, 2, now, 0).Refused?
  {
    var now := MaxInt32 + 12;
    assert ToInt32(now - 10) == MinInt32 + 1;
    assert Evict([0], MinInt32 + 1) == [0];
    assert ToInt32(now) == MinInt32 + 11;
    assert Evict([0, MinInt32 + 11], MinInt32 + 1) == [0, MinInt32 + 11];
  }

  /** No live entry lies before the base, so every stored offset is non-negative. */
  ghost predicate NotBefore(live: seq<int>, base: int)
  {
    forall k :: 0 <= k < |live| ==> base <= live[k]
  }

  /** An admission with exact casts keeps the history invariant. */
  lemma SmallStepAdmissible(hist: seq<int>, live: seq<int>, clock: int, base: int, periodMs: int,
                            capacity: int, now: int, lag: nat,
                            hist1: seq<int>, live1: seq<int>, clock1: int)
    requires 2 <= capacity && |live| <= capacity
    requires Admissible(hist, live, clock, periodMs, capacity) && clock <= now
    requires var o := SmallStep(live, base, periodMs, capacity, now, lag);
             && StepFits(o, base, periodMs, now) && o.Admitted?
             && hist1 == hist + [o.step.recorded] && live1 == o.step.live && clock1 == o.step.recorded
    ensures Admissible(hist1, live1, clock1, periodMs, capacity)
  {
    SmallRefinesBurst(live, base, periodMs, capacity, now, lag);
    Burst.BurstStepAdmissible(hist, live, clock, periodMs, capacity, now, lag, hist1, live1, clock1);
  }

  /**
   * An admission with exact casts keeps every live entry at or after the
   * base, and the base at or before the recording time.
   */
  lemma SmallStepNotBefore(live: seq<int>, base: int, periodMs: int, capacity: int, now: int, lag: nat)
    requires 2 <= capacity && |live| <= capacity
    requires NotBefore(live, base) && base <= now
    requires var o := SmallStep(live, base, periodMs, capacity, now, lag);
             StepFits(o, base, periodMs, now) && o.Admitted?
    ensures var o := SmallStep(live, base, periodMs, capacity, now, lag);
            o.base <= o.step.recorded && NotBefore(o.step.live, o.base)
  {
    var o := SmallStep(live, base, periodMs, capacity, now, lag);
    SmallStepSpec(live, base, periodMs, capacity, now, lag);
    var s, base1 := o.step, o.base;
    forall k | 0 <= k < |s.live|
      ensures base1 <= s.live[k]
    {
      if k < |s.live| - 1 {
        assert s.live[k] == live[s.removed + k];
      }
    }
  }

  /**
   * One call keeps the part of the class invariant about the history: the
   * base is never in the future, and while every cast was exact the history
   * invariant holds with no live entry before the base.
   */
  lemma SmallStepValid(hist: seq<int>, live: seq<int>, clock: int, base: int, intact: bool,
                       periodMs: int, capacity: int, now: int, lag: nat,
                       o: Outcome, hist1: seq<int>, live1: seq<int>, clock1: int, base1: int, intact1: bool)
    requires 2 <= capacity && |live| <= capacity
    requires base <= clock <= now
    requires intact ==> Admissible(hist, live, clock, periodMs, capacity) && NotBefore(live, base)
    requires o == SmallStep(live, base, periodMs, capacity, now, lag)
    requires && intact1 == (intact && StepFits(o, base, periodMs, now))
             && match o
                case Admitted(s, b) =>
                  hist1 == hist + [s.recorded] && live1 == s.live && clock1 == s.recorded && base1 == b
                case Refused(kept, _) =>
                  hist1 == hist && live1 == kept && clock1 == now && base1 == base
    ensures base1 <= clock1
    ensures intact1 ==> Admissible(hist1, live1, clock1, periodMs, capacity) && NotBefore(live1, base1)
  {
    SmallRefinesBurst(live, base, periodMs, capacity, now, lag);
    SmallStepSpec(live, base, periodMs, capacity, now, lag);
    if intact1 {
      SmallStepAdmissible(hist, live, clock, base, periodMs, capacity, now, lag, hist1, live1, clock1);
      SmallStepNotBefore(live, base, periodMs, capacity, now, lag);
    }
  }

  /** Every cell holds a Java `int`. */
  ghost predicate AllFit(cells: seq<int>)
  {
    forall i :: 0 <= i < |cells| ==> Fits(cells[i])
  }

  class SmallThrottler {
    const periodMs: int
    const bufferSize: int
    /** The circular buffer of offsets from baseMs; Java `int` cells, each written with ToInt32. */
    const timestamps: array<int>
    /** The time the offsets count from. */
    var baseMs: int
    /** The next free cell. */
    var head: int
    /** The oldest live entry. */
    var tail: int

    /** The live entries as the throttler reads them (offset + baseMs), oldest first. */
    ghost var Contents: seq<int>
    /** Every admission time so far. */
    ghost var History: seq<int>
    /** The latest clock reading. */
    ghost var Clock: int
    /** Every cast so far was exact, so the stored entries are the admission times. */
    ghost var Intact: bool

    /** The circular-buffer structure: `Contents` is what the cells from tail to head decode to. */
    ghost predicate Ring()
      reads this`head, this`tail, this`Contents, this`baseMs, timestamps
    {
      && 3 <= bufferSize && timestamps.Length == bufferSize
      && 0 <= head < bufferSize && 0 <= tail < bufferSize
      && |Contents| == Count(head, tail, bufferSize)
      && Holds(timestamps[..], tail, Contents, baseMs)
    }

    /**
     * The invariant: the ring, the configuration, the base not in the future
     * and, while every cast was exact, the history invariant with every live
     * entry stored at an offset of at least 0.
     */
    ghost predicate Valid()
      reads this, timestamps
    {
      && Ring()
      && bufferSize <= 1000001 && bufferSize - 1 <= periodMs
      && baseMs <= Clock
      && AllFit(timestamps[..])
      && (Intact ==>
            && Admissible(History, Contents, Clock, periodMs, bufferSize - 1)
            && NotBefore(Contents, baseMs))
    }

    /** The throttler allows at most this many actions in periodMs. */
    function ActionsInPeriod(): int
      reads this
    {
      bufferSize - 1
    }

    /** The constructor once its checks have passed; `clock` is the time of creation. */
    constructor Init(periodMs: int, actionsInPeriod: int, clock: int)
      requires CheckConfig(periodMs, actionsInPeriod, 1000000) == None
      ensures Valid() && fresh(timestamps) && Intact
      ensures this.periodMs == periodMs && bufferSize == actionsInPeriod + 1
      ensures baseMs == clock && head == 0 && tail == 0
      ensures Contents == [] && History == [] && Clock == clock
    {
      this.periodMs := periodMs;
      this.bufferSize := actionsInPeriod + 1;
      timestamps := new int[actionsInPeriod + 1](_ => 0);
      baseMs := clock;
      head, tail := 0, 0;
      Contents, History, Clock, Intact := [], [], clock, true;
      AdmissibleInitially(clock, periodMs, actionsInPeriod);
    }

    /** The source's constructor: the argument checks, then the initial state with baseMs = `clock`. */
    static method New(periodMs: Int32, actionsInPeriod: Int32, clock: int)
      returns (r: Result<SmallThrottler, ConfigError>)
      ensures r.Err? <==> CheckConfig(periodMs, actionsInPeriod, 1000000) != None
      ensures r.Err? ==> Some(r.error) == CheckConfig(periodMs, actionsInPeriod, 1000000)
      ensures r.Ok? ==> fresh(r.value) && fresh(r.value.timestamps) && r.value.Valid() && r.value.Intact
      ensures r.Ok? ==> r.value.periodMs == periodMs && r.value.bufferSize == actionsInPeriod + 1
      ensures r.Ok? ==> r.value.baseMs == clock && r.value.head == 0 && r.value.tail == 0
      ensures r.Ok? ==> r.value.Contents == [] && r.value.History == [] && r.value.Clock == clock
    {
      var check := CheckConfig(periodMs, actionsInPeriod, 1000000);
      if check.Some? {
        return Err(check.value);
      }
      var t := new SmallThrottler.Init(periodMs, actionsInPeriod, clock);
      return Ok(t);
    }

    /** The eviction loop of allow(): advance tail past every offset below `outdatedMs`. */
    method EvictBefore(outdatedMs: int)
      requires Ring()
      modifies this
      ensures Ring() && head == old(head) && baseMs == old(baseMs)
      ensures Contents == Evict(old(Contents), outdatedMs + baseMs)
      ensures History == old(History) && Clock == old(Clock) && Intact == old(Intact)
    {
      ghost var live0 := Contents;
      ghost var cutoff := outdatedMs + baseMs;
      if Contents != [] {
        HoldsDrop(timestamps[..], tail, Contents, baseMs);
      }
      while tail != head && timestamps[tail] < outdatedMs
        invariant Ring() && head == old(head) && baseMs == old(baseMs)
        invariant History == old(History) && Clock == old(Clock) && Intact == old(Intact)
        invariant Contents != [] ==> Contents[0] == timestamps[tail] + baseMs
        invariant Evict(Contents, cutoff) == Evict(live0, cutoff)
        decreases |Contents|
      {
        EvictStep(Contents, cutoff);
        DropOldest();
      }
      EvictNone(Contents, cutoff);
    }

    /**
     * The full-buffer branch of allow(): sleep relaxMs + 1 and drop the
     * oldest entry, unless the sleep time is negative, when Thread.sleep()
     * throws and nothing is dropped.
     */
    method WaitIfFull(now: int) returns (r: Result<Wait, SleepError>)
      requires Ring()
      modifies this
      ensures Ring() && head == old(head) && baseMs == old(baseMs)
      ensures (r, Contents) == FullBranch(old(Contents), periodMs, bufferSize - 1, now)
      ensures tail == Slot(old(tail), |old(Contents)| - |Contents|, bufferSize)
      ensures r.Ok? ==> Next(head, bufferSize) != tail
      ensures History == old(History) && Clock == old(Clock) && Intact == old(Intact)
    {
      if Next(head, bufferSize) == tail {
        HoldsDrop(timestamps[..], tail, Contents, baseMs);
        var relaxMs := timestamps[tail] + baseMs + periodMs - now;
        if relaxMs + 1 < 0 {
          return Err(NegativeTimeout(relaxMs + 1));
        }
        r := Ok(Slept(relaxMs + 1));
        DropOldest();
      } else {
        r := Ok(NoWait);
      }
    }

    /** `tail = (tail + 1) % bufferSize` on a non-empty buffer: forget the oldest entry. */
    method DropOldest()
      requires Ring() && tail != head
      modifies this
      ensures Ring() && head == old(head) && tail == Next(old(tail), bufferSize) && baseMs == old(baseMs)
      ensures Contents == old(Contents)[1..]
      ensures Contents != [] ==> Contents[0] == timestamps[tail] + baseMs
      ensures History == old(History) && Clock == old(Clock) && Intact == old(Intact)
    {
      AdvanceTail(head, tail, bufferSize);
      NextWraps(tail, bufferSize);
      HoldsDrop(timestamps[..], tail, Contents, baseMs);
      tail := (tail + 1) % bufferSize;
      Contents := Contents[1..];
      if Contents != [] {
        HoldsDrop(timestamps[..], tail, Contents, baseMs);
      }
    }

    /** "On empty buffer reinit baseMs for extra life": an empty ring decodes the same from any base. */
    method Rebase(t: int)
      requires Ring()
      modifies this
      ensures Ring() && head == old(head) && tail == old(tail) && Contents == old(Contents)
      ensures baseMs == (if head == tail then t else old(baseMs))
      ensures History == old(History) && Clock == old(Clock) && Intact == old(Intact)
    {
      if head == tail {
        baseMs := t;
      }
    }

    /** Write the offset of `t` at head and advance head, as allow() does last. */
    method Record(t: int)
      requires Ring() && Next(head, bufferSize) != tail
      modifies this, timestamps
      ensures Ring() && tail == old(tail) && head == Next(old(head), bufferSize) && baseMs == old(baseMs)
      ensures Contents == old(Contents) + [ToInt32(t - baseMs) + baseMs]
      ensures timestamps[..] == old(timestamps[..])[old(head) := ToInt32(t - baseMs)]
      ensures AllFit(old(timestamps[..])) ==> AllFit(timestamps[..])
      ensures History == old(History) + [t] && Clock == t && Intact == old(Intact)
    {
      AdvanceHead(head, tail, bufferSize);
      NextWraps(head, bufferSize);
      var offset: int := ToInt32(t - baseMs);
      HoldsAppend(timestamps[..], tail, Contents, baseMs, offset);
      ghost var cells := timestamps[..];
      timestamps[head] := offset;
      assert timestamps[..] == cells[head := offset];
      head := (head + 1) % bufferSize;
      Contents := Contents + [offset + baseMs];
      History := History + [t];
      Clock := t;
    }

    /** The last two phases of allow(): rebase if empty, then record `t`. */
    method Register(t: int)
      requires Ring() && Next(head, bufferSize) != tail
      modifies this, timestamps
      ensures Ring() && tail == old(tail) && head == Next(old(head), bufferSize)
      ensures baseMs == (if old(Contents) == [] then t else old(baseMs))
      ensures Contents == old(Contents) + [ToInt32(t - baseMs) + baseMs]
      ensures timestamps[..] == old(timestamps[..])[old(head) := ToInt32(t - baseMs)]
      ensures AllFit(old(timestamps[..])) ==> AllFit(timestamps[..])
      ensures History == old(History) + [t] && Clock == t && Intact == old(Intact)
    {
      Rebase(t);
      Record(t);
    }

    /** The first two phases of allow(): the eviction loop, then the full-buffer branch. */
    method Prepare(now: int) returns (r: Result<Wait, SleepError>)
      requires Ring()
      modifies this
      ensures Ring() && head == old(head) && baseMs == old(baseMs)
      ensures (r, Contents) == SmallPrepare(old(Contents), old(baseMs), periodMs, bufferSize - 1, now)
      ensures tail == Slot(old(tail), |old(Contents)| - |Contents|, bufferSize)
      ensures r.Ok? ==> Next(head, bufferSize) != tail
      ensures History == old(History) && Clock == old(Clock) && Intact == old(Intact)
    {
      EvictBefore(ToInt32(now - periodMs - baseMs));
      r := WaitIfFull(now);
      SlotShift(old(tail), |old(Contents)|, tail, |old(Contents)| - |Contents|, bufferSize);
    }

    /**
     * allow(): evict, wait if full, rebase if empty, record.  The new state
     * is the small step of the old contents and base.
     */
    method Admit(now: int, lag: nat) returns (r: Result<Wait, SleepError>)
      requires Ring()
      modifies this, timestamps
      ensures Ring() && Intact == old(Intact)
      ensures AllFit(old(timestamps[..])) ==> AllFit(timestamps[..])
      ensures match SmallStep(old(Contents), old(baseMs), periodMs, bufferSize - 1, now, lag)
              case Admitted(s, base1) =>
                && r == Ok(s.wait) && Contents == s.live && baseMs == base1
                && History == old(History) + [s.recorded] && Clock == s.recorded
                && head == Next(old(head), bufferSize)
                && tail == Slot(old(tail), s.removed, bufferSize)
                && timestamps[..] == old(timestamps[..])[old(head) := ToInt32(s.recorded - base1)]
              case Refused(kept, ms) =>
                && r == Err(NegativeTimeout(ms)) && Contents == kept && baseMs == old(baseMs)
                && History == old(History) && Clock == old(Clock)
                && head == old(head)
                && tail == Slot(old(tail), |old(Contents)| - |kept|, bufferSize)
                && timestamps[..] == old(timestamps[..])
    {
      ghost var live0 := Contents;
      ghost var cells0 := timestamps[..];
      r := Prepare(now);
      ghost var rest := Contents;
      if r.Err? {
        return;
      }
      var w := r.value;
      Register(now + SleptMs(w) + lag);
      Stepped(live0, old(History), old(head), old(tail), old(baseMs), cells0, rest, w, now, lag);
    }

    /** The fields after the phases of an admitting allow() are those of the small step. */
    lemma Stepped(live0: seq<int>, hist0: seq<int>, head0: int, tail0: int, base0: int, cells0: seq<int>,
                  rest: seq<int>, w: Wait, now: int, lag: nat)
      requires 3 <= bufferSize && |live0| <= bufferSize - 1 && 0 <= head0 < |cells0|
      requires (Ok(w), rest) == SmallPrepare(live0, base0, periodMs, bufferSize - 1, now)
      requires var t := now + SleptMs(w) + lag;
               && baseMs == (if rest == [] then t else base0)
               && Contents == rest + [ToInt32(t - baseMs) + baseMs] && History == hist0 + [t] && Clock == t
               && timestamps[..] == cells0[head0 := ToInt32(t - baseMs)]
      requires 0 <= tail0 < bufferSize && tail == Slot(tail0, |live0| - |rest|, bufferSize)
      ensures match SmallStep(live0, base0, periodMs, bufferSize - 1, now, lag)
              case Admitted(s, base1) =>
                && w == s.wait && Contents == s.live && baseMs == base1
                && History == hist0 + [s.recorded] && Clock == s.recorded
                && tail == Slot(tail0, s.removed, bufferSize)
                && timestamps[..] == cells0[head0 := ToInt32(s.recorded - base1)]
              case Refused(_, _) => false
    {
    }

    /**
     * allow(), with the invariant.  The result is the wait, or the exception
     * of a negative sleep; the throttler stays intact exactly while every
     * cast of every call is exact.
     */
    method Allow(now: int, lag: nat) returns (r: Result<Wait, SleepError>)
      requires Valid() && Clock <= now
      modifies this, timestamps
      ensures Valid()
      ensures var o := SmallStep(old(Contents), old(baseMs), periodMs, bufferSize - 1, now, lag);
              && Intact == (old(Intact) && StepFits(o, old(baseMs), periodMs, now))
              && match o
                 case Admitted(s, base1) =>
                   && r == Ok(s.wait) && Contents == s.live && baseMs == base1
                   && History == old(History) + [s.recorded] && Clock == s.recorded
                   && head == Next(old(head), bufferSize)
                   && tail == Slot(old(tail), s.removed, bufferSize)
                   && timestamps[..] == old(timestamps[..])[old(head) := ToInt32(s.recorded - base1)]
                 case Refused(kept, ms) =>
                   && r == Err(NegativeTimeout(ms)) && Contents == kept && baseMs == old(baseMs)
                   && History == old(History) && Clock == now
                   && head == old(head)
                   && tail == Slot(old(tail), |old(Contents)| - |kept|, bufferSize)
                   && timestamps[..] == old(timestamps[..])
    {
      ghost var live0, hist0, clock0, base0, intact0 := Contents, History, Clock, baseMs, Intact;
      ghost var o := SmallStep(live0, base0, periodMs, bufferSize - 1, now, lag);
      r := Admit(now, lag);
      if r.Err? {
        Clock := now;
      }
      Intact := Intact && StepFits(o, base0, periodMs, now);
      SmallStepValid(hist0, live0, clock0, base0, intact0, periodMs, bufferSize - 1, now, lag,
                     o, History, Contents, Clock, baseMs, Intact);
    }

    /** The rate guarantee of the class documentation, while every cast was exact. */
    lemma RateGuarantee(from: int)
      requires Valid() && Intact
      ensures CountWithin(History, from, periodMs) <= ActionsInPeriod()
    {
      AtMostCapacityInAnyWindow(History, bufferSize - 1, periodMs, from);
    }

    /** While every cast was exact, every live cell holds the offset of its admission time from baseMs. */
    lemma StoredOffsets()
      requires Valid() && Intact
      ensures forall k :: 0 <= k < |Contents| ==>
                0 <= timestamps[Slot(tail, k, bufferSize)] && Contents[k] == timestamps[Slot(tail, k, bufferSize)] + baseMs
      ensures Contents == History[|History| - |Contents|..]
    {
      forall k | 0 <= k < |Contents|
        ensures 0 <= timestamps[Slot(tail, k, bufferSize)]
                && Contents[k] == timestamps[Slot(tail, k, bufferSize)] + baseMs
      {
        assert Contents[k] == timestamps[..][Slot(tail, k, bufferSize)] + baseMs;
      }
    }
  }
}
