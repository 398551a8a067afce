/**
 * The sliding-window timestamp buffer shared by the three throttlers:
 * configuration checks, the circular-buffer index arithmetic (with its
 * sentinel slot), first-in-first-out eviction of outdated entries, and the
 * invariant over the history of admitted actions that yields the guarantee
 * "at most actionsInPeriod actions during any periodMs".
 */
module Window {

  const MinInt32: int := -0x8000_0000
  const MaxInt32: int := 0x7fff_ffff

  /** The range of a Java `int`. */
  type Int32 = x: int | MinInt32 <= x <= MaxInt32

  datatype Option<T> = None | Some(value: T)

  datatype Result<T, E> = Ok(value: T) | Err(error: E)

  /** The IllegalArgumentException messages of the constructors. */
  datatype ConfigError =
    | ActionsOutOfRange      // "actionsInPeriod should be in [2...max] range"
    | PeriodBelowResolution  // "periodMs should not be less that number of actions ..."
    | NegativePeriod         // "Negative periodMs ?"
    | GammaOutOfRange        // "gamma should be in ]0...10] range."

  /** What one call did about sleeping before it recorded its action. */
  datatype Wait = NoWait | Slept(ms: int)

  function SleptMs(w: Wait): int
  {
    match w
    case NoWait => 0
    case Slept(ms) => ms
  }

  /**
   * What one admission does to the logical contents of a buffer: how it
   * waited, how many of the oldest entries it removed, the time at which it
   * recorded the new action, and the contents afterwards.
   */
  datatype Step = Step(wait: Wait, removed: nat, recorded: int, live: seq<int>)

  // ---------------------------------------------------------------------
  // Configuration

  /**
   * The constructor checks, in the order the constructors make them;
   * `maxActions` is 10000 for the burst and gamma throttlers and 1000000
   * for the small one.  The negative-period check can never fire: it is
   * only reached when periodMs >= actionsInPeriod >= 2.
   */
  function CheckConfig(periodMs: int, actionsInPeriod: int, maxActions: int): (r: Option<ConfigError>)
    ensures r == None <==> 2 <= actionsInPeriod <= maxActions && actionsInPeriod <= periodMs
    ensures r != Some(NegativePeriod)
    ensures r == Some(ActionsOutOfRange) <==> actionsInPeriod < 2 || actionsInPeriod > maxActions
    ensures r == Some(PeriodBelowResolution) <==>
              2 <= actionsInPeriod <= maxActions && periodMs < actionsInPeriod
  {
    if actionsInPeriod < 2 || actionsInPeriod > maxActions then Some(ActionsOutOfRange)
    else if periodMs < actionsInPeriod then Some(PeriodBelowResolution)
    else if periodMs < 0 then Some(NegativePeriod)
    else None
  }

  // ---------------------------------------------------------------------
  // Circular buffer indices.  A buffer of `bufferSize` cells holds at most
  // bufferSize - 1 entries: `head` is the next free cell, `tail` the oldest
  // live entry, and one cell is always empty.

  /** The index step of the source, `(i + 1) % bufferSize`, on an index in range. */
  function Next(i: int, bufferSize: int): int
  {
    if i + 1 == bufferSize then 0 else i + 1
  }

  lemma NextWraps(i: int, bufferSize: int)
    requires 0 <= i < bufferSize
    ensures Next(i, bufferSize) == (i + 1) % bufferSize
  {
    if i + 1 == bufferSize {
      assert (i + 1) % bufferSize == 0;
    } else {
      assert (i + 1) % bufferSize == i + 1;
    }
  }

  /** The cell holding the k-th live entry, counted from the tail. */
  function Slot(tail: int, k: int, bufferSize: int): (c: int)
    requires 0 <= tail < bufferSize && 0 <= k < bufferSize
    ensures 0 <= c < bufferSize
  {
    if tail + k < bufferSize then tail + k else tail + k - bufferSize
  }

  /**
   * Where the tail is after a call that removed `removed` of `n0` entries
   * and appended one: a ring whose head moved one cell on, now holding
   * `n0 - removed + 1` entries, has its tail `removed` cells further on.
   */
  lemma TailAfter(tail0: int, n0: int, tail1: int, removed: int, bufferSize: int)
    requires 0 <= tail0 < bufferSize && 0 <= tail1 < bufferSize
    requires 0 <= removed <= n0 < bufferSize && n0 - removed + 1 < bufferSize
    requires Next(Slot(tail0, n0, bufferSize), bufferSize) == Slot(tail1, n0 - removed + 1, bufferSize)
    ensures tail1 == Slot(tail0, removed, bufferSize)
  {
  }

  /**
   * Where the tail is after removing `removed` of `n0` entries with the head
   * unmoved: `removed` cells further on.
   */
  lemma SlotShift(tail0: int, n0: int, tail1: int, removed: int, bufferSize: int)
    requires 0 <= tail0 < bufferSize && 0 <= tail1 < bufferSize
    requires 0 <= removed <= n0 < bufferSize
    requires Slot(tail0, n0, bufferSize) == Slot(tail1, n0 - removed, bufferSize)
    ensures tail1 == Slot(tail0, removed, bufferSize)
  {
  }

  /**
   * The number of live entries, `(head - tail) mod bufferSize`, computed as
   * GammaThrottler computes `actionsCount`.  The two-index encoding: the
   * buffer is empty exactly when head == tail and full exactly when
   * (head + 1) % bufferSize == tail.
   */
  function Count(head: int, tail: int, bufferSize: int): (n: int)
    requires 0 <= head < bufferSize && 0 <= tail < bufferSize
    ensures 0 <= n < bufferSize
    ensures n == 0 <==> head == tail
    ensures n == bufferSize - 1 <==> Next(head, bufferSize) == tail
    ensures Slot(tail, n, bufferSize) == head
  {
    NextWraps(head, bufferSize);
    if head >= tail then head - tail else head - tail + bufferSize
  }

  /** Advancing the tail of a non-empty buffer forgets its oldest entry. */
  lemma AdvanceTail(head: int, tail: int, bufferSize: int)
    requires 0 <= head < bufferSize && 0 <= tail < bufferSize && head != tail
    ensures 0 <= Next(tail, bufferSize) < bufferSize
    ensures Count(head, Next(tail, bufferSize), bufferSize) == Count(head, tail, bufferSize) - 1
    ensures forall k :: 0 <= k < Count(head, tail, bufferSize) - 1 ==>
              Slot(Next(tail, bufferSize), k, bufferSize) == Slot(tail, k + 1, bufferSize)
  {
    NextWraps(tail, bufferSize);
  }

  /** Advancing the head of a non-full buffer appends the cell at `head`. */
  lemma AdvanceHead(head: int, tail: int, bufferSize: int)
    requires 0 <= head < bufferSize && 0 <= tail < bufferSize
    requires Count(head, tail, bufferSize) < bufferSize - 1
    ensures 0 <= Next(head, bufferSize) < bufferSize
    ensures Count(Next(head, bufferSize), tail, bufferSize) == Count(head, tail, bufferSize) + 1
    ensures forall k :: 0 <= k < Count(head, tail, bufferSize) ==> Slot(tail, k, bufferSize) != head
  {
    NextWraps(head, bufferSize);
  }

  /**
   * The cells of a circular buffer, read from `tail` on, hold the logical
   * contents `live`, each stored as its offset from `base` (the burst and
   * gamma throttlers store absolute times: base 0).
   */
  ghost predicate Holds(cells: seq<int>, tail: int, live: seq<int>, base: int)
  {
    && 0 <= tail < |cells| && |live| < |cells|
    && forall k {:trigger live[k]} :: 0 <= k < |live| ==> live[k] == cells[Slot(tail, k, |cells|)] + base
  }

  /** Dropping the oldest entry: it sits at the tail, the rest from the next cell on. */
  lemma HoldsDrop(cells: seq<int>, tail: int, live: seq<int>, base: int)
    requires Holds(cells, tail, live, base) && live != []
    ensures live[0] == cells[tail] + base
    ensures Holds(cells, Next(tail, |cells|), live[1..], base)
  {
    NextWraps(tail, |cells|);
    assert Slot(tail, 0, |cells|) == tail;
  }

  /** Writing the cell after the newest entry appends to the contents. */
  lemma HoldsAppend(cells: seq<int>, tail: int, live: seq<int>, base: int, offset: int)
    requires Holds(cells, tail, live, base) && |live| < |cells| - 1
    ensures Holds(cells[Slot(tail, |live|, |cells|) := offset], tail, live + [offset + base], base)
  {
  }

  // ---------------------------------------------------------------------
  // Eviction

  /** Non-decreasing order. */
  ghost predicate Sorted(s: seq<int>)
  {
    forall i, j :: InOrder(s, i, j)
  }

  /** Entries `i` and `j` of `s`, when both exist and `i` comes first, are in order. */
  ghost predicate InOrder(s: seq<int>, i: int, j: int)
  {
    0 <= i <= j < |s| ==> s[i] <= s[j]
  }

  /**
   * The live entries left by the eviction loop, which drops entries from the
   * front (oldest first) while the front entry is older than `cutoff`.
   */
  function Evict(live: seq<int>, cutoff: int): (kept: seq<int>)
    ensures |kept| <= |live|
    decreases |live|
  {
    if live != [] && live[0] < cutoff then Evict(live[1..], cutoff) else live
  }

  /** The number of entries the eviction loop drops. */
  function Outdated(live: seq<int>, cutoff: int): (n: nat)
    ensures n <= |live|
    decreases |live|
  {
    if live != [] && live[0] < cutoff then 1 + Outdated(live[1..], cutoff) else 0
  }

  /**
   * Eviction keeps a suffix: the `Outdated` entries it drops are all older
   * than `cutoff`, and it stops at the first entry in the window.
   */
  lemma {:induction false} EvictSuffix(live: seq<int>, cutoff: int)
    ensures var n := Outdated(live, cutoff);
            && Evict(live, cutoff) == live[n..]
            && (forall i :: 0 <= i < n ==> live[i] < cutoff)
            && (n < |live| ==> live[n] >= cutoff)
    decreases |live|
  {
    if live != [] && live[0] < cutoff {
      EvictSuffix(live[1..], cutoff);
      assert live[1..][Outdated(live[1..], cutoff)..] == live[Outdated(live, cutoff)..];
    }
  }

  /** On non-decreasing contents, every entry left after eviction is in the window. */
  lemma {:induction false} EvictSorted(live: seq<int>, cutoff: int)
    requires Sorted(live)
    ensures forall i :: 0 <= i < |Evict(live, cutoff)| ==> Evict(live, cutoff)[i] >= cutoff
  {
    var kept := Evict(live, cutoff);
    EvictSuffix(live, cutoff);
    if kept != [] {
      forall i | 0 <= i < |kept| ensures kept[i] >= cutoff {
        assert kept[i] == live[|live| - |kept| + i];
        assert kept[0] == live[|live| - |kept|];
        assert InOrder(live, |live| - |kept|, |live| - |kept| + i);
      }
    }
  }

  /** One turn of the eviction loop: dropping an outdated front entry leaves the same result. */
  lemma EvictStep(live: seq<int>, cutoff: int)
    requires live != [] && live[0] < cutoff
    ensures Evict(live, cutoff) == Evict(live[1..], cutoff)
  {
  }

  /** Eviction removes nothing when the front entry is in the window. */
  lemma EvictNone(live: seq<int>, cutoff: int)
    requires live == [] || live[0] >= cutoff
    ensures Evict(live, cutoff) == live
  {
  }

  // ---------------------------------------------------------------------
  // The history of admitted actions

  /**
   * The rate guarantee on the admission times: any `capacity` + 1
   * consecutive admissions span more than `periodMs`.
   */
  ghost predicate WindowBound(hist: seq<int>, capacity: nat, periodMs: int)
  {
    forall i :: Spaced(hist, capacity, periodMs, i)
  }

  /** Admission `i`, if it has a `capacity`-th successor, is more than periodMs before it. */
  ghost predicate Spaced(hist: seq<int>, capacity: nat, periodMs: int, i: int)
  {
    0 <= i && i + capacity < |hist| ==> hist[i] + periodMs < hist[i + capacity]
  }

  /**
   * The invariant every throttler keeps over the history `hist` of admission
   * times, its live entries `live` and the latest clock reading `clock`:
   * admissions are chronological and not in the future, the live entries are
   * the most recent admissions, every entry no longer live is outdated, and
   * the rate guarantee holds.
   */
  ghost predicate Admissible(hist: seq<int>, live: seq<int>, clock: int, periodMs: int, capacity: nat)
  {
    && Sorted(hist)
    && (forall i :: 0 <= i < |hist| ==> hist[i] <= clock)
    && |live| <= |hist| && live == hist[|hist| - |live|..]
    && (forall i :: 0 <= i < |hist| - |live| ==> hist[i] < clock - periodMs)
    && WindowBound(hist, capacity, periodMs)
  }

  lemma AdmissibleInitially(clock: int, periodMs: int, capacity: nat)
    ensures Admissible([], [], clock, periodMs, capacity)
  {
  }

  /**
   * Admitting an action at time `t` after removing the `removed` oldest live
   * entries keeps the invariant, provided the removed entries are outdated
   * at `t` and fewer than `capacity` entries remain.
   */
  lemma AdmitPreserves(hist: seq<int>, live: seq<int>, clock: int, periodMs: int, capacity: nat,
                       removed: nat, t: int)
    requires Admissible(hist, live, clock, periodMs, capacity)
    requires removed <= |live| && |live| - removed < capacity
    requires forall i :: 0 <= i < removed ==> live[i] < t - periodMs
    requires clock <= t
    ensures Admissible(hist + [t], live[removed..] + [t], t, periodMs, capacity)
  {
    var h := hist + [t];
    var l := live[removed..] + [t];
    var n := |hist|;
    assert forall i :: 0 <= i < removed ==> hist[n - |live| + i] == live[i];
    assert l == h[|h| - |l|..];
    forall i, j ensures InOrder(h, i, j) {
      if 0 <= i <= j < n {
        assert InOrder(hist, i, j);
      } else if 0 <= i < n && j == n {
        assert hist[i] <= clock;
      }
    }
    forall i | 0 <= i < |h| - |l| ensures h[i] < t - periodMs {
      if i < n - |live| {
        assert hist[i] < clock - periodMs;
      } else {
        assert h[i] == live[i - (n - |live|)];
      }
    }
    forall i ensures Spaced(h, capacity, periodMs, i) {
      if 0 <= i && i + capacity < n {
        assert Spaced(hist, capacity, periodMs, i);
        assert h[i] == hist[i] && h[i + capacity] == hist[i + capacity];
      } else if 0 <= i && i + capacity < |h| {
        assert i < |h| - |l|;
      }
    }
  }

  /**
   * Eviction at a new clock reading `now` keeps the invariant, with `now`
   * as the latest reading.
   */
  lemma EvictPreserves(hist: seq<int>, live: seq<int>, clock: int, periodMs: int, capacity: nat, now: int)
    requires Admissible(hist, live, clock, periodMs, capacity)
    requires clock <= now
    ensures Admissible(hist, Evict(live, now - periodMs), now, periodMs, capacity)
  {
    var kept := Evict(live, now - periodMs);
    EvictSuffix(live, now - periodMs);
    var n := |hist|;
    forall i | 0 <= i < n - |kept| ensures hist[i] < now - periodMs {
      if i >= n - |live| {
        assert hist[i] == live[i - (n - |live|)];
      }
    }
  }
  /** The live entries, being the most recent part of a chronological history, are chronological. */
  lemma AdmissibleSorted(hist: seq<int>, live: seq<int>, clock: int, periodMs: int, capacity: nat)
    requires Admissible(hist, live, clock, periodMs, capacity)
    ensures Sorted(live)
  {
    var off := |hist| - |live|;
    forall i, j ensures InOrder(live, i, j) {
      if 0 <= i <= j < |live| {
        assert InOrder(hist, off + i, off + j);
        assert live[i] == hist[off + i] && live[j] == hist[off + j];
      }
    }
  }

  /**
   * Eviction at a later clock reading on an admissible state: the invariant
   * holds at the new reading, and every entry left lies in the window
   * [now - periodMs, now].
   */
  lemma EvictLeavesWindow(hist: seq<int>, live: seq<int>, clock: int, periodMs: int, capacity: nat, now: int)
    requires Admissible(hist, live, clock, periodMs, capacity)
    requires clock <= now
    ensures Admissible(hist, Evict(live, now - periodMs), now, periodMs, capacity)
    ensures var kept := Evict(live, now - periodMs);
            forall i :: 0 <= i < |kept| ==> now - periodMs <= kept[i] <= now
  {
    EvictPreserves(hist, live, clock, periodMs, capacity, now);
    AdmissibleSorted(hist, live, clock, periodMs, capacity);
    EvictSorted(live, now - periodMs);
    var kept := Evict(live, now - periodMs);
    forall i | 0 <= i < |kept| ensures kept[i] <= now {
      assert kept[i] == hist[|hist| - |kept| + i];
    }
  }


  // ---------------------------------------------------------------------
  // At most `capacity` admissions in any span of periodMs milliseconds

  /** The number of entries of `s` inside the closed span [from, from + periodMs]. */
  function CountWithin(s: seq<int>, from: int, periodMs: int): (n: nat)
    ensures n <= |s|
  {
    if s == [] then 0
    else (if from <= s[0] <= from + periodMs then 1 else 0) + CountWithin(s[1..], from, periodMs)
  }

  lemma {:induction false} CountWithinBelow(s: seq<int>, from: int, periodMs: int, k: nat)
    requires forall i :: k <= i < |s| ==> s[i] > from + periodMs
    ensures CountWithin(s, from, periodMs) <= k
  {
    if s != [] {
      CountWithinBelow(s[1..], from, periodMs, if k == 0 then 0 else k - 1);
    }
  }

  /**
   * The throttlers' promise: a history that keeps the rate guarantee has at
   * most `capacity` admissions in every span of periodMs milliseconds.
   */
  lemma {:induction false} AtMostCapacityInAnyWindow(hist: seq<int>, capacity: nat, periodMs: int, from: int)
    requires Sorted(hist) && WindowBound(hist, capacity, periodMs)
    ensures CountWithin(hist, from, periodMs) <= capacity
  {
    if hist == [] {
    } else if hist[0] < from {
      var rest := hist[1..];
      forall i ensures Spaced(rest, capacity, periodMs, i) {
        assert Spaced(hist, capacity, periodMs, i + 1);
      }
      forall i, j ensures InOrder(rest, i, j) {
        assert InOrder(hist, i + 1, j + 1);
      }
      AtMostCapacityInAnyWindow(rest, capacity, periodMs, from);
    } else if hist[0] <= from + periodMs {
      forall i | capacity <= i < |hist| ensures hist[i] > from + periodMs {
        assert Spaced(hist, capacity, periodMs, 0);
        assert InOrder(hist, capacity, i);
      }
      CountWithinBelow(hist, from, periodMs, capacity);
    } else {
      forall i | 0 <= i < |hist| ensures hist[i] > from + periodMs {
        assert InOrder(hist, 0, i);
      }
      CountWithinBelow(hist, from, periodMs, 0);
    }
  }
}
