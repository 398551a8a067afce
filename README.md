# nanothrottler in Dafny

A model of the three throttlers of the `net.nenko.nanothrottler` library, with
proofs about it. Each throttler admits at most `actionsInPeriod` actions
during any `periodMs` milliseconds. Each keeps the timestamps of recent
admissions in a circular buffer of `actionsInPeriod + 1` cells, and one cell
always stays empty (the sentinel). `head` is the next free cell and `tail` the
oldest live entry. One call of `allow()`:

1. drops the entries older than `now - periodMs`;
2. on a full buffer, sleeps until one millisecond after the oldest entry
   leaves the window, then drops that entry;
3. records the action at `head`.

The three throttlers:

- **BurstThrottler** (`burst.dfy`, module `Burst`) admits at once while there
  is room.
- **GammaThrottler** (`gamma.dfy`, module `Gamma`) also delays every
  admission into a non-empty buffer, by an amount shaped by a gamma curve.
- **SmallThrottler** (`small.dfy`, module `Small`) is the burst throttler
  with `int` offsets from a `long` base `baseMs`. The base moves to the
  current time whenever the buffer is empty.

`window.dfy` (module `Window`) holds what the three share:
- the constructor checks;
- the ring-index arithmetic;
- first-in-first-out eviction;
- the invariant `Admissible` over the ghost history of admission times. From
  it follows the rate guarantee `AtMostCapacityInAnyWindow`: any
  `actionsInPeriod + 1` consecutive admissions span more than `periodMs`.

`simulation.dfy` (module `Simulation`) runs a burst and a small throttler side
by side.

How the model is built:

- Each throttler is a `class` with the source's fields. The Java array is a
  Dafny `array<int>`, and `head`, `tail` and `baseMs` are updated in place.
- Ghost fields hold the state the proofs talk about:
  - `Contents`: the live entries, oldest first;
  - `History`: every admission time;
  - `Clock`: the latest clock reading.
- Every phase of `allow()` is a method:
  - the eviction loop, with its loop invariants;
  - the full-buffer branch;
  - dropping the oldest entry;
  - the record.
- The methods are proved against pure functions of the logical contents:
  `BurstStep`, `GammaStep` and `SmallStep`. Lemmas then state what those
  functions promise.

The environment is passed in as parameters:

- `Allow(now, lag)` takes the clock reading `now`. The call evicts and
  computes its sleep from that reading.
- The action is recorded at `now + sleep + lag`. `lag >= 0` covers any
  overshoot of the sleep and the time until the final clock reading.
- `Clock <= now` keeps the clock non-decreasing.
- For the gamma throttler, `expectedMs` stands for the floating-point
  `(long)(periodMs * Math.pow(actionsCount / actionsInPeriod, gamma))`. Its
  bounds are assumed only where a lemma says so (`0 <= expectedMs <= periodMs`).

SmallThrottler stores `(int)` casts of `long` differences, which wrap
around. `ToInt32` models that cast exactly:

- A ghost flag `Intact` records that every cast so far was exact.
- While it holds, the small throttler keeps the same invariant as the burst
  throttler. It also takes the same decisions: `Small.SmallRefinesBurst` and
  `Simulation.AllowBoth`.
- The Java `Thread.sleep` throws on a negative argument. In the model, with
  its single clock reading per call, that happens only after an overflow
  (for the clock drift that can also cause it in the source, see
  "## Left out"). It is modelled as the `Refused` outcome: the eviction has
  happened and nothing is recorded.

## Model

Source paths are relative to the repository root.

| member | source | states |
|---|---|---|
| Window.CheckConfig | src/main/java/net/nenko/nanothrottler/BurstThrottler.java:19-28 | construction is accepted exactly when 2 <= actionsInPeriod <= max and periodMs >= actionsInPeriod; a count out of range is reported first; a period below the count is reported exactly when the count is in range; the negative-period check can never fire |
| Window.NextWraps | src/main/java/net/nenko/nanothrottler/BurstThrottler.java:40 | the model's index step `Next` equals `(i + 1) % bufferSize` for every index in range, so it stays in [0, bufferSize) |
| Window.Slot | src/main/java/net/nenko/nanothrottler/BurstThrottler.java:68-72 | the cell of the k-th live entry after tail is an index in [0, bufferSize) |
| Window.Count | src/main/java/net/nenko/nanothrottler/GammaThrottler.java:69-73 | the live count `head - tail (+ bufferSize)` lies in [0, bufferSize); it is 0 exactly when head == tail and bufferSize - 1 exactly when (head + 1) % bufferSize == tail; head is the count-th cell after tail |
| Window.AdvanceTail | src/main/java/net/nenko/nanothrottler/BurstThrottler.java:40 | moving the tail of a non-empty buffer one cell on removes exactly its oldest entry |
| Window.AdvanceHead | src/main/java/net/nenko/nanothrottler/BurstThrottler.java:56-57 | on a non-full buffer the cell at head is no live entry's, and moving head on adds exactly one entry |
| Window.TailAfter | src/main/java/net/nenko/nanothrottler/BurstThrottler.java:38-57 | after a call that removed `removed` entries and appended one, tail is `removed` cells further on |
| Window.SlotShift | src/main/java/net/nenko/nanothrottler/SmallThrottler.java:39-53 | after removing `removed` entries with head fixed, tail is `removed` cells further on |
| Window.HoldsDrop | src/main/java/net/nenko/nanothrottler/BurstThrottler.java:39-40 | the oldest live entry is the cell at tail, and the others start at the next cell |
| Window.HoldsAppend | src/main/java/net/nenko/nanothrottler/BurstThrottler.java:56 | writing the cell after the newest entry appends one entry and changes no other |
| Window.Evict | src/main/java/net/nenko/nanothrottler/BurstThrottler.java:39-41 | the entries the eviction loop leaves are no more than it started with |
| Window.Outdated | src/main/java/net/nenko/nanothrottler/BurstThrottler.java:39-41 | the number of turns of the eviction loop is at most the number of live entries |
| Window.EvictSuffix | src/main/java/net/nenko/nanothrottler/BurstThrottler.java:38-41 | eviction keeps a suffix of the contents; every entry it drops is older than the cutoff; it stops at the first entry inside the window |
| Window.EvictSorted | src/main/java/net/nenko/nanothrottler/BurstThrottler.java:38-41 | on chronological contents every entry left after eviction is at or after the cutoff |
| Window.EvictStep | src/main/java/net/nenko/nanothrottler/BurstThrottler.java:39-40 | one turn of the loop, over an outdated oldest entry, leaves the result of the whole eviction unchanged |
| Window.EvictNone | src/main/java/net/nenko/nanothrottler/BurstThrottler.java:39 | when the loop condition fails (empty buffer, or oldest entry in the window) nothing more is evicted |
| Window.AdmissibleInitially | src/main/java/net/nenko/nanothrottler/BurstThrottler.java:32 | an empty throttler satisfies the history invariant at any clock reading |
| Window.AdmitPreserves | src/main/java/net/nenko/nanothrottler/BurstThrottler.java:38-57 | removing outdated oldest entries and recording at t >= clock with room left keeps the history chronological, the live entries its most recent part, every non-live entry outdated and the window bound |
| Window.EvictPreserves | src/main/java/net/nenko/nanothrottler/BurstThrottler.java:38-41 | eviction at a later clock reading keeps the history invariant, with that reading as the new clock |
| Window.AdmissibleSorted | src/main/java/net/nenko/nanothrottler/BurstThrottler.java:56-57 | the live entries of an admissible state, the latest part of a chronological history, are chronological |
| Window.EvictLeavesWindow | src/main/java/net/nenko/nanothrottler/BurstThrottler.java:38-41 | eviction at a later clock reading on an admissible state keeps the invariant, and every entry it leaves lies in [now - periodMs, now] |
| Window.AtMostCapacityInAnyWindow | src/main/java/net/nenko/nanothrottler/BurstThrottler.java:5-6 | a chronological history in which any capacity + 1 consecutive admissions span more than periodMs has at most capacity admissions in every closed span of periodMs |
| Burst.BurstStep | src/main/java/net/nenko/nanothrottler/BurstThrottler.java:36-58 | one call removes at most the live entries and leaves at most actionsInPeriod |
| Burst.BurstStepSpec | src/main/java/net/nenko/nanothrottler/BurstThrottler.java:36-58 | no wait exactly when eviction left room; a wait is at least 1 ms; the action is recorded after the wait; every removed entry is outdated at the recording time; the full branch drops exactly one in-window entry and records more than periodMs after it; the new contents are the kept suffix plus the new time |
| Burst.BurstStepAfterEvict | src/main/java/net/nenko/nanothrottler/BurstThrottler.java:38-57 | eviction, then the full-buffer branch, then the record, compose to exactly the step of the old contents |
| Burst.BurstStepAdmissible | src/main/java/net/nenko/nanothrottler/BurstThrottler.java:36-58 | one call keeps the history invariant, and so the rate guarantee |
| Burst.BurstRun | src/main/java/net/nenko/nanothrottler/BurstThrottler.java:36-58 | a run of calls yields one wait per call; a helper over which BurstNeverWaitsWithRoom is stated |
| Burst.BurstNeverWaitsWithRoom | src/main/java/net/nenko/nanothrottler/BurstThrottler.java:44 | while the calls do not exceed the free room none of them waits; on a fresh throttler the first actionsInPeriod calls never sleep |
| Burst.BurstThrottler.Init | src/main/java/net/nenko/nanothrottler/BurstThrottler.java:29-32 | after the checks: bufferSize = actionsInPeriod + 1, head == tail == 0, empty contents and history, invariant established |
| Burst.BurstThrottler.New | src/main/java/net/nenko/nanothrottler/BurstThrottler.java:19-33 | fails exactly when the checks fail, with their error; otherwise a fresh valid empty throttler |
| Burst.BurstThrottler.EvictBefore | src/main/java/net/nenko/nanothrottler/BurstThrottler.java:38-41 | the loop leaves head alone and leaves exactly the eviction of the old contents |
| Burst.BurstThrottler.WaitIfFull | src/main/java/net/nenko/nanothrottler/BurstThrottler.java:44-53 | on a full buffer sleeps oldest + periodMs - now + 1 and advances tail by one; otherwise changes nothing; afterwards the buffer is not full |
| Burst.BurstThrottler.DropOldest | src/main/java/net/nenko/nanothrottler/BurstThrottler.java:52 | advancing tail removes exactly the oldest entry |
| Burst.BurstThrottler.Record | src/main/java/net/nenko/nanothrottler/BurstThrottler.java:56-57 | writes only the cell at head, appends the time and advances head |
| Burst.BurstThrottler.Admit | src/main/java/net/nenko/nanothrottler/BurstThrottler.java:36-58 | allow() leaves the burst step of the old contents: its wait, contents, head one on, tail `removed` cells on, only the old head cell written |
| Burst.BurstThrottler.Stepped | src/main/java/net/nenko/nanothrottler/BurstThrottler.java:36-58 | the fields after the three phases are those of the burst step |
| Burst.BurstThrottler.Allow | src/main/java/net/nenko/nanothrottler/BurstThrottler.java:36-58 | Admit, with the class invariant (ring, configuration, history invariant) kept |
| Burst.BurstThrottler.RateGuarantee | src/main/java/net/nenko/nanothrottler/BurstThrottler.java:5-6 | at any moment at most actionsInPeriod admissions lie in any span of periodMs |
| Gamma.CheckGammaAsWritten | src/main/java/net/nenko/nanothrottler/GammaThrottler.java:27-29 | the check as written accepts exactly the gammas in ]0, 10] and NaN |
| Gamma.NaNPassesGammaCheck | src/main/java/net/nenko/nanothrottler/GammaThrottler.java:27-29 | NaN passes the written check although it is not in ]0, 10] |
| Gamma.CheckGamma | src/main/java/net/nenko/nanothrottler/GammaThrottler.java:27-29 | the intended check accepts exactly the gammas in ]0, 10] and otherwise reports GammaOutOfRange |
| Gamma.CheckGammaAgreesExceptNaN | src/main/java/net/nenko/nanothrottler/GammaThrottler.java:27-29 | the intended check agrees with the written one on every value but NaN |
| Gamma.CheckGammaConfig | src/main/java/net/nenko/nanothrottler/GammaThrottler.java:17-29 | accepted exactly when 2 <= actionsInPeriod <= 10000, periodMs >= actionsInPeriod and gamma in ]0, 10]; the count and period errors come first |
| Gamma.CheckGammaConfigAsWritten | src/main/java/net/nenko/nanothrottler/GammaThrottler.java:17-29 | the constructor checks as written accept exactly when 2 <= actionsInPeriod <= 10000, periodMs >= actionsInPeriod and gamma is in ]0, 10] or NaN; on every gamma but NaN they agree with CheckGammaConfig |
| Gamma.Relax | src/main/java/net/nenko/nanothrottler/GammaThrottler.java:81-89 | relax(ms) sleeps exactly when ms > 0, and then for ms |
| Gamma.GammaDelay | src/main/java/net/nenko/nanothrottler/GammaThrottler.java:96-109 | with at least one action in reserve the delay is at least 1; for expectedMs in [0, periodMs] it is at most max(1, timeReserveMs); above 1 it is timeReserveMs minus the reserved part periodMs - expectedMs; with the oldest entry no later than now it lies in [1, periodMs], as the method's documentation promises |
| Gamma.GammaStep | src/main/java/net/nenko/nanothrottler/GammaThrottler.java:41-79 | one call removes at most the live entries and leaves at most actionsInPeriod |
| Gamma.GammaWait | src/main/java/net/nenko/nanothrottler/GammaThrottler.java:56-76 | no sleep on an empty buffer; on a full one whose oldest entry is in the window, oldest + periodMs - now + 1; in between, a sleep of at least 1 ms |
| Gamma.GammaStepAfterEvict | src/main/java/net/nenko/nanothrottler/GammaThrottler.java:41-79 | removeOutdatedActions() then registerNewAction() compose to exactly the gamma step |
| Gamma.GammaStepSpec | src/main/java/net/nenko/nanothrottler/GammaThrottler.java:48-79 | empty: record only; full: sleep >= 1 ms, drop exactly one, record more than periodMs after it; in between: actionsCount is the live count in [1, bufferSize - 2], so gamma()'s full-buffer fallback is unreachable, and the delay is gamma(actionsCount), bounded as in GammaDelay; removed entries are outdated at the recording time |
| Gamma.GammaStepAdmissible | src/main/java/net/nenko/nanothrottler/GammaThrottler.java:41-79 | one call keeps the history invariant, and so the rate guarantee |
| Gamma.GammaThrottler.Init | src/main/java/net/nenko/nanothrottler/GammaThrottler.java:30-34 | after the checks: the fields, bufferSize = actionsInPeriod + 1, head == tail == 0, invariant established |
| Gamma.GammaThrottler.New | src/main/java/net/nenko/nanothrottler/GammaThrottler.java:17-35 | fails exactly when the checks fail, with their error; otherwise a fresh valid empty throttler |
| Gamma.GammaThrottler.NewDefault | src/main/java/net/nenko/nanothrottler/GammaThrottler.java:37-39 | the two-argument constructor: gamma 1.0, which always passes the gamma check |
| Gamma.GammaThrottler.RemoveOutdatedActions | src/main/java/net/nenko/nanothrottler/GammaThrottler.java:48-54 | leaves head alone and leaves exactly the eviction of the old contents |
| Gamma.GammaThrottler.DelayOrDrop | src/main/java/net/nenko/nanothrottler/GammaThrottler.java:60-76 | sleeps GammaWait; on a full buffer tail moves on by exactly one whether or not relax slept; afterwards the buffer is not full |
| Gamma.GammaThrottler.DropOldest | src/main/java/net/nenko/nanothrottler/GammaThrottler.java:66 | advancing tail removes exactly the oldest entry |
| Gamma.GammaThrottler.Record | src/main/java/net/nenko/nanothrottler/GammaThrottler.java:77-78 | writes only the cell at head, appends the time and advances head |
| Gamma.GammaThrottler.RegisterNewAction | src/main/java/net/nenko/nanothrottler/GammaThrottler.java:56-79 | delay or drop, then record at now + sleep + lag |
| Gamma.GammaThrottler.Admit | src/main/java/net/nenko/nanothrottler/GammaThrottler.java:41-46 | allow() leaves the gamma step of the old contents, with only the old head cell written |
| Gamma.GammaThrottler.Stepped | src/main/java/net/nenko/nanothrottler/GammaThrottler.java:41-79 | the fields after the two phases are those of the gamma step |
| Gamma.GammaThrottler.Allow | src/main/java/net/nenko/nanothrottler/GammaThrottler.java:41-46 | Admit, with the class invariant kept |
| Gamma.GammaThrottler.RateGuarantee | src/main/java/net/nenko/nanothrottler/GammaThrottler.java:10-11 | at any moment at most actionsInPeriod admissions lie in any span of periodMs |
| Small.ToInt32 | src/main/java/net/nenko/nanothrottler/SmallThrottler.java:38 | the `(int)` cast: an int congruent to its argument modulo 2^32, equal to it exactly when it fits |
| Small.SmallStep | src/main/java/net/nenko/nanothrottler/SmallThrottler.java:36-63 | an admitting call removes at most the live entries and leaves at most actionsInPeriod (its full description is SmallStepSpec) |
| Small.SmallPrepare | src/main/java/net/nenko/nanothrottler/SmallThrottler.java:37-53 | eviction and the full branch remove entries and add none |
| Small.FullBranch | src/main/java/net/nenko/nanothrottler/SmallThrottler.java:44-53 | the sleep throws exactly on a full buffer whose oldest entry yields a negative argument; when it does not throw, the buffer has room afterwards; at most the oldest entry is dropped |
| Small.SmallStepSpec | src/main/java/net/nenko/nanothrottler/SmallThrottler.java:36-62 | kept entries stay unchanged, so rebasing never changes a live entry's meaning; the base moves only when nothing else is live; a forced sleep and a rebase never happen in one call; after a sleep the new action is more than periodMs after the dropped entry; the new entry is exact when its offset fits; a refused call has a full buffer and a negative sleep |
| Small.SmallRefinesBurst | src/main/java/net/nenko/nanothrottler/SmallThrottler.java:36-62 | the documented "repeats the BurstThrottler behavior": with an exact cutoff cast the call is never refused; with the recorded offset exact too, it waits, removes, records and keeps exactly what the burst step does |
| Small.OffsetFitsIff | src/main/java/net/nenko/nanothrottler/SmallThrottler.java:61 | a stored offset is non-negative, fits and decodes exactly when at most 2^31 - 1 ms lie between the base and the action |
| Small.DocumentedLifetimeOverflows | src/main/java/net/nenko/nanothrottler/SmallThrottler.java:11-16 | an action 2^31 ms after the base, well within 200 days, is stored as -2^31 and decodes to an outdated time |
| Small.OffsetLifetimeExact | src/main/java/net/nenko/nanothrottler/SmallThrottler.java:11-16 | the real lifetime: entries are exact exactly up to 2^31 - 1 ms after the base, which is shorter than 200 days |
| Small.StepFitsWithinLifetime | src/main/java/net/nenko/nanothrottler/SmallThrottler.java:11-16 | with an `int` period, a call within 2^31 - 1 ms of the base, recording within 2^31 - 1 ms of the base it keeps, makes only exact casts, so the exact-cast flag of SmallThrottler.Allow stays set |
| Small.IdleGapRefuses | src/main/java/net/nenko/nanothrottler/SmallThrottler.java:11-16 | with periodMs 10 and 2 actions, an action at the base time and one call 2^31 + 11 ms later: the cutoff cast is not exact, the stale entry is kept and the new offset wraps, and the next call is refused by a negative sleep |
| Small.SmallStepAdmissible | src/main/java/net/nenko/nanothrottler/SmallThrottler.java:36-63 | an admission with exact casts keeps the history invariant |
| Small.SmallStepNotBefore | src/main/java/net/nenko/nanothrottler/SmallThrottler.java:55-61 | an admission with exact casts keeps the base at or before the recording time and every live entry at or after the base |
| Small.SmallStepValid | src/main/java/net/nenko/nanothrottler/SmallThrottler.java:36-63 | one call keeps the base no later than the clock and, while every cast was exact, the history invariant with no entry before the base |
| Small.SmallThrottler.Init | src/main/java/net/nenko/nanothrottler/SmallThrottler.java:28-32 | after the checks: bufferSize = actionsInPeriod + 1, baseMs = the creation time, head == tail == 0, invariant established |
| Small.SmallThrottler.New | src/main/java/net/nenko/nanothrottler/SmallThrottler.java:18-33 | fails exactly when the checks (up to 1000000 actions) fail, with their error; otherwise a fresh valid empty throttler |
| Small.SmallThrottler.EvictBefore | src/main/java/net/nenko/nanothrottler/SmallThrottler.java:39-41 | leaves head and base alone and leaves exactly the eviction of the decoded contents at the truncated cutoff + base |
| Small.SmallThrottler.WaitIfFull | src/main/java/net/nenko/nanothrottler/SmallThrottler.java:44-53 | the full branch as FullBranch on the decoded contents: a negative sleep throws with nothing dropped; otherwise tail moves on and the buffer has room |
| Small.SmallThrottler.DropOldest | src/main/java/net/nenko/nanothrottler/SmallThrottler.java:52 | advancing tail removes exactly the oldest entry |
| Small.SmallThrottler.Rebase | src/main/java/net/nenko/nanothrottler/SmallThrottler.java:55-58 | the base moves only on an empty buffer, so the decoded contents stay as they were |
| Small.SmallThrottler.Record | src/main/java/net/nenko/nanothrottler/SmallThrottler.java:61-62 | writes only the cell at head, with the truncated offset of t, and appends its decoded value |
| Small.SmallThrottler.Register | src/main/java/net/nenko/nanothrottler/SmallThrottler.java:55-62 | rebase (when empty), then record, with every cell still an int |
| Small.SmallThrottler.Prepare | src/main/java/net/nenko/nanothrottler/SmallThrottler.java:37-53 | eviction then the full branch leave exactly SmallPrepare of the decoded contents, with tail moved on by the number removed |
| Small.SmallThrottler.Admit | src/main/java/net/nenko/nanothrottler/SmallThrottler.java:36-63 | allow() leaves the small step of the old decoded contents and base; a refused call leaves the eviction only, with no cell written |
| Small.SmallThrottler.Stepped | src/main/java/net/nenko/nanothrottler/SmallThrottler.java:36-63 | the fields after the phases of an admitting call are those of the small step |
| Small.SmallThrottler.Allow | src/main/java/net/nenko/nanothrottler/SmallThrottler.java:36-63 | Admit, with the class invariant kept, and the exact-cast flag cleared exactly when a cast of this call was not exact |
| Small.SmallThrottler.RateGuarantee | src/main/java/net/nenko/nanothrottler/SmallThrottler.java:5-6 | while every cast was exact, at most actionsInPeriod admissions lie in any span of periodMs |
| Small.SmallThrottler.StoredOffsets | src/main/java/net/nenko/nanothrottler/SmallThrottler.java:71 | while every cast was exact, every live cell holds a non-negative offset from baseMs of its admission time, and the live entries are the latest admissions |
| Simulation.AllowBoth | src/main/java/net/nenko/nanothrottler/SmallThrottler.java:8 | a burst and a small throttler in the same state, given the same clock readings, sleep alike and reach the same head, tail, entries, history and clock, as long as the small throttler's casts are exact |

## Left out

- The real clock and `Thread.sleep`. `System.currentTimeMillis()` is read several times per call in the source. The model reads it once (`now`), for eviction and the sleep computation. The action is recorded at `now + sleep + lag`.
- Clock drift inside one call. The burst and gamma sleeps are at least 1 ms because eviction and the sleep computation share `now`. In the source the sleep argument is computed from a later clock read (BurstThrottler.java:46, SmallThrottler.java:46). If 2 ms or more pass after the read at line 38 and the oldest entry was on the window boundary, `relaxMs + 1` is negative and `Thread.sleep` throws, without any overflow. The model does not capture that, for either throttler.
- SmallThrottler's rebase at line 57 and record at line 61 each read the clock. The model uses one time `t` for both. A tick between them makes the source store a positive offset `(int)(t2 - t1)` where the model stores 0.
- `InterruptedException` and `printStackTrace`. Every sleep is assumed to last at least its argument.
- Gamma.GammaDelay: `Math.pow` and the `double` arithmetic of `gamma()`. `expectedMs` is a parameter, and the delay's upper bound is stated only for `0 <= expectedMs <= periodMs`.
- The `double` gamma is modelled only through the comparisons the constructor makes (the `Double` datatype), not floating-point arithmetic.
- Gamma.CheckGammaConfig: applies the intended gamma check and rejects NaN, which the source accepts; the check as written is Gamma.CheckGammaConfigAsWritten (see Findings).
- Gamma.GammaThrottler.New uses the intended gamma check and rejects NaN, which the source accepts (see Findings).
- The `System.out.println` diagnostics of GammaThrottler.
- Java `long` arithmetic is modelled as unbounded integers. Timestamps are assumed far from 2^63.
- SmallThrottler's Java `int[]` is an `array<int>`. Every write is a `ToInt32` result, and the invariant keeps every cell in the `int` range.
- Small.SmallThrottler.RateGuarantee: holds only while every cast was exact (`Intact`). After an offset overflow the model tracks the state but proves no rate bound.
- Small.SmallThrottler.StoredOffsets: the decoding is stated only while every cast was exact.
- Concurrency. The classes are not synchronised.
- The timing tests (GammaThrottlerTest, SmallThrottlerTest). They depend on real time.
- The obsolete stub src/net/nenko/nanothrottler/BurstThrottler.java has an empty `allow()` and no sentinel slot. It is not part of this model.
- The `NanoThrottler` interface is not part of this model.

## Findings

| source | as written | input that shows it | evidently intended | confidence | as-written member | corrected member |
|---|---|---|---|---|---|---|
| src/main/java/net/nenko/nanothrottler/GammaThrottler.java:27-29 | gamma is rejected only when `gamma <= 0.0` or `gamma > 10.0`, and both comparisons are false for NaN | `new GammaThrottler(1000, 10, Double.NaN)` is accepted | reject every gamma outside ]0...10], NaN included, as the message says | not executed | Gamma.NaNPassesGammaCheck | Gamma.CheckGamma |
| src/main/java/net/nenko/nanothrottler/SmallThrottler.java:11-16 | the class documentation promises 200 days of work with a never-emptied buffer, and seamless work otherwise | with `periodMs` 10 and 2 actions: one action, then a single call 2^31 + 11 ms (about 24.86 days) later keeps the stale entry, because the cutoff cast at line 38 wraps, and stores a wrapped offset; the next call throws from `Thread.sleep` with a negative argument | a lifetime of 2^31 - 1 ms, about 24.86 days, between the base and any clock reading | not executed | Small.IdleGapRefuses | Small.OffsetLifetimeExact |
