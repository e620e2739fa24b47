# stimer — a verified model of a fixed-capacity software timer pool

The library keeps a zero-initialised global array of `STIMER_MAX_INSTANCES`
timer slots (`g_timers`). `stimer_create` takes a slot, first by a hidden
high-water counter over never-used slots, then by scanning for the lowest slot
whose `enabled` is negative, and initialises it; `stimer_destroy` marks it free
(`enabled = -1`). `stimer_set_time` stores a period in milliseconds and loads
the countdown with `(time_ms * 1000) / STIMER_TICK_PERIOD`, computed in
`uint32_t`. `stimer_start`, `stimer_stop` and `stimer_reset` change the run
state. `stimer_overflow` reads and clears the expiry count, and also stops and
reloads a one-shot timer that had expired. `stimer_tick`, called once per tick
period, visits every slot whose `enabled` is not 0, counts it down, and on
expiry counts an overflow, calls the callback with the timer itself (stopping a
one-shot timer first and clearing the count after), and reloads the counter.

The model has three modules:

- `StimerConfig` (`stimer_h.dfy`): the header. It holds `uint32`, the shipped
  configuration (`TICK_PERIOD = 1000`, `MAX_INSTANCES = 10`), the mode enum, the
  null callback and the three unit-conversion macros, each taken modulo 2^32.
  The header's build-time range check on the tick period is the subset type
  `TickPeriod` (1 to 1000): any other value fails to verify, just as it fails
  to build. So every division by the period is by a positive number.
- `Stimer` (`stimer.dfy`): the pool. `Slot` is the record `struct stimer_t`.
  Its member functions give, per C function, the slot's new value (`Claim`
  for create, `Release`, `SetTime`, `Start`, `Stop`, `Reset`, `Consume` for
  the overflow read, `Tick`). They serve as the specification of the class
  `Pool`. `Pool` holds the slot `array` and the allocator's high-water
  counter `next`. Its methods update the array in place in the order the C
  code does, and each is proved to produce the specified slot. Handles are
  slot indices; the null pointer is `None`. A callback is an `Option<CbId>`,
  and every invocation is appended to a ghost `log` as an `Invocation`: which
  callback ran, the argument it got (the slot's own handle) and the slot as
  the callback saw it. The lemmas prove the timing and overflow behaviour of
  repeated ticks.
- `StimerScenarios` (`scenarios.dfy`): five of the library's test and demo
  programs, written as client methods on a fresh pool: the cmocka tests
  `test_timer_create` and `test_timer_callback`, and the demos
  `01-one-shot`, `02-loop-mode` and `03-multiple-overflow`. Each one's
  postcondition states what the program observes.

Behaviour of the code that the model keeps as written:

- `overflow` is a plain `int` increment, not saturated.
- There is no argument setter: the callback always receives the timer
  itself. The call `stimer_argument` in the tests is neither declared nor
  defined in the library.
- A timer with counter c expires on its c-th tick (`ExpiresOnCthTick`).
- Tick skips only slots whose `enabled` is 0. Destroyed slots (`-1`) are
  still counted down, expire and call back (`DestroyedSlotStillExpires`).
- Zero-initialisation makes never-used slots stopped (`enabled = 0`), not
  free. Only the high-water counter reaches them.

Consequences of the code as written that the model proves:

- A destroyed one-shot timer with a callback is stopped by its next expiry,
  so the free-slot scan no longer finds it (`DestroyedSlotStillExpires`).
- A period of 4294968 ms or more wraps the microsecond product, and the
  reload is then ((ms·1000) mod 2^32) / 1000: 0 at 4294968 ms, 32 at
  4295000 ms, and up to 4294967, for example at 17179869 ms
  (`MsToTicksBounds`, `LongPeriodsWrap`).
- A one-shot timer without a callback is stopped only by reading its
  overflow count. Unread, it keeps expiring every period
  (`UnpolledOverflowsAccumulate`, `OneShotUnpolled`).

## Model

| member | source | states |
|---|---|---|
| `StimerConfig.SecToMs` | src/stimer.h:21 | the result is exactly t·1000 whenever that fits in 32 bits, and otherwise the uint32 value congruent to it modulo 2^32 |
| `StimerConfig.MinToMs` | src/stimer.h:22 | the result is exactly t·60000 whenever that fits in 32 bits, and otherwise the uint32 value congruent to it modulo 2^32 |
| `StimerConfig.HourToMs` | src/stimer.h:23 | the result is exactly t·3600000 whenever that fits in 32 bits, and otherwise the uint32 value congruent to it modulo 2^32 |
| `StimerConfig.MinToMsViaSecToMs` | src/stimer.h:21-22 | for every t, MIN_TO_MS(t) == SEC_TO_MS(60·t mod 2^32): the two macros agree under wrap-around |
| `StimerConfig.HourToMsViaMinToMs` | src/stimer.h:22-23 | for every t, HOUR_TO_MS(t) == MIN_TO_MS(60·t mod 2^32) |
| `StimerConfig.ConversionLimits` | src/stimer.h:21-23 | the largest counts that convert exactly (4294967 s, 71582 min, 1193 h), and the small values the next counts wrap to |
| `Stimer.MsToTicks` | src/stimer.c:140 | the reload value, whatever the period, is a countdown whose length in microseconds (reload · tick period) stays below 2^32 |
| `Stimer.MsToTicksBounds` | src/stimer.c:140 | for every period ms, the reload is the number of whole tick periods in (ms·1000) mod 2^32 microseconds: reload·P <= (ms·1000) mod 2^32 < reload·P + P |
| `Stimer.OneTickPerMillisecond` | src/stimer.h:33 | with the shipped 1000 µs period, set_time(ms) loads exactly ms ticks for every ms up to 4294967 |
| `Stimer.LongPeriodsWrap` | src/stimer.c:140 | 4294967 ms loads 4294967 ticks, but 4294968 ms loads 0, 4295000 ms loads 32, 4294967295 ms loads 4294966 and 17179869 ms loads 4294967 again (uint32 wrap of ms·1000) |
| `Stimer.Slot.Tick` | src/stimer.c:181-201 | one tick never changes time, mode or callback; a stopped slot is left alone; the run state changes only when a one-shot timer with a callback expires, and then to stopped |
| `Stimer.Ticks` | src/stimer.c:175-203 | any number of ticks preserves a slot's time, mode and callback |
| `Stimer.FirstFree` | src/stimer.c:89-98 | returns the lowest index whose slot has enabled < 0, with every lower slot not free, or None exactly when no slot is free |
| `Stimer.Calls` | src/stimer.c:177-198 | visiting slots 0 .. n-1 invokes at most one callback per slot (the log has at most n entries); which slots, in what order and with what argument is stated by `CallsInOrder` |
| `Stimer.CallsInOrder` | src/stimer.c:187-198 | one tick calls back exactly the slots that expire and have a callback, once each and in ascending slot order; each callback receives its own slot's handle and sees that slot expired (counter 0, overflow counting this expiry, a one-shot timer already stopped) |
| `Stimer.StoppedIgnoresTicks` | src/stimer.c:181-182 | any number of ticks leaves a stopped slot (enabled == 0) unchanged |
| `Stimer.StopThenStartResumes` | src/stimer.c:143-151 | a timer stopped and started again after any number of ticks keeps the counter it had: stop does not restart the countdown |
| `Stimer.CountsDown` | src/stimer.c:184-185 | a running or destroyed slot loses exactly one count per tick while its counter is positive, and nothing else changes |
| `Stimer.ExpiresOnCthTick` | src/stimer.c:184-201 | a non-skipped slot with counter c >= 1 expires on exactly its c-th tick and never earlier; the expiry reloads the counter from time, leaves overflow at old+1 without a callback and at 0 with one, and stops only a one-shot timer with a callback |
| `Stimer.ExpiryEffect` | src/stimer.c:187-201 | a tick that finds a slot expired reloads its counter from time, leaves overflow at old+1 without a callback and at 0 with one, and stops only a one-shot timer with a callback |
| `Stimer.PenultimateTick` | src/stimer.c:184-185 | a non-skipped slot with counter c >= 1 has counter 1 after c - 1 ticks, everything else unchanged |
| `Stimer.PeriodWithoutCallback` | src/stimer.c:184-201 | a timer without a callback, started at the beginning of its period, is back there after one period with exactly one more overflow and the same run state |
| `Stimer.LoopPeriod` | src/stimer.c:184-201 | a loop timer started at the beginning of its period is back there after one period, with only its overflow count possibly changed |
| `Stimer.LoopPeriodWithCallback` | src/stimer.c:184-201 | a loop timer with a callback, started at the beginning of its period, is back there after one period with its overflow count cleared by the call |
| `Stimer.ZeroPeriodExpiresEveryTick` | src/stimer.c:184-189 | a counter of 0 does not underflow but expires; with a zero reload value it expires on every tick unless an expiry stops it |
| `Stimer.UnpolledOverflowsAccumulate` | src/stimer.c:187-201 | without a callback, n full periods of p ticks add exactly n to overflow and change nothing else, in both modes: a one-shot timer is not stopped by tick |
| `Stimer.LoopExpiresEveryPeriod` | src/stimer.c:193-201 | a loop timer, with or without a callback, is back at the start of its period after every p ticks and expires on the last tick of each period |
| `Stimer.ReadTwice` | src/stimer.c:160-173 | the overflow read leaves the count 0, so a second read with no tick between returns 0 and changes nothing; for a loop timer the read changes only the count |
| `Stimer.OneShotStaysStoppedAfterRead` | src/stimer.c:165-170 | reading a nonzero count of a one-shot timer stops it, so later ticks leave it unchanged; started again, it counts a full reloaded period |
| `Stimer.ResetRestartsFullPeriod` | src/stimer.c:153-158 | reset clears the count and stops the timer; started again, it expires after exactly the full configured period |
| `Stimer.DestroyedSlotStillExpires` | src/stimer.c:181 | a destroyed slot is not skipped by tick: it expires on its c-th tick; a destroyed one-shot slot with a callback then becomes stopped, and no longer free; any other destroyed slot stays free |
| `Stimer.Pool.constructor` | src/stimer.c:69 | the pool starts with every slot zero (stopped, one-shot, no callback), the high-water counter at 0 and no invocations |
| `Stimer.Pool.Take` | src/stimer.c:78-99 | while the high-water counter is below the capacity it returns that slot and increments the counter, whatever lower slots are free; afterwards it returns the lowest free slot, or None |
| `Stimer.Pool.Give` | src/stimer.c:101-108 | marks the given slot free and changes nothing else; the null handle changes nothing |
| `Stimer.Pool.Create` | src/stimer.c:117-130 | returns the slot Take picks, writes only its enabled (0), overflow (0), mode and callback, keeping the previous occupant's time and counter, and changes nothing when the pool is exhausted |
| `Stimer.Pool.Destroy` | src/stimer.c:132-135 | writes only enabled = -1 on the given slot; the null handle changes nothing |
| `Stimer.Pool.SetTime` | src/stimer.c:137-141 | stores the period and reloads the counter with MsToTicks of it, on that slot only |
| `Stimer.Pool.Start` | src/stimer.c:143-146 | sets only enabled = 1 on that slot |
| `Stimer.Pool.Stop` | src/stimer.c:148-151 | sets only enabled = 0 on that slot, keeping its counter |
| `Stimer.Pool.Reset` | src/stimer.c:153-158 | sets enabled 0 and overflow 0 and reloads the counter from the stored period, on that slot only |
| `Stimer.Pool.Overflow` | src/stimer.c:160-173 | returns the stored count and leaves it 0; a one-shot timer with a nonzero count is also stopped and reloaded |
| `Stimer.Pool.TickOne` | src/stimer.c:179-201 | one pass of the tick loop turns slot i into its ticked value and logs one invocation exactly when the slot expires with a callback |
| `Stimer.Pool.Tick` | src/stimer.c:175-204 | every slot becomes its ticked value, and the log grows by the invocations of all expiring slots with callbacks, in slot order |
| `StimerScenarios.ExhaustAndRecycle` | test/test_stimer.c:106-130 | from the start, the capacity's worth of creates return slots 0, 1, … in order, the next create returns null, and after destroying them all a create returns slot 0 |
| `StimerScenarios.OneShotPolled` | test/01-one-shot.c:6-33 | a 10 ms one-shot timer polled after each of 30 ticks reports one expiry, at tick 10, and none after |
| `StimerScenarios.OneShotUnpolled` | test/03-multiple-overflow.c:6-34 | the same timer read first after 30 ticks reports 3 expiries |
| `StimerScenarios.ThreeUnreadExpiries` | test/03-multiple-overflow.c:6-34 | thirty ticks of a running 10 ms one-shot timer without callback count three expiries |
| `StimerScenarios.LoopDemoRound` | test/02-loop-mode.c:21-39 | one round of the loop-mode demo: what the read returns and the slot left after the stop at round 26 and the start at round 40 |
| `StimerScenarios.LoopStopStart` | test/02-loop-mode.c:6-39 | a 10 ms loop timer stopped after tick 26 and restarted after tick 40 expires at ticks 10, 20 and 44: the countdown resumes where it stopped |
| `StimerScenarios.OneShotWithCallback` | test/test_stimer.c:153-173 | a 10 ms one-shot timer with a callback, run 50 ticks, calls back exactly once, with its own handle, seeing itself stopped with one overflow; a read afterwards returns 0 |

## Left out

- Interrupt-versus-API races: the code has no synchronisation, and the model is sequential.
- Callback bodies, and API calls a callback makes on the pool: an invocation is a log entry. The writes after the call (`overflow = 0`, reload) are kept.
- The custom callback argument (`stimer_argument`): the library does not declare or define it.
- The test harness and the demos' I/O (the tick thread, `usleep`, cmocka, `printf`): the scenarios keep their call sequences only.
- Overflow past `INT_MAX`: `overflow` is an unbounded `nat`, and the signed overflow the C code would hit after 2^31 - 1 unread expiries is not modelled.
- Null handles passed to operations other than destroy: the C code would dereference a null pointer, so the model requires a slot index. A stale handle (a destroyed slot) is allowed and acts on the slot as the code does.
- Pointer identity: handles are slot indices.
- The test `test_timer_100ms`: it measures real elapsed time against a tick thread, and the model has no clock.
- The demo `05-loop-mode-cb`: what it shows is printed by its callback body, and callback bodies are not modelled.
- The demo `06-custom-argument`: it relies on `stimer_argument`, which the library does not define, and on its callback body.
- The demo `07-multiple-timers`: not modelled as a scenario; the pool lemmas cover several timers ticked together (`Pool.Tick`, `CallsInOrder`).
