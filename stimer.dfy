/** The timer pool: a fixed array of timer slots, slot allocation with a
    high-water mark, the per-timer operations and the tick engine. Handles
    are slot indices; the null handle is None. */
module Stimer {
  import opened StimerConfig

  /** The three uses of a slot's `enabled` field. */
  type Enabled = e: int | -1 <= e <= 1
  const FREE: Enabled := -1
  const STOPPED: Enabled := 0
  const RUNNING: Enabled := 1

  /** Ticks to count down for a period of `ms` milliseconds: the product
      `ms * 1000` (microseconds) is taken in uint32, then divided by the tick
      period with truncation. However long the period, the wrap keeps the
      reloaded countdown's length in microseconds below 2^32. */
  function MsToTicks(ms: uint32): (r: uint32)
    ensures r * TICK_PERIOD < U32_MOD
  {
    Wrap(ms * 1000) / TICK_PERIOD
  }

  /** The reload value is the number of whole tick periods in the period's
      microseconds, taken modulo 2^32. */
  lemma MsToTicksBounds(ms: uint32)
    ensures MsToTicks(ms) * TICK_PERIOD <= (ms * 1000) % U32_MOD
                                        < MsToTicks(ms) * TICK_PERIOD + TICK_PERIOD
  {
  }

  /** One pool slot (struct stimer_t). */
  datatype Slot = Slot(time: uint32, counter: uint32, enabled: Enabled, overflow: nat,
                       mode: Mode, callback: Option<CbId>)
  {
    /** What create writes into the slot it takes. */
    function Claim(m: Mode, cb: Option<CbId>): Slot {
      this.(enabled := STOPPED, overflow := 0, mode := m, callback := cb)
    }

    /** What destroy writes. */
    function Release(): Slot {
      this.(enabled := FREE)
    }

    function SetTime(ms: uint32): Slot {
      this.(time := ms, counter := MsToTicks(ms))
    }

    function Start(): Slot {
      this.(enabled := RUNNING)
    }

    function Stop(): Slot {
      this.(enabled := STOPPED)
    }

    function Reset(): Slot {
      this.(enabled := STOPPED, overflow := 0).SetTime(time)
    }

    /** The slot after its overflow count has been read. */
    function Consume(): Slot {
      if mode == OneShot && overflow != 0 then
        this.(overflow := 0, enabled := STOPPED).SetTime(time)
      else
        this.(overflow := 0)
    }

    /** The next tick finds this slot expired: tick does not skip it and its
        counter is (or is counted down to) zero. */
    predicate Fires() {
      enabled != STOPPED && counter <= 1
    }

    /** The slot as its callback observes it on expiry: counter zero, the
        overflow count including this expiry, and a one-shot timer already
        stopped. */
    function Expired(): Slot {
      this.(counter := 0, overflow := overflow + 1,
            enabled := if callback.Some? && mode == OneShot then STOPPED else enabled)
    }

    /** The slot after one tick. */
    function Tick(): (r: Slot)
      ensures r.time == time && r.mode == mode && r.callback == callback
      ensures enabled == STOPPED ==> r == this
      ensures r.enabled == enabled || (r.enabled == STOPPED && Fires() && callback.Some? && mode == OneShot)
    {
      if enabled == STOPPED then this
      else if !Fires() then this.(counter := counter - 1)
      else if callback.Some? then Expired().(overflow := 0).SetTime(time)
      else Expired().SetTime(time)
    }
  }

  /** A slot of the zero-initialised global array. */
  const ZERO_SLOT := Slot(0, 0, STOPPED, 0, OneShot, NO_CALLBACK)

  /** The slot after n ticks; ticks never change a slot's period, mode or
      callback. */
  function Ticks(t: Slot, n: nat): (r: Slot)
    ensures r.time == t.time && r.mode == t.mode && r.callback == t.callback
  {
    if n == 0 then t else Ticks(t, n - 1).Tick()
  }

  /** With the shipped 1000 us period, one tick is one millisecond, as long
      as the period in microseconds fits in 32 bits. */
  lemma OneTickPerMillisecond(ms: uint32)
    requires ms * 1000 < U32_MOD
    ensures MsToTicks(ms) == ms
  {
    assert Wrap(ms * 1000) == ms * 1000;
  }

  /** Periods from 4294968 ms on overflow the microsecond product, and the
      reload is then ((ms * 1000) mod 2^32) / 1000: 0 at 4294968 ms, 32 at
      4295000 ms, and up to 4294967, for example at 17179869 ms. */
  lemma LongPeriodsWrap()
    ensures MsToTicks(4294967) == 4294967
    ensures MsToTicks(4294968) == 0
    ensures MsToTicks(4295000) == 32
    ensures MsToTicks(4294967295) == 4294966
    ensures MsToTicks(17179869) == 4294967
  {
  }

  lemma {:induction false} TicksAdd(t: Slot, n: nat, m: nat)
    ensures Ticks(t, n + m) == Ticks(Ticks(t, n), m)
    decreases m
  {
    if m > 0 {
      TicksAdd(t, n, m - 1);
    }
  }

  /** Tick leaves a stopped slot alone, however many ticks pass. */
  lemma {:induction false} StoppedIgnoresTicks(t: Slot, n: nat)
    requires t.enabled == STOPPED
    ensures Ticks(t, n) == t
  {
    if n > 0 {
      StoppedIgnoresTicks(t, n - 1);
    }
  }

  /** stop keeps the countdown: started again after any number of ticks, the
      timer resumes with the counter it had when stopped. */
  lemma StopThenStartResumes(t: Slot, n: nat)
    ensures Ticks(t.Stop(), n).counter == t.counter
    ensures Ticks(t.Stop(), n).Start() == t.Start()
  {
    StoppedIgnoresTicks(t.Stop(), n);
  }

  /** A slot that tick does not skip (running or free) loses one count per
      tick while its counter is above zero; nothing else changes. */
  lemma {:induction false} CountsDown(t: Slot, k: nat)
    requires t.enabled != STOPPED && k < t.counter
    ensures Ticks(t, k) == t.(counter := t.counter - k)
  {
    if k > 0 {
      CountsDown(t, k - 1);
    }
  }

  /** How one tick leaves a slot that it finds expired. */
  lemma ExpiryEffect(u: Slot)
    requires u.Fires()
    ensures u.Tick().counter == MsToTicks(u.time)
    ensures u.Tick().overflow == if u.callback.Some? then 0 else u.overflow + 1
    ensures u.Tick().enabled == if u.callback.Some? && u.mode == OneShot then STOPPED else u.enabled
  {
  }

  /** After c - 1 ticks a slot with counter c >= 1 is one tick from expiry. */
  lemma PenultimateTick(t: Slot)
    requires t.enabled != STOPPED && t.counter >= 1
    ensures Ticks(t, t.counter - 1) == t.(counter := 1)
  {
    CountsDown(t, t.counter - 1);
  }

  /** One more tick of a slot whose state after n - 1 ticks is known. */
  lemma NextTick(t: Slot, n: nat, u: Slot)
    requires n >= 1 && Ticks(t, n - 1) == u
    ensures Ticks(t, n) == u.Tick()
  {
  }

  /** A slot that tick does not skip and whose counter is c >= 1 expires on
      exactly its c-th tick, never earlier. The expiry reloads the counter
      from the period; without a callback it adds one overflow and keeps the
      run state, with one it leaves overflow 0 and stops a one-shot timer. */
  lemma ExpiresOnCthTick(t: Slot)
    requires t.enabled != STOPPED && t.counter >= 1
    ensures forall k :: 0 <= k < t.counter - 1 ==> !Ticks(t, k).Fires()
    ensures Ticks(t, t.counter - 1).Fires()
    ensures Ticks(t, t.counter).counter == MsToTicks(t.time)
    ensures Ticks(t, t.counter).overflow == if t.callback.Some? then 0 else t.overflow + 1
    ensures Ticks(t, t.counter).enabled ==
              if t.callback.Some? && t.mode == OneShot then STOPPED else t.enabled
  {
    forall k | 0 <= k < t.counter - 1
      ensures !Ticks(t, k).Fires()
    {
      CountsDown(t, k);
    }
    var u := t.(counter := 1);
    PenultimateTick(t);
    NextTick(t, t.counter, u);
    ExpiryEffect(u);
  }

  /** A counter of zero does not underflow: it expires on the next tick, and
      when the period also reloads it with zero it expires on every tick, as
      long as no expiry stops it. */
  lemma {:induction false} ZeroPeriodExpiresEveryTick(t: Slot, n: nat)
    requires t.enabled != STOPPED && t.counter == 0 && MsToTicks(t.time) == 0
    requires t.mode == Loop || t.callback.None?
    ensures Ticks(t, n).Fires()
    ensures Ticks(t, n).enabled == t.enabled && Ticks(t, n).counter == 0
  {
    if n > 0 {
      ZeroPeriodExpiresEveryTick(t, n - 1);
    }
  }

  /** One full period of a timer without a callback: back at the start of
      the period with one more overflow and the same run state. */
  lemma PeriodWithoutCallback(t: Slot)
    requires t.enabled != STOPPED && t.callback.None?
    requires t.counter == MsToTicks(t.time) >= 1
    ensures Ticks(t, t.counter) == t.(overflow := t.overflow + 1)
  {
    var u := t.(counter := 1);
    PenultimateTick(t);
    NextTick(t, t.counter, u);
    ExpiryEffect(u);
  }

  /** One full period of a loop timer: back at the start of the period, with
      only the overflow count possibly changed. */
  lemma LoopPeriod(t: Slot)
    requires t.enabled != STOPPED && t.mode == Loop
    requires t.counter == MsToTicks(t.time) >= 1
    ensures Ticks(t, t.counter).(overflow := t.overflow) == t
  {
    if t.callback.None? {
      PeriodWithoutCallback(t);
    } else {
      LoopPeriodWithCallback(t);
    }
  }

  /** One full period of a loop timer with a callback: back at the start of
      the period, with the overflow count cleared after the call. */
  lemma LoopPeriodWithCallback(t: Slot)
    requires t.enabled != STOPPED && t.mode == Loop && t.callback.Some?
    requires t.counter == MsToTicks(t.time) >= 1
    ensures Ticks(t, t.counter) == t.(overflow := 0)
  {
    var u := t.(counter := 1);
    PenultimateTick(t);
    NextTick(t, t.counter, u);
    ExpiryEffect(u);
  }

  lemma MulStep(n: nat, p: nat)
    requires n > 0
    ensures 0 <= (n - 1) * p && n * p == (n - 1) * p + p
  {
  }

  /** Unpolled expiries without a callback accumulate, in both modes: a
      timer at the start of a period of p >= 1 ticks is back at the start
      after n periods with n more overflows and the same run state. */
  lemma {:induction false} UnpolledOverflowsAccumulate(t: Slot, n: nat)
    requires t.enabled != STOPPED && t.callback.None?
    requires t.counter == MsToTicks(t.time) >= 1
    ensures Ticks(t, n * t.counter) == t.(overflow := t.overflow + n)
  {
    if n > 0 {
      var p := t.counter;
      MulStep(n, p);
      TicksAdd(t, (n - 1) * p, p);
      UnpolledOverflowsAccumulate(t, n - 1);
      PeriodWithoutCallback(t.(overflow := t.overflow + n - 1));
    }
  }

  /** A loop timer keeps expiring once per period without being started
      again, whether or not it has a callback. */
  lemma {:induction false} LoopExpiresEveryPeriod(t: Slot, n: nat)
    requires t.enabled != STOPPED && t.mode == Loop
    requires t.counter == MsToTicks(t.time) >= 1
    ensures Ticks(t, n * t.counter).(overflow := t.overflow) == t
    ensures Ticks(t, n * t.counter + t.counter - 1).Fires()
  {
    var p := t.counter;
    if n > 0 {
      MulStep(n, p);
      TicksAdd(t, (n - 1) * p, p);
      LoopExpiresEveryPeriod(t, n - 1);
      var u := Ticks(t, (n - 1) * p);
      assert u == t.(overflow := u.overflow);
      LoopPeriod(u);
    }
    var w := Ticks(t, n * p);
    TicksAdd(t, n * p, p - 1);
    assert w == t.(overflow := w.overflow);
    CountsDown(w, p - 1);
  }

  /** overflow is a consuming read: a second read with no tick between
      returns 0 and changes nothing; a loop timer only loses its count. */
  lemma ReadTwice(t: Slot)
    ensures t.Consume().overflow == 0
    ensures t.Consume().Consume() == t.Consume()
    ensures t.mode == Loop ==> t.Consume() == t.(overflow := 0)
  {
  }

  /** Once an expired one-shot timer has been read it is stopped, so further
      ticks do not touch it; started again it counts a full fresh period. */
  lemma OneShotStaysStoppedAfterRead(t: Slot, n: nat)
    requires t.mode == OneShot && t.overflow != 0
    ensures Ticks(t.Consume(), n) == t.Consume()
    ensures t.Consume().enabled == STOPPED && t.Consume().overflow == 0
    ensures t.Consume().Start().counter == MsToTicks(t.time)
  {
    StoppedIgnoresTicks(t.Consume(), n);
  }

  /** reset clears the pending overflows and, once started, the timer counts
      the full configured period again. */
  lemma ResetRestartsFullPeriod(t: Slot)
    requires MsToTicks(t.time) >= 1
    ensures t.Reset().overflow == 0 && t.Reset().enabled == STOPPED
    ensures forall k :: 0 <= k < MsToTicks(t.time) - 1 ==> !Ticks(t.Reset().Start(), k).Fires()
    ensures Ticks(t.Reset().Start(), MsToTicks(t.time) - 1).Fires()
  {
    ExpiresOnCthTick(t.Reset().Start());
  }

  /** Tick does not skip destroyed slots: they count down and expire. A
      destroyed one-shot timer with a callback is stopped by its expiry, so
      it is no longer free; other destroyed slots stay free. */
  lemma DestroyedSlotStillExpires(t: Slot)
    requires t.counter >= 1
    ensures Ticks(t.Release(), t.counter - 1).Fires()
    ensures t.callback.Some? && t.mode == OneShot ==> Ticks(t.Release(), t.counter).enabled == STOPPED
    ensures t.callback.None? || t.mode == Loop ==> Ticks(t.Release(), t.counter).enabled == FREE
  {
    ExpiresOnCthTick(t.Release());
  }

  /** The lowest index at or above `from` whose slot is free. */
  function FirstFree(s: seq<Slot>, from: nat): (r: Option<nat>)
    requires from <= |s|
    ensures r.Some? ==> from <= r.value < |s| && s[r.value].enabled < 0
                        && forall j :: from <= j < r.value ==> s[j].enabled >= 0
    ensures r.None? ==> forall j :: from <= j < |s| ==> s[j].enabled >= 0
    decreases |s| - from
  {
    if from == |s| then None
    else if s[from].enabled < 0 then Some(from)
    else FirstFree(s, from + 1)
  }

  /** One callback invocation made by tick: the callback, the argument it
      received (the timer's own handle) and the timer's state at that moment. */
  datatype Invocation = Invocation(callback: CbId, arg: nat, seen: Slot)

  /** The invocations one tick makes while it visits slots 0 .. n-1 of `s`,
      in visiting order. */
  function Calls(s: seq<Slot>, n: nat): (log: seq<Invocation>)
    requires n <= |s|
    ensures |log| <= n
  {
    if n == 0 then []
    else
      var t := s[n - 1];
      Calls(s, n - 1) + if t.Fires() && t.callback.Some? then [Invocation(t.callback.value, n - 1, t.Expired())] else []
  }

  /** Tick calls back exactly the slots that expire and have a callback, in
      ascending slot order, once each; each callback gets its own timer's
      handle and sees that timer in its expired state. */
  lemma {:induction false} CallsInOrder(s: seq<Slot>, n: nat)
    requires n <= |s|
    ensures forall j :: 0 <= j < |Calls(s, n)| ==>
              var e := Calls(s, n)[j];
              e.arg < n && s[e.arg].Fires() && s[e.arg].callback == Some(e.callback)
              && e.seen == s[e.arg].Expired()
    ensures forall j, k :: 0 <= j < k < |Calls(s, n)| ==> Calls(s, n)[j].arg < Calls(s, n)[k].arg
    ensures forall i :: 0 <= i < n && s[i].Fires() && s[i].callback.Some? ==>
              exists j :: 0 <= j < |Calls(s, n)| && Calls(s, n)[j].arg == i
  {
    if n > 0 {
      CallsInOrder(s, n - 1);
      var prev := Calls(s, n - 1);
      var log := Calls(s, n);
      assert forall j :: 0 <= j < |prev| ==> log[j] == prev[j];
      if s[n - 1].Fires() && s[n - 1].callback.Some? {
        assert log[|prev|].arg == n - 1;
      }
    }
  }

  /** The pool: the global slot array and the high-water counter that lives
      inside the slot allocator. */
  class Pool {
    const timers: array<Slot>
    /** How many slots have ever been handed out by the high-water rule. */
    var next: nat
    /** Every callback invocation made so far, in order. */
    ghost var log: seq<Invocation>

    ghost predicate Valid()
      reads this
    {
      timers.Length == MAX_INSTANCES && next <= MAX_INSTANCES
    }

    /** The program's start: static storage is zero-initialised. */
    constructor ()
      ensures Valid() && fresh(timers)
      ensures next == 0 && log == []
      ensures forall i :: 0 <= i < timers.Length ==> timers[i] == ZERO_SLOT
    {
      timers := new Slot[MAX_INSTANCES](_ => ZERO_SLOT);
      next := 0;
      log := [];
    }

    /** Take a slot: never-used slots first, in index order, then the lowest
        free slot. */
    method Take() returns (h: Option<nat>)
      requires Valid()
      modifies this`next
      ensures Valid()
      ensures old(next) < MAX_INSTANCES ==> h == Some(old(next)) && next == old(next) + 1
      ensures old(next) == MAX_INSTANCES ==> h == FirstFree(timers[..], 0) && next == old(next)
    {
      if next < MAX_INSTANCES {
        h := Some(next);
        next := next + 1;
        return;
      }
      var i := 0;
      while i < MAX_INSTANCES
        invariant 0 <= i <= MAX_INSTANCES
        invariant FirstFree(timers[..], i) == FirstFree(timers[..], 0)
      {
        if timers[i].enabled < 0 {
          return Some(i);
        }
        i := i + 1;
      }
      h := None;
    }

    /** Mark a slot free; the null handle is ignored. */
    method Give(h: Option<nat>)
      requires Valid() && (h.Some? ==> h.value < timers.Length)
      modifies timers
      ensures h.None? ==> timers[..] == old(timers[..])
      ensures h.Some? ==> timers[..] == old(timers[..])[h.value := old(timers[h.value]).Release()]
    {
      if h.Some? {
        timers[h.value] := timers[h.value].(enabled := FREE);
      }
    }

    method Create(mode: Mode, callback: Option<CbId>) returns (h: Option<nat>)
      requires Valid()
      modifies this`next, timers
      ensures Valid()
      ensures old(next) < MAX_INSTANCES ==> h == Some(old(next)) && next == old(next) + 1
      ensures old(next) == MAX_INSTANCES ==> h == FirstFree(old(timers[..]), 0) && next == old(next)
      ensures h.None? ==> timers[..] == old(timers[..])
      ensures h.Some? ==>
                h.value < timers.Length &&
                timers[..] == old(timers[..])[h.value := old(timers[h.value]).Claim(mode, callback)]
    {
      h := Take();
      if h.Some? {
        var i := h.value;
        timers[i] := timers[i].(enabled := STOPPED);
        timers[i] := timers[i].(overflow := 0);
        timers[i] := timers[i].(mode := mode);
        timers[i] := timers[i].(callback := callback);
      }
    }

    method Destroy(h: Option<nat>)
      requires Valid() && (h.Some? ==> h.value < timers.Length)
      modifies timers
      ensures h.None? ==> timers[..] == old(timers[..])
      ensures h.Some? ==> timers[..] == old(timers[..])[h.value := old(timers[h.value]).Release()]
    {
      Give(h);
    }

    method SetTime(h: nat, ms: uint32)
      requires Valid() && h < timers.Length
      modifies timers
      ensures timers[..] == old(timers[..])[h := old(timers[h]).SetTime(ms)]
    {
      timers[h] := timers[h].(time := ms);
      timers[h] := timers[h].(counter := Wrap(ms * 1000) / TICK_PERIOD);
    }

    method Start(h: nat)
      requires Valid() && h < timers.Length
      modifies timers
      ensures timers[..] == old(timers[..])[h := old(timers[h]).Start()]
    {
      timers[h] := timers[h].(enabled := RUNNING);
    }

    method Stop(h: nat)
      requires Valid() && h < timers.Length
      modifies timers
      ensures timers[..] == old(timers[..])[h := old(timers[h]).Stop()]
    {
      timers[h] := timers[h].(enabled := STOPPED);
    }

    method Reset(h: nat)
      requires Valid() && h < timers.Length
      modifies timers
      ensures timers[..] == old(timers[..])[h := old(timers[h]).Reset()]
    {
      timers[h] := timers[h].(enabled := STOPPED);
      timers[h] := timers[h].(overflow := 0);
      SetTime(h, timers[h].time);
    }

    /** Read and clear the overflow count; a one-shot timer that had expired
        is also stopped and reloaded. */
    method Overflow(h: nat) returns (n: nat)
      requires Valid() && h < timers.Length
      modifies timers
      ensures n == old(timers[h].overflow)
      ensures timers[..] == old(timers[..])[h := old(timers[h]).Consume()]
    {
      n := timers[h].overflow;
      timers[h] := timers[h].(overflow := 0);
      if timers[h].mode == OneShot && n != 0 {
        timers[h] := timers[h].(enabled := STOPPED);
        SetTime(h, timers[h].time);
      }
    }

    /** One pass of tick's loop: the slot at index i counts down, and on
        expiry counts an overflow, calls back, and reloads. */
    method TickOne(i: nat)
      requires Valid() && i < timers.Length
      modifies this`log, timers
      ensures timers[..] == old(timers[..])[i := old(timers[i]).Tick()]
      ensures log == old(log) + (if old(timers[i]).Fires() && old(timers[i]).callback.Some?
                                 then [Invocation(old(timers[i]).callback.value, i, old(timers[i]).Expired())]
                                 else [])
    {
      if timers[i].enabled == STOPPED {
        return;
      }
      if timers[i].counter > 0 {
        timers[i] := timers[i].(counter := timers[i].counter - 1);
      }
      if timers[i].counter == 0 {
        timers[i] := timers[i].(overflow := timers[i].overflow + 1);
        if timers[i].callback.Some? {
          if timers[i].mode == OneShot {
            timers[i] := timers[i].(enabled := STOPPED);
          }
          log := log + [Invocation(timers[i].callback.value, i, timers[i])];
          timers[i] := timers[i].(overflow := 0);
        }
        SetTime(i, timers[i].time);
      }
    }

    /** Advance every slot by one tick, in index order. Only stopped slots are
        skipped: free slots count down and expire like running ones. */
    method Tick()
      requires Valid()
      modifies this`log, timers
      ensures forall i :: 0 <= i < timers.Length ==> timers[i] == old(timers[i]).Tick()
      ensures log == old(log) + Calls(old(timers[..]), timers.Length)
    {
      ghost var before := timers[..];
      var i := 0;
      while i < timers.Length
        invariant 0 <= i <= timers.Length
        invariant forall k :: 0 <= k < i ==> timers[k] == before[k].Tick()
        invariant forall k :: i <= k < timers.Length ==> timers[k] == before[k]
        invariant log == old(log) + Calls(before, i)
      {
        TickOne(i);
        i := i + 1;
      }
    }
  }
}
