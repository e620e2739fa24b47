/** Client programs of the timer pool, each run on a freshly started pool with
    the shipped configuration (10 slots, 1000 us tick period): the tests
    test_timer_create and test_timer_callback and the demos 01-one-shot,
    02-loop-mode and 03-multiple-overflow. Their postconditions state what
    those programs observe. */
module StimerScenarios {
  import opened StimerConfig
  import opened Stimer

  /** Create as many timers as there are slots, try one more, destroy them
      all and create again. Every create but the extra one succeeds, and the
      handles come out in slot order; after recycling, the lowest slot is
      handed out. */
  method ExhaustAndRecycle() returns (handles: seq<nat>, extra: Option<nat>, again: Option<nat>)
    ensures handles == seq(MAX_INSTANCES, i => i)
    ensures extra == None
    ensures again == Some(0)
  {
    var pool := new Pool();
    handles := [];
    while |handles| < MAX_INSTANCES
      invariant fresh(pool.timers) && pool.Valid()
      invariant pool.next == |handles| <= MAX_INSTANCES
      invariant handles == seq(|handles|, i => i)
      invariant forall i :: 0 <= i < pool.timers.Length ==> pool.timers[i].enabled == STOPPED
    {
      var h := pool.Create(OneShot, NO_CALLBACK);
      handles := handles + [h.value];
    }
    extra := pool.Create(OneShot, NO_CALLBACK);
    var i := 0;
    while i < MAX_INSTANCES
      invariant fresh(pool.timers) && pool.Valid() && pool.next == MAX_INSTANCES
      invariant 0 <= i <= MAX_INSTANCES
      invariant forall j :: 0 <= j < i ==> pool.timers[j].enabled == FREE
    {
      pool.Destroy(Some(handles[i]));
      i := i + 1;
    }
    again := pool.Create(Loop, NO_CALLBACK);
  }

  /** A 10 ms one-shot timer without callback, polled after each of 30
      ticks: the expiry is seen once, at the 10th tick, and the read stops
      the timer for good. */
  method OneShotPolled() returns (readings: seq<nat>)
    ensures |readings| == 30
    ensures forall k :: 0 <= k < 30 ==> readings[k] == if k + 1 == 10 then 1 else 0
  {
    var pool := new Pool();
    var h := pool.Create(OneShot, NO_CALLBACK);
    var t := h.value;
    pool.SetTime(t, 10);
    pool.Start(t);
    ghost var s0 := pool.timers[t];
    assert s0 == Slot(10, 10, RUNNING, 0, OneShot, None);
    readings := [];
    while |readings| < 30
      invariant fresh(pool.timers) && pool.Valid()
      invariant |readings| <= 30
      invariant forall k :: 0 <= k < |readings| ==> readings[k] == if k + 1 == 10 then 1 else 0
      invariant |readings| < 10 ==> pool.timers[t] == s0.(counter := 10 - |readings|)
      invariant |readings| >= 10 ==> pool.timers[t] == s0.(enabled := STOPPED)
    {
      pool.Tick();
      var n := pool.Overflow(t);
      readings := readings + [n];
    }
  }

  /** The same timer, read only after 30 ticks: the one-shot timer was never
      stopped, so the read returns three expiries. */
  method OneShotUnpolled() returns (n: nat)
    ensures n == 3
  {
    var pool := new Pool();
    var h := pool.Create(OneShot, NO_CALLBACK);
    var t := h.value;
    pool.SetTime(t, 10);
    pool.Start(t);
    ghost var s0 := pool.timers[t];
    assert s0 == Slot(10, 10, RUNNING, 0, OneShot, None);
    var ticks := 0;
    while ticks < 30
      invariant fresh(pool.timers) && pool.Valid()
      invariant 0 <= ticks <= 30
      invariant pool.timers[t] == Ticks(s0, ticks)
    {
      pool.Tick();
      ticks := ticks + 1;
    }
    ThreeUnreadExpiries(s0);
    n := pool.Overflow(t);
  }

  /** Thirty ticks of a running 10 ms one-shot timer without callback leave
      three expiries counted. */
  lemma ThreeUnreadExpiries(s0: Slot)
    requires s0 == Slot(10, 10, RUNNING, 0, OneShot, None)
    ensures Ticks(s0, 30).overflow == 3
  {
    OneTickPerMillisecond(10);
    assert 3 * s0.counter == 30;
    UnpolledOverflowsAccumulate(s0, 3);
  }

  /** The demo loop timer's slot after `k` rounds of tick, read, and the
      stop after round 26 and start after round 40. */
  function LoopDemoSlot(s0: Slot, k: nat): Slot
    requires k <= 50
  {
    if k < 10 then s0.(counter := 10 - k)
    else if k < 20 then s0.(counter := 20 - k)
    else if k < 26 then s0.(counter := 30 - k)
    else if k < 40 then s0.(counter := 4, enabled := STOPPED)
    else if k < 44 then s0.(counter := 44 - k)
    else s0.(counter := 54 - k)
  }

  /** What one round of the demo reads, and the slot it leaves. */
  lemma LoopDemoRound(s0: Slot, k: nat)
    requires s0 == Slot(10, 10, RUNNING, 0, Loop, None) && k < 50
    ensures LoopDemoSlot(s0, k).Tick().overflow ==
              if k + 1 == 10 || k + 1 == 20 || k + 1 == 44 then 1 else 0
    ensures var v := LoopDemoSlot(s0, k).Tick().Consume();
            LoopDemoSlot(s0, k + 1) ==
              if k + 1 == 26 then v.Stop() else if k + 1 == 40 then v.Start() else v
  {
    assert MsToTicks(10) == 10 by { OneTickPerMillisecond(10); }
  }

  /** A 10 ms loop timer polled after each of 50 ticks, stopped after tick 26
      and started again after tick 40: it expires at ticks 10 and 20, and,
      resuming the 4 ticks left when it was stopped, at tick 44. */
  method LoopStopStart() returns (readings: seq<nat>)
    ensures |readings| == 50
    ensures forall k :: 0 <= k < 50 ==>
              readings[k] == if k + 1 == 10 || k + 1 == 20 || k + 1 == 44 then 1 else 0
  {
    var pool := new Pool();
    var h := pool.Create(Loop, NO_CALLBACK);
    var t := h.value;
    pool.SetTime(t, 10);
    pool.Start(t);
    ghost var s0 := pool.timers[t];
    assert s0 == Slot(10, 10, RUNNING, 0, Loop, None);
    readings := [];
    var ticks := 0;
    while ticks < 50
      invariant fresh(pool.timers) && pool.Valid()
      invariant 0 <= ticks <= 50 && |readings| == ticks
      invariant forall k :: 0 <= k < ticks ==>
                  readings[k] == if k + 1 == 10 || k + 1 == 20 || k + 1 == 44 then 1 else 0
      invariant pool.timers[t] == LoopDemoSlot(s0, ticks)
    {
      LoopDemoRound(s0, ticks);
      ticks := ticks + 1;
      pool.Tick();
      var n := pool.Overflow(t);
      readings := readings + [n];
      if ticks == 26 {
        pool.Stop(t);
      }
      if ticks == 40 {
        pool.Start(t);
      }
    }
  }

  /** A 10 ms one-shot timer with a callback, run for 50 ticks: the callback
      is invoked exactly once, with the timer's own handle, seeing the timer
      stopped and the expiry counted; afterwards nothing is left to read. */
  method OneShotWithCallback(cb: CbId) returns (h: Option<nat>, ghost calls: seq<Invocation>, after: nat)
    ensures h.Some?
    ensures calls == [Invocation(cb, h.value, Slot(10, 0, STOPPED, 1, OneShot, Some(cb)))]
    ensures after == 0
  {
    var pool := new Pool();
    h := pool.Create(OneShot, Some(cb));
    var t := h.value;
    pool.SetTime(t, 10);
    pool.Start(t);
    ghost var s0 := pool.timers[t];
    assert s0 == Slot(10, 10, RUNNING, 0, OneShot, Some(cb));
    ghost var seen := Slot(10, 0, STOPPED, 1, OneShot, Some(cb));
    var ticks := 0;
    while ticks < 50
      invariant fresh(pool.timers) && pool.Valid()
      invariant 0 <= ticks <= 50
      invariant forall i :: 0 <= i < pool.timers.Length && i != t ==> pool.timers[i] == ZERO_SLOT
      invariant ticks < 10 ==> pool.timers[t] == s0.(counter := 10 - ticks) && pool.log == []
      invariant ticks >= 10 ==> pool.timers[t] == s0.(enabled := STOPPED)
                                && pool.log == [Invocation(cb, t, seen)]
    {
      ghost var s := pool.timers[..];
      pool.Tick();
      NoOtherCalls(s, t, |s|);
      ticks := ticks + 1;
    }
    calls := pool.log;
    after := pool.Overflow(t);
  }

  /** When slot t is the only one that can call back, the invocations made
      while visiting slots 0 .. n-1 are at most the one of slot t. */
  lemma {:induction false} NoOtherCalls(s: seq<Slot>, t: nat, n: nat)
    requires t < |s| && n <= |s|
    requires forall i :: 0 <= i < |s| && i != t ==> !(s[i].Fires() && s[i].callback.Some?)
    ensures Calls(s, n) == if t < n && s[t].Fires() && s[t].callback.Some?
                           then [Invocation(s[t].callback.value, t, s[t].Expired())]
                           else []
  {
    if n > 0 {
      NoOtherCalls(s, t, n - 1);
    }
  }
}
