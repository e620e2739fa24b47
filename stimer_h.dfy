/** The public header of the timer library: build-time configuration, the timer
    mode, the "no callback" value and the unit-conversion macros. Every macro
    computes in 32-bit unsigned arithmetic, so each one wraps modulo 2^32. */
module StimerConfig {

  /** 2^32: the modulus of C's uint32_t arithmetic. */
  const U32_MOD: nat := 0x1_0000_0000

  type uint32 = x: int | 0 <= x < 0x1_0000_0000

  /** A tick period that the header's range check lets through: 1 to 1000
      microseconds. Any other value stops the build, so every division by the
      period is by a positive number. */
  type TickPeriod = p: int | 1 <= p <= 1000 witness 1

  /** Tick period in microseconds, as shipped. */
  const TICK_PERIOD: TickPeriod := 1000

  /** Number of timer slots in the pool, as shipped. */
  const MAX_INSTANCES: nat := 10

  /** The two timer modes; ONE_SHOT is the enumerator with value 0. */
  datatype Mode = OneShot | Loop

  datatype Option<T> = None | Some(value: T)

  /** Identifies a callback function (its address). */
  type CbId = nat

  /** The null function pointer: a timer created with it has no callback. */
  const NO_CALLBACK: Option<CbId> := None

  /** Wrap-around of a non-negative product into uint32. */
  function Wrap(x: nat): (r: uint32)
    ensures x < U32_MOD ==> r == x
  {
    x % 0x1_0000_0000
  }

  /** Seconds to milliseconds in uint32 arithmetic. The macro first casts its
      argument to uint32_t, so any integer count, negative ones included, is
      reduced modulo 2^32 before the product; `t` is that cast value. */
  function SecToMs(t: uint32): (r: uint32)
    ensures t * 1000 < U32_MOD ==> r == t * 1000
    ensures (t * 1000 - r) % U32_MOD == 0
  {
    Wrap(t * 1000)
  }

  /** Minutes to milliseconds in uint32 arithmetic. The macro first casts its
      argument to uint32_t, so any integer count, negative ones included, is
      reduced modulo 2^32 before the product; `t` is that cast value. */
  function MinToMs(t: uint32): (r: uint32)
    ensures t * 60000 < U32_MOD ==> r == t * 60000
    ensures (t * 60000 - r) % U32_MOD == 0
  {
    Wrap(t * 60000)
  }

  /** Hours to milliseconds in uint32 arithmetic. The macro first casts its
      argument to uint32_t, so any integer count, negative ones included, is
      reduced modulo 2^32 before the product; `t` is that cast value. */
  function HourToMs(t: uint32): (r: uint32)
    ensures t * 3600000 < U32_MOD ==> r == t * 3600000
    ensures (t * 3600000 - r) % U32_MOD == 0
  {
    Wrap(t * 3600000)
  }

  /** Adding a multiple of 2^32 does not change the wrapped value. */
  lemma {:induction false} WrapAddMultiple(k: nat, x: nat)
    ensures Wrap(U32_MOD * k + x) == Wrap(x)
  {
    if k > 0 {
      calc {
        Wrap(U32_MOD * k + x);
        { assert U32_MOD * k + x == U32_MOD * (k - 1) + (x + U32_MOD); }
        Wrap(U32_MOD * (k - 1) + (x + U32_MOD));
        { WrapAddMultiple(k - 1, x + U32_MOD); }
        Wrap(x + U32_MOD);
      }
    }
  }

  /** Wrapping a factor before multiplying gives the same uint32 product. */
  lemma WrapMul(a: nat, b: nat)
    ensures Wrap(Wrap(a) * b) == Wrap(a * b)
  {
    var q, r := a / U32_MOD, a % U32_MOD;
    assert a == U32_MOD * q + r;
    assert a * b == U32_MOD * (q * b) + r * b by {
      assert a * b == (U32_MOD * q + r) * b;
    }
    WrapAddMultiple(q * b, r * b);
  }

  /** A minute count converts like sixty times as many seconds, where the
      count of seconds is itself taken in uint32. */
  lemma MinToMsViaSecToMs(t: uint32)
    ensures MinToMs(t) == SecToMs(Wrap(60 * t))
  {
    WrapMul(60 * t, 1000);
    assert 60 * t * 1000 == t * 60000;
  }

  /** An hour count converts like sixty times as many minutes, where the
      count of minutes is itself taken in uint32. */
  lemma HourToMsViaMinToMs(t: uint32)
    ensures HourToMs(t) == MinToMs(Wrap(60 * t))
  {
    WrapMul(60 * t, 60000);
    assert 60 * t * 60000 == t * 3600000;
  }

  /** The conversions are exact up to the largest count that fits, and the
      next count wraps to a small value. */
  lemma ConversionLimits()
    ensures SecToMs(4294967) == 4294967000 && SecToMs(4294968) == 704
    ensures MinToMs(71582) == 4294920000 && MinToMs(71583) == 12704
    ensures HourToMs(1193) == 4294800000 && HourToMs(1194) == 3432704
  {
  }
}
