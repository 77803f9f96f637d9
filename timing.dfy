/**
 * The timing model of Adafruit_Thermal.cpp: the per-byte transmission cost,
 * the deadline that timeoutSet records, the condition on which timeoutWait
 * returns, and the (different) gate that loop() applies before draining a byte.
 * Clock values are 32-bit `unsigned long` readings of micros().
 */
module Timing {
  import opened Ints

  const BAUDRATE: int := 19200

  /** Microseconds to issue one byte: 11 bit periods (start, 8 data, stop, idle), rounded. */
  const BYTE_TIME: uint32 := ((11 * 1000000) + (BAUDRATE / 2)) / BAUDRATE

  /** The value timeoutSet(x) stores in resumeTime (unchanged with DTR handshaking). */
  function Deadline(dtrEnabled: bool, resumeTime: uint32, lastWritingTime: uint32,
                    now: uint32, x: uint32): uint32
  {
    if dtrEnabled then resumeTime
    else Wrap32((if resumeTime > now then now else lastWritingTime) + x)
  }

  /** The rollover-proof test of timeoutWait: `(long)(now - resumeTime) >= 0`. */
  predicate Elapsed(now: uint32, resumeTime: uint32)
  {
    Signed32(Wrap32(now - resumeTime)) >= 0
  }

  /** One observation made by a spinning wait: the clock and the DTR line level. */
  datatype Sample = Sample(micros: uint32, dtrHigh: bool)

  /** The condition on which timeoutWait stops spinning, in either flow-control mode. */
  predicate Ready(dtrEnabled: bool, resumeTime: uint32, s: Sample)
  {
    if dtrEnabled then !s.dtrHigh else Elapsed(s.micros, resumeTime)
  }

  /** The gate of loop(): the UNSIGNED difference `micros() - resumeTime` compared with 0. */
  predicate LoopGate(now: uint32, resumeTime: uint32)
  {
    Wrap32(now - resumeTime) > 0
  }

  lemma ByteTimeValue()
    ensures BYTE_TIME == 573
  {
  }

  /** The wrapped difference of two wrapped values is the wrapped difference of the originals. */
  lemma WrapDifference(a: int, b: int)
    ensures Wrap32(Wrap32(a) - Wrap32(b)) == Wrap32(a - b)
  {
    var qa, qb := a / TWO_32, b / TWO_32;
    assert a == qa * TWO_32 + Wrap32(a);
    assert b == qb * TWO_32 + Wrap32(b);
    assert a - b == (qa - qb) * TWO_32 + (Wrap32(a) - Wrap32(b));
    WrapShift(Wrap32(a) - Wrap32(b), qa - qb);
  }

  lemma WrapShift(x: int, q: int)
    ensures Wrap32(q * TWO_32 + x) == Wrap32(x)
  {
  }

  lemma WrapSmall(x: int)
    requires -0x8000_0000 < x < 0x8000_0000
    ensures Signed32(Wrap32(x)) == x
  {
  }

  /**
   * timeoutWait orders clock readings correctly across the 32-bit rollover:
   * measured from any common start, a deadline x ticks later has elapsed after
   * d ticks exactly when d >= x, for every start (including one just below
   * the wrap point), provided both spans are shorter than 2^31 microseconds.
   */
  lemma ElapsedIsRolloverSafe(start: uint32, x: nat, d: nat)
    requires x < 0x8000_0000 && d < 0x8000_0000
    ensures Elapsed(Wrap32(start + d), Wrap32(start + x)) <==> x <= d
  {
    WrapDifference(start + d, start + x);
    assert (start + d) - (start + x) == d - x;
    WrapSmall(d - x);
  }

  /**
   * While a previous deadline is still pending, timeoutSet(x) makes timeoutWait
   * return exactly once x microseconds have passed since the call.
   */
  lemma PendingDeadlineWaitsX(resumeTime: uint32, lastWritingTime: uint32, now: uint32, x: nat, d: nat)
    requires resumeTime > now
    requires x < 0x8000_0000 && d < 0x8000_0000
    ensures Elapsed(Wrap32(now + d), Deadline(false, resumeTime, lastWritingTime, now, x)) <==> x <= d
  {
    ElapsedIsRolloverSafe(now, x, d);
  }

  /**
   * Otherwise the new deadline is measured from the last byte loop() drained,
   * not from the call of timeoutSet.
   */
  lemma ExpiredDeadlineCountsFromLastWrite(resumeTime: uint32, lastWritingTime: uint32, now: uint32, x: nat, d: nat)
    requires resumeTime <= now
    requires x < 0x8000_0000 && d < 0x8000_0000
    ensures Elapsed(Wrap32(lastWritingTime + d), Deadline(false, resumeTime, lastWritingTime, now, x)) <==> x <= d
  {
    ElapsedIsRolloverSafe(lastWritingTime, x, d);
  }

  /** With DTR handshaking timeoutSet leaves the deadline alone. */
  lemma DtrDeadlineUnchanged(resumeTime: uint32, lastWritingTime: uint32, now: uint32, x: uint32)
    ensures Deadline(true, resumeTime, lastWritingTime, now, x) == resumeTime
  {
  }

  /**
   * Just across the rollover: a deadline at the largest clock value has elapsed
   * one tick later (clock 0), and a deadline at clock 0 has not elapsed one
   * tick before it.
   */
  lemma ElapsedAtRollover()
    ensures Elapsed(0, 0xFFFF_FFFF)
    ensures !Elapsed(0xFFFF_FFFF, 0)
  {
  }

  /** loop()'s gate is open at every clock value except the deadline itself. */
  lemma {:induction false} LoopGateIsInequality(now: uint32, resumeTime: uint32)
    ensures LoopGate(now, resumeTime) <==> now != resumeTime
  {
    if now != resumeTime {
      assert -TWO_32 < now - resumeTime < TWO_32;
    }
  }

  /**
   * Consequently loop() drains a byte one tick BEFORE the deadline, where
   * timeoutWait would still be waiting.
   */
  lemma LoopGateOpensEarly(resumeTime: uint32)
    ensures LoopGate(Wrap32(resumeTime - 1), resumeTime)
    ensures !Elapsed(Wrap32(resumeTime - 1), resumeTime)
  {
    LoopGateIsInequality(Wrap32(resumeTime - 1), resumeTime);
    WrapDifference(resumeTime - 1, resumeTime);
    WrapSmall(-1);
  }

  /**
   * A timeoutSet issued while an earlier deadline is still pending may move the
   * deadline EARLIER: the remaining wait is replaced, not extended.
   */
  lemma PendingDeadlineCanShrink()
    ensures Deadline(false, 1000, 0, 0, 10) < 1000
  {
  }

  /** And an expired deadline may be set to a time already in the past. */
  lemma ExpiredDeadlineCanBePast()
    ensures Deadline(false, 5, 0, 100, 10) < 100
  {
  }
}
