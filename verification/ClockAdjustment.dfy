/** Adjusting the local clock: the adaptive poll exponent, the choice between stepping and slewing
    with its normalised time values, and the clock's precision exponent. */
module ClockAdjustment {
  import opened Words

  // ---------- poll exponent ----------

  const POLL_INTERVAL_MIN := 4
  const POLL_INTERVAL_MAX := 12
  const POLL_DELAY_HIGH_THRESHOLD_US := 100000
  const POLL_DELAY_LOW_THRESHOLD_US := 10000
  const POLL_OFFSET_HIGH_THRESHOLD_US := 50000
  const POLL_OFFSET_LOW_THRESHOLD_US := 10000

  predicate Bad(delayUs: u64, offsetUs: i64) {
    delayUs > POLL_DELAY_HIGH_THRESHOLD_US || Abs(offsetUs) > POLL_OFFSET_HIGH_THRESHOLD_US
  }

  predicate Good(delayUs: u64, offsetUs: i64) {
    delayUs < POLL_DELAY_LOW_THRESHOLD_US && Abs(offsetUs) < POLL_OFFSET_LOW_THRESHOLD_US
  }

  function AdjustPollInterval(current: i8, peer: i8, delayUs: u64, offsetUs: i64): i8 {
    var poll := Min(current, peer);
    if Bad(delayUs, offsetUs) then (if poll < POLL_INTERVAL_MAX then poll + 1 else poll)
    else if Good(delayUs, offsetUs) then (if poll > POLL_INTERVAL_MIN then poll - 1 else poll)
    else poll
  }

  /** Where one adjustment goes: from the smaller of the two exponents one up, unless it is 12 or
      more, for a delay above 100 ms or an offset beyond 50 ms; one down, unless it is 4 or less, for
      both below 10 ms; and nowhere in between. */
  lemma AdjustmentOutright(current: i8, peer: i8, delayUs: u64, offsetUs: i64)
    ensures var start, next := Min(current, peer), AdjustPollInterval(current, peer, delayUs, offsetUs);
      var bad := delayUs > 100000 || offsetUs > 50000 || offsetUs < -50000;
      var good := delayUs < 10000 && -10000 < offsetUs < 10000;
      && (bad && start < 12 ==> next == start + 1)
      && (good && start > 4 ==> next == start - 1)
      && ((bad && start >= 12) || (good && start <= 4) || (!bad && !good) ==> next == start)
  {
  }

  datatype Measured = Measured(peer: i8, delayUs: u64, offsetUs: i64)

  function PollAfter(start: i8, run: seq<Measured>): i8 {
    if run == [] then start
    else
      var m := run[|run|-1];
      AdjustPollInterval(PollAfter(start, run[..|run|-1]), m.peer, m.delayUs, m.offsetUs)
  }

  predicate PollInRange(poll: int) {
    4 <= poll <= 12
  }

  /** One adjustment stays in range exactly when the peer polls at 4 or more, or at 3 while the
      measurement is bad: the code trusts the peer's poll exponent below its own minimum. */
  lemma AdjustmentInRange(current: i8, m: Measured)
    requires PollInRange(current)
    ensures PollInRange(AdjustPollInterval(current, m.peer, m.delayUs, m.offsetUs)) <==>
      m.peer >= POLL_INTERVAL_MIN || (m.peer == POLL_INTERVAL_MIN - 1 && Bad(m.delayUs, m.offsetUs))
  {
  }

  /** With peer polls never below 4, the exponent stays in range on every run. */
  lemma {:induction false} PollStaysInRange(start: i8, run: seq<Measured>)
    requires PollInRange(start)
    requires forall i | 0 <= i < |run| :: run[i].peer >= POLL_INTERVAL_MIN
    ensures PollInRange(PollAfter(start, run))
  {
    if run != [] {
      PollStaysInRange(start, run[..|run|-1]);
    }
  }

  /** Under a constant peer poll and always bad measurements the exponent climbs one per call and
      stops one above the peer, or at 12. */
  lemma {:induction false} BadRunClimbs(p: i8, run: seq<Measured>)
    requires p >= POLL_INTERVAL_MIN
    requires forall i | 0 <= i < |run| :: run[i].peer == p && Bad(run[i].delayUs, run[i].offsetUs)
    ensures PollAfter(POLL_INTERVAL_MIN, run) == Min(POLL_INTERVAL_MIN + |run|, Min(POLL_INTERVAL_MAX, p + 1))
  {
    if run != [] {
      BadRunClimbs(p, run[..|run|-1]);
    }
  }

  /** With always good measurements it falls one per call, from the peer's poll at most, down to
      4; eight calls suffice from anywhere. */
  lemma {:induction false} GoodRunFalls(start: i8, p: i8, run: seq<Measured>)
    requires PollInRange(start) && p >= POLL_INTERVAL_MIN
    requires forall i | 0 <= i < |run| :: run[i].peer == p && Good(run[i].delayUs, run[i].offsetUs)
    ensures run != [] ==> PollAfter(start, run) == Max(POLL_INTERVAL_MIN, Min(start, p) - |run|)
    ensures |run| >= 8 ==> PollAfter(start, run) == POLL_INTERVAL_MIN
  {
    if run != [] {
      var rest := run[..|run|-1];
      GoodRunFalls(start, p, rest);
      if rest == [] {
        assert PollAfter(start, rest) == start;
      }
    }
  }

  // ---------- stepping and slewing ----------

  const STEP_THRESHOLD_US := 500000

  /** What is asked of the system clock. */
  datatype Correction = Refused | Step(sec: i64, nsec: i64) | Slew(sec: i64, usec: i64)

  /** The panic test compares microseconds with the threshold times 10^9. */
  predicate PanicCondition(offsetUs: int, threshold: u16) {
    Abs(offsetUs) > threshold * 1000000000
  }

  /** The default threshold of 1000 refuses only offsets above a million seconds. */
  lemma PanicUnit(offsetUs: int)
    ensures PanicCondition(offsetUs, 1000) <==> Abs(offsetUs) > 1000000 * 1000000
  {
  }

  /** Applies an offset.  Large offsets step the clock, small ones slew it; either way the value
      handed over is normalised and adds up exactly.  All intermediate results are typed as
      64-bit words: the panic test is what keeps the product by 1000 from overflowing. */
  method ApplyTimeCorrection(offsetUs: i64, threshold: u16, now: Option<(i64, i64)>) returns (c: Correction)
    requires offsetUs > INT64_MIN
    requires now.Some? ==>
      && 0 <= now.value.1 < 1000000000
      && INT64_MIN <= (now.value.0 as int) * 1000000000
      && (now.value.0 as int) * 1000000000 + now.value.1 <= INT64_MAX
    ensures c == Refused <==>
      || Abs(offsetUs) > threshold * 1000000000
      || (Abs(offsetUs) > 500000 &&
          (now == None ||
           !(-0x8000_0000_0000_0000 <= (now.value.0 as int) * 1000000000 + now.value.1 + (offsetUs as int) * 1000
             <= 0x7FFF_FFFF_FFFF_FFFF)))
    ensures c.Step? ==>
      && Abs(offsetUs) > 500000 && now.Some?
      && 0 <= c.nsec < 1000000000
      && (c.sec as int) * 1000000000 + c.nsec == (now.value.0 as int) * 1000000000 + now.value.1 + (offsetUs as int) * 1000
    ensures c.Slew? ==>
      && Abs(offsetUs) <= 500000
      && 0 <= c.usec < 1000000
      && (c.sec as int) * 1000000 + c.usec == offsetUs
  {
    if PanicCondition(offsetUs, threshold) {
      return Refused;
    }
    if offsetUs > STEP_THRESHOLD_US || offsetUs < -STEP_THRESHOLD_US {
      if now == None {
        return Refused;
      }
      var offsetNs: i64 := (offsetUs as int) * 1000;
      var ns: i64 := (now.value.0 as int) * 1000000000 + now.value.1;
      if offsetNs > 0 && ns > INT64_MAX - offsetNs {
        return Refused;
      }
      if offsetNs < 0 && (ns as int) < INT64_MIN - (offsetNs as int) {
        return Refused;
      }
      var target: i64 := (ns as int) + offsetNs;
      var sec, nsec := Normalised(target, 1000000000);
      return Step(sec, nsec);
    }
    var sec, usec := Normalised(offsetUs, 1000000);
    return Slew(sec, usec);
  }

  /** Truncating division and remainder, then a borrow when the remainder is negative. */
  method Normalised(v: i64, unit: int) returns (whole: i64, part: i64)
    requires unit == 1000000000 || unit == 1000000
    ensures 0 <= part < unit && (whole as int) * unit + part == v
  {
    TruncDivMod(v, unit);
    var q, r := TruncDiv(v, unit), TruncMod(v, unit);
    if r < 0 {
      assert (q - 1) * unit == q * unit - unit;
      r := r + unit;
      q := q - 1;
    }
    whole, part := q, r;
  }

  lemma TruncDivMod(v: i64, unit: int)
    requires unit == 1000000000 || unit == 1000000
    ensures TruncDiv(v, unit) * unit + TruncMod(v, unit) == v
    ensures -unit < TruncMod(v, unit) < unit
    ensures INT64_MIN < TruncDiv(v, unit) <= INT64_MAX
  {
    if unit == 1000000 {
    } else {
      assert unit == 1000000000;
    }
  }

  // ---------- precision ----------

  /** The precision exponent from the clock's resolution.  Below one second it is the exponent at
      which the resolution, doubled that often, first reaches a second; from one second up it is
      the negated bit length, or 6 when that exceeds 6. */
  method GetSystemPrecision(resolution: Option<(i64, i64)>) returns (p: i8)
    requires resolution.Some? ==> 0 <= resolution.value.1 < 1000000000
    ensures resolution == None ==> p == -20
    ensures resolution.Some? && resolution.value.0 <= 0 && (resolution.value.0 < 0 || resolution.value.1 == 0) ==> p == -20
    ensures resolution.Some? && resolution.value.0 == 0 && resolution.value.1 > 0 ==>
      && -30 <= p < 0
      && Pow2(-p) * resolution.value.1 >= 1000000000 > Pow2(-p - 1) * resolution.value.1
    ensures resolution.Some? && resolution.value.0 > 0 ==>
      && (p == 6 <==> resolution.value.0 >= 64)
      && (p != 6 ==> -6 <= p < 0 && Pow2(-(p as int) - 1) <= resolution.value.0 < Pow2(-(p as int)))
  {
    if resolution == None {
      return -20;
    }
    var sec, nsec := resolution.value.0, resolution.value.1;
    if sec == 0 && nsec == 0 {
      return -20;
    }
    if sec > 0 {
      var bits := BitLength(sec);
      return if bits > 6 then 6 else -bits;
    }
    if sec < 0 {
      return -20;
    }
    p := Doublings(nsec);
  }

  /** The number of bits of a positive word. */
  method BitLength(sec: i64) returns (p: int)
    requires sec > 0
    ensures p > 0 && Pow2(p - 1) <= sec < Pow2(p)
    ensures p > 6 <==> sec >= 64
  {
    var s: int := sec;
    p := 0;
    while s > 0
      invariant p >= 0 && s >= 0 && s * Pow2(p) <= sec < (s + 1) * Pow2(p)
      invariant s == 0 ==> p > 0 && Pow2(p - 1) <= sec
    {
      HalfStep(s, Pow2(p), sec);
      p := p + 1;
      s := s / 2;
    }
    if p > 6 {
      Pow2Monotone(6, p - 1);
    } else {
      Pow2Monotone(p, 6);
    }
  }

  lemma HalfStep(s: int, w: int, v: int)
    requires s > 0 && w > 0 && s * w <= v < (s + 1) * w
    ensures s / 2 * (2 * w) <= v < (s / 2 + 1) * (2 * w)
    ensures s / 2 == 0 ==> w <= v
  {
    var h := s / 2;
    assert s == 2 * h || s == 2 * h + 1;
  }

  method Doublings(nsec: i64) returns (p: i8)
    requires 0 < nsec < 1000000000
    ensures -30 <= p < 0 && Pow2(-p) * nsec >= 1000000000 > Pow2(-p - 1) * nsec
  {
    var ns: int := nsec;
    p := 0;
    while ns < 1000000000
      invariant -30 <= p <= 0 && ns == Pow2(-p) * nsec && ns >= Pow2(-p)
      invariant p < 0 ==> Pow2(-p - 1) * nsec < 1000000000
      decreases 1000000000 - ns
    {
      DoublingStep(-(p as int), nsec, ns);
      p := p - 1;
      ns := ns * 2;
    }
  }

  lemma DoublingStep(k: nat, nsec: int, ns: int)
    requires 0 < nsec && ns == Pow2(k) * nsec && ns >= Pow2(k) && ns < 1000000000 && k <= 30
    ensures k < 30 && ns * 2 == Pow2(k + 1) * nsec
  {
    BillionBelowPow30();
    assert 2 * (Pow2(k) * nsec) == (2 * Pow2(k)) * nsec;
  }

  lemma BillionBelowPow30()
    ensures Pow2(30) > 1000000000
  {
    assert Pow2(10) == 1024;
    assert Pow2(20) == 1024 * Pow2(10);
    assert Pow2(30) == 1024 * Pow2(20);
  }
}
