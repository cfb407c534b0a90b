/** Timestamps and the on-wire calculation: reading the clock as an NTP timestamp, converting it
    to nanoseconds, and the delay and offset of one exchange (sections 6 and 8 of RFC 5905). */
module OnWire {
  import opened Words
  import opened Wire

  const NTP_UNIX_EPOCH_DELTA := 2208988800
  const NS_PER_SEC := 1000000000
  const TWO32 := 0x1_0000_0000

  /** The reading of the system clock as an NTP timestamp.  The sum of seconds is an unsigned 64-bit
      word; beyond the era on either side it sticks at the largest timestamp. */
  function NtpTimestampNow(tvSec: int, tvNsec: nat): Timestamp
    requires tvNsec < NS_PER_SEC && INT64_MIN <= tvSec <= INT64_MAX
  {
    var sec := (tvSec + NTP_UNIX_EPOCH_DELTA) % (UINT64_MAX + 1);
    if sec > UINT32_MAX then Timestamp(UINT32_MAX, UINT32_MAX)
    else Timestamp(sec, tvNsec * TWO32 / NS_PER_SEC)
  }

  /** Nanoseconds since the Unix epoch, with the overflow clamps of the source. */
  function ToNs(t: Timestamp): i64 {
    var sec := (t.sec as int) - NTP_UNIX_EPOCH_DELTA;
    if sec > TruncDiv(INT64_MAX, NS_PER_SEC) - 1 then INT64_MAX
    else if sec < TruncDiv(INT64_MIN, NS_PER_SEC) + 1 then INT64_MIN
    else sec * NS_PER_SEC + (t.frac as int) * NS_PER_SEC / TWO32
  }

  /** The position of a timestamp within the era, in units of 2^-32 s. */
  function Fixed(t: Timestamp): int {
    t.sec * TWO32 + t.frac
  }

  /** The time of a timestamp in nanoseconds since 1970, rounded down: seconds since 1900 and a
      binary fraction. */
  function Nanoseconds(t: Timestamp): int {
    (t.sec - 2208988800) * 1000000000 + t.frac * 1000000000 / 4294967296
  }

  /** The clamps are never reached: the conversion is exact arithmetic, rounded down to whole
      nanoseconds. */
  lemma ToNsExact(t: Timestamp)
    ensures ToNs(t) == Nanoseconds(t)
    ensures 0 <= (t.frac as int) * 1000000000 / 4294967296 < 1000000000
    ensures INT64_MIN < ToNs(t) < INT64_MAX
  {
  }

  lemma ToNsMonotone(t: Timestamp, t': Timestamp)
    requires Fixed(t) <= Fixed(t')
    ensures ToNs(t) <= ToNs(t')
  {
    ToNsExact(t);
    ToNsExact(t');
    if t.sec == t'.sec {
      assert t.frac * NS_PER_SEC <= t'.frac * NS_PER_SEC;
    } else {
      assert t.sec < t'.sec;
    }
  }

  /** The start of the NTP era, 1 January 1900, as a clock reading in nanoseconds. */
  const ERA_START := -NTP_UNIX_EPOCH_DELTA * NS_PER_SEC

  /** A clock reading in nanoseconds lies in the NTP era from 1900 to 2036. */
  predicate InEra(ns: int) {
    ERA_START <= ns < (UINT32_MAX + 1 - NTP_UNIX_EPOCH_DELTA) * NS_PER_SEC
  }

  /** The timestamp taken when the clock reads `ns` nanoseconds: whole seconds, rounded down, and
      the nanoseconds above them. */
  function Stamp(ns: int): Timestamp
    requires INT64_MIN <= ns <= INT64_MAX
  {
    NtpTimestampNow(ns / NS_PER_SEC, ns % NS_PER_SEC)
  }

  lemma FractionLosesOneAtMost(nsec: nat)
    requires nsec < NS_PER_SEC
    ensures 0 <= nsec * TWO32 / NS_PER_SEC < TWO32
    ensures nsec - 1 <= nsec * TWO32 / NS_PER_SEC * NS_PER_SEC / TWO32 <= nsec
  {
    var frac := nsec * TWO32 / NS_PER_SEC;
    assert frac * NS_PER_SEC <= nsec * TWO32 < frac * NS_PER_SEC + NS_PER_SEC;
    assert (nsec - 1) * TWO32 < frac * NS_PER_SEC;
  }

  /** Within the era, stamping and converting back loses at most one nanosecond, and only the first
      instant of the era gives the zero timestamp. */
  lemma StampLosesOneAtMost(ns: int)
    requires InEra(ns)
    ensures ns - 1 <= ToNs(Stamp(ns)) <= ns
    ensures Stamp(ns) == Timestamp(0, 0) <==> ns == ERA_START
  {
    var sec, nsec := ns / NS_PER_SEC, ns % NS_PER_SEC;
    assert sec * NS_PER_SEC + nsec == ns;
    FractionLosesOneAtMost(nsec);
    ToNsExact(Stamp(ns));
  }

  /** Within the era the timestamp holds the seconds since 1900 and the nanoseconds above them as a
      binary fraction, rounded down. */
  lemma StampExact(ns: int)
    requires InEra(ns)
    ensures var t := Stamp(ns);
      && t.sec == 2208988800 + ns / 1000000000
      && t.frac * 1000000000 <= ns % 1000000000 * 4294967296 < (t.frac + 1) * 1000000000
  {
    var nsec := ns % NS_PER_SEC;
    assert ns / NS_PER_SEC * NS_PER_SEC + nsec == ns;
    FractionLosesOneAtMost(nsec);
  }

  /** Outside the era every clock reading gives the largest timestamp. */
  lemma StampSaturates(ns: int)
    requires INT64_MIN <= ns <= INT64_MAX && !InEra(ns)
    ensures Stamp(ns) == Timestamp(0xFFFF_FFFF, 0xFFFF_FFFF)
  {
    var sec, nsec := ns / NS_PER_SEC, ns % NS_PER_SEC;
    assert sec * NS_PER_SEC + nsec == ns;
  }

  // ---------- delay and offset ----------

  datatype Measurement = Measurement(delayUs: u64, offsetUs: i64)

  /** Round-trip delay and clock offset of an exchange; a negative delay is rejected.  Every
      intermediate result is typed as a signed 64-bit word, so none of them can overflow. */
  function DelayOffset(t1: Timestamp, t2: Timestamp, t3: Timestamp, t4: Timestamp): Option<Measurement> {
    ToNsExact(t1);
    ToNsExact(t2);
    ToNsExact(t3);
    ToNsExact(t4);
    var T1, T2, T3, T4 := ToNs(t1) as int, ToNs(t2) as int, ToNs(t3) as int, ToNs(t4) as int;
    var out: i64 := T4 - T1;
    var held: i64 := T3 - T2;
    var delayNs: i64 := (out as int) - held;
    var there: i64 := T2 - T1;
    var back: i64 := T3 - T4;
    var sum: i64 := (there as int) + back;
    var offsetNs: i64 := TruncDiv(sum, 2);
    if delayNs < 0 then None
    else Some(Measurement(delayNs / 1000, TruncDiv(offsetNs, 1000)))
  }

  /** What any four timestamps measure.  There is no measurement exactly when the server claims to have
      held the packet longer than the round trip took.  Otherwise the delay is the round trip less the
      holding time, in whole microseconds; the offset is half of what the two directions show between
      them, in microseconds rounded toward zero. */
  lemma MeasuredExactly(t1: Timestamp, t2: Timestamp, t3: Timestamp, t4: Timestamp)
    ensures var T1, T2, T3, T4 := Nanoseconds(t1), Nanoseconds(t2), Nanoseconds(t3), Nanoseconds(t4);
      && (DelayOffset(t1, t2, t3, t4) == None <==> T4 - T1 < T3 - T2)
      && (DelayOffset(t1, t2, t3, t4).Some? ==>
            var m, sum := DelayOffset(t1, t2, t3, t4).value, (T2 - T1) + (T3 - T4);
            && 1000 * m.delayUs <= (T4 - T1) - (T3 - T2) < 1000 * m.delayUs + 1000
            && (sum >= 0 ==> 2000 * m.offsetUs <= sum < 2000 * m.offsetUs + 2000)
            && (sum <= 0 ==> 2000 * m.offsetUs - 2000 < sum <= 2000 * m.offsetUs))
  {
    hide ToNs, Nanoseconds;
    ToNsExact(t1);
    ToNsExact(t2);
    ToNsExact(t3);
    ToNsExact(t4);
  }

  /** One exchange in true time: the client's clock reads `sent` when it stamps the request; the
      server's clock is ahead of it by `theta`; the request travels for `there`, the server holds
      it for `held`, the reply travels for `back`.  All in nanoseconds. */
  datatype Exchange = Exchange(sent: int, theta: int, there: nat, held: int, back: nat) {
    function T1(): int { sent }
    function T2(): int { sent + there + theta }
    function T3(): int { sent + there + theta + held }
    function T4(): int { sent + there + held + back }

    ghost predicate Valid() {
      InEra(T1()) && InEra(T2()) && InEra(T3()) && InEra(T4())
    }

    function Measured(): Option<Measurement>
      requires Valid()
    {
      DelayOffset(Stamp(T1()), Stamp(T2()), Stamp(T3()), Stamp(T4()))
    }
  }

  lemma TruncDivNear(a: int, b: int)
    requires b > 0
    ensures -b < b * TruncDiv(a, b) - a < b
    ensures b == 2 ==> -1 <= 2 * TruncDiv(a, 2) - a <= 1
  {
  }

  /** The classical bound with every truncation accounted for: whatever the two path delays and
      whatever the true offset, the measured offset is within half the measured delay plus
      1.501 microseconds of the true one. */
  lemma OffsetWithinHalfDelay(x: Exchange)
    requires x.Valid() && x.Measured().Some?
    ensures var m := x.Measured().value;
      Abs(1000 * m.offsetUs - x.theta) <= 500 * m.delayUs + 1501
  {
    hide Stamp, ToNs, TruncDiv, Abs;
    StampLosesOneAtMost(x.T1());
    StampLosesOneAtMost(x.T2());
    StampLosesOneAtMost(x.T3());
    StampLosesOneAtMost(x.T4());
    HalfDelay(x, ToNs(Stamp(x.T1())), ToNs(Stamp(x.T2())), ToNs(Stamp(x.T3())), ToNs(Stamp(x.T4())));
  }

  /** The arithmetic of the bound, for readings that lose at most one nanosecond. */
  lemma HalfDelay(x: Exchange, T1: int, T2: int, T3: int, T4: int)
    requires x.T1() - 1 <= T1 <= x.T1() && x.T2() - 1 <= T2 <= x.T2()
    requires x.T3() - 1 <= T3 <= x.T3() && x.T4() - 1 <= T4 <= x.T4()
    ensures var delay, sum := (T4 - T1) - (T3 - T2), (T2 - T1) + (T3 - T4);
      Abs(1000 * TruncDiv(TruncDiv(sum, 2), 1000) - x.theta) <= 500 * (delay / 1000) + 1501
  {
    hide TruncDiv;
    var delay, sum := (T4 - T1) - (T3 - T2), (T2 - T1) + (T3 - T4);
    assert -2 <= delay - (x.there + x.back) <= 2;
    assert -2 <= sum - (2 * x.theta + x.there - x.back) <= 2;
    TruncDivNear(sum, 2);
    TruncDivNear(TruncDiv(sum, 2), 1000);
  }

  /** The measured delay is the true path delay to within two nanoseconds and rounding down, and
      the exchange is rejected only when the paths take less than two nanoseconds together. */
  lemma DelayIsPathDelay(x: Exchange)
    requires x.Valid()
    ensures x.there + x.back >= 2 ==> x.Measured().Some?
    ensures x.Measured().Some? ==>
      x.there + x.back - 1002 < 1000 * x.Measured().value.delayUs <= x.there + x.back + 2
  {
    StampLosesOneAtMost(x.T1());
    StampLosesOneAtMost(x.T2());
    StampLosesOneAtMost(x.T3());
    StampLosesOneAtMost(x.T4());
  }

  // ---------- short format ----------

  /** Microseconds to the 16.16 short format. */
  function U16_16FromUs(us: u64): u32 {
    if us > UINT64_MAX / 65536 then UINT32_MAX
    else
      var scaled: u64 := (us as int) * 65536;
      var v := scaled / 1000000;
      if v > UINT32_MAX then UINT32_MAX else v
  }

  /** The conversion is the exact quotient, saturated once, for every 64-bit input. */
  lemma U16_16Saturates(us: u64)
    ensures U16_16FromUs(us) == Min(0xFFFF_FFFF, (us as int) * 65536 / 1000000)
  {
  }
}
