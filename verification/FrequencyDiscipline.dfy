/** The clock frequency discipline: the states NSET, FSET and SYNC, the frequency-lock and
    phase-lock formulas and the loop filter (section 11.3 of RFC 5905).  Floating-point numbers
    are modelled as reals; the frequency file, the clock and the kernel's answer are inputs. */
module FrequencyDiscipline {
  import opened Words

  const FREQ_OFFSET_MAX_PPM := 128.0
  const FREQ_DEADBAND_PPM := 0.001
  const PLL_ALPHA := 0.01
  const PLL_CONST := 65536.0
  const CLOCK_ALLAN_INTERCEPT := 1500
  const FLL_SHARE := 16.0  // two to the power of the loop gain, 4
  const MAXPOLL := 17
  const FREQ_UPDATE_INTERVAL_MIN_SEC := 64
  const JITTER_HIGH_THRESHOLD_US := 200000
  const JITTER_LOW_THRESHOLD_US := 50000

  datatype Phase = Nset | Fset | Sync

  datatype FreqState = FreqState(
    ppm: real, ppmFilter: real, phase: Phase, lastUpdate: int, lastOffsetUs: int,
    pllGain: real, fllGain: real)

  function RealAbs(x: real): real {
    if x < 0.0 then -x else x
  }

  function RealMax(x: real, y: real): real {
    if x < y then y else x
  }

  function ClampFrequency(ppm: real): (r: real)
    ensures RealAbs(r) <= FREQ_OFFSET_MAX_PPM
    ensures RealAbs(ppm) <= FREQ_OFFSET_MAX_PPM ==> r == ppm
  {
    if ppm > FREQ_OFFSET_MAX_PPM then FREQ_OFFSET_MAX_PPM
    else if ppm < -FREQ_OFFSET_MAX_PPM then -FREQ_OFFSET_MAX_PPM
    else ppm
  }

  /** Frequency-lock estimate. */
  function FllPpm(offsetUs: int, deltaSec: int, poll: nat): real {
    if deltaSec <= 0 then 0.0
    else
      var avg := Max(MAXPOLL + 1 - poll, 4);
      var denom := RealMax(deltaSec as real, CLOCK_ALLAN_INTERCEPT as real) * (avg as real);
      if denom <= 0.0 then 0.0 else ClampFrequency(offsetUs as real / 1000000.0 / denom)
  }

  function PllFormula(offset: real, etemp: real, interval: real): real {
    var dtemp := 4.0 * PLL_CONST * interval * interval;
    if dtemp <= 0.0 then 0.0 else ClampFrequency(offset * etemp / dtemp)
  }

  /** Phase-lock estimate. */
  function PllPpm(offsetUs: int, deltaSec: int, poll: nat): real {
    if deltaSec <= 0 then 0.0
    else
      var interval := Pow2(poll);
      PllFormula(offsetUs as real / 1000000.0, Min(deltaSec, interval) as real, interval as real)
  }

  /** The new state of the loop filter: frozen inside the deadband, else exponential averaging. */
  function LoopFilter(newPpm: real, filter: real, alpha: real): real {
    if RealAbs(filter) < FREQ_DEADBAND_PPM && RealAbs(newPpm) < FREQ_DEADBAND_PPM then filter
    else filter + alpha * (newPpm - filter)
  }

  function DynamicGains(jitterUs: nat): (real, real) {
    if jitterUs > JITTER_HIGH_THRESHOLD_US then (0.001, 0.1)
    else if jitterUs < JITTER_LOW_THRESHOLD_US then (0.1, 0.5)
    else (0.01, 0.01)
  }

  /** The least spacing of updates that count. */
  function Spacing(poll: nat): int {
    Max(Pow2(poll), FREQ_UPDATE_INTERVAL_MIN_SEC)
  }

  // ---------- operations ----------

  function Initial(): FreqState {
    FreqState(0.0, 0.0, Nset, 0, 0, 0.01, 0.01)
  }

  /** Loading the saved frequency; `None` stands for a missing or unreadable file. */
  function Loaded(f: FreqState, file: Option<real>): FreqState {
    if file.Some? && -FREQ_OFFSET_MAX_PPM < file.value < FREQ_OFFSET_MAX_PPM
    then f.(ppm := file.value, phase := Fset)
    else f.(phase := Nset)
  }

  /** One measurement handed to the discipline. */
  datatype Sample = Sample(now: int, offsetUs: int, poll: nat, jitterUs: nat, kernelOk: bool)

  /** Whether the measurement comes late enough after the previous one to count. */
  predicate Due(f: FreqState, s: Sample) {
    s.now - f.lastUpdate >= Spacing(s.poll)
  }

  /** The part of the update that depends on the phase. */
  function Disciplined(f: FreqState, s: Sample): FreqState {
    var delta := s.now - f.lastUpdate;
    if !Due(f, s) then f
    else match f.phase
      case Nset => f.(ppm := FllPpm(s.offsetUs, delta, s.poll), phase := Fset)
      case Fset => f.(ppm := f.ppm + (FllPpm(s.offsetUs, delta, s.poll) - f.ppm) / FLL_SHARE, phase := Sync)
      case Sync =>
        var target := if s.poll >= 11 then FllPpm(s.offsetUs, CLOCK_ALLAN_INTERCEPT, s.poll)
                      else PllPpm(s.offsetUs, delta, s.poll);
        var filtered := LoopFilter(target, f.ppmFilter, PLL_ALPHA);
        var (pll, fll) := DynamicGains(s.jitterUs);
        f.(ppm := filtered, ppmFilter := filtered, pllGain := pll, fllGain := fll)
  }

  /** The state after a measurement. */
  function Updated(f: FreqState, s: Sample): FreqState {
    var g := Disciplined(f, s);
    g.(ppm := if RealAbs(ClampFrequency(g.ppm)) >= 0.001 && s.kernelOk then ClampFrequency(g.ppm) else g.ppm,
       lastUpdate := s.now, lastOffsetUs := s.offsetUs)
  }

  /** What a measurement hands to the kernel, if anything. */
  function Applied(f: FreqState, s: Sample): Option<real> {
    var ppm := ClampFrequency(Disciplined(f, s).ppm);
    if RealAbs(ppm) < 0.001 then None else Some(ppm)
  }

  /** What the fallback asks adjtime for, in microseconds: whole microseconds up to 100, but 100
      backwards for any frequency of -1 PPM or less. */
  function SlewUs(ppm: real): int {
    if ppm <= -1.0 then -100 else if ppm < 0.0 then 0 else Min(ppm.Floor, 100)
  }

  /** C conversion of a double to an integer. */
  function Truncated(r: real): int {
    if r >= 0.0 then r.Floor else -(-r).Floor
  }

  /** The time value of the fallback: split, normalised, and cut to 100 us either way.  The
      normalised form of a negative value has a negative second, so the cut takes every whole
      negative microsecond for more than 100. */
  method AdjtimeDelta(ppm: real) returns (sec: int, usec: int)
    ensures sec == 0 && usec == SlewUs(ppm)
  {
    var adjSec := ppm / 1000000.0;
    sec := Truncated(adjSec);
    usec := Truncated((adjSec - sec as real) * 1000000.0);
    if usec < 0 {
      usec := usec + 1000000;
      sec := sec - 1;
    }
    if sec > 0 || (sec == 0 && usec > 100) {
      sec, usec := 0, 100;
    }
    if sec < 0 || (sec == 0 && usec < -100) {
      sec, usec := 0, -100;
    }
  }

  /** The return code of a measurement: what adjtime answers if the kernel refused a frequency that
      is not negligible, else zero. */
  function ReturnCode(f: FreqState, s: Sample, adjtimeResult: int): int {
    if Applied(f, s).Some? && !s.kernelOk then adjtimeResult else 0
  }

  /** What the fallback hands to adjtime, if it is reached. */
  function Fallback(f: FreqState, s: Sample): Option<int> {
    var applied := Applied(f, s);
    if applied.Some? && !s.kernelOk then Some(SlewUs(applied.value)) else None
  }

  class Discipline {
    var ppm: real
    var ppmFilter: real
    var phase: Phase
    var lastUpdate: int
    var lastOffsetUs: int
    var pllGain: real
    var fllGain: real

    ghost function State(): FreqState
      reads this
    {
      FreqState(ppm, ppmFilter, phase, lastUpdate, lastOffsetUs, pllGain, fllGain)
    }

    constructor ()
      ensures State() == Initial() == FreqState(0.0, 0.0, Nset, 0, 0, 0.01, 0.01)
    {
      ppm, ppmFilter, phase := 0.0, 0.0, Nset;
      lastUpdate, lastOffsetUs := 0, 0;
      pllGain, fllGain := 0.01, 0.01;
    }

    method Load(file: Option<real>) returns (rc: int)
      modifies this
      ensures State() == Loaded(old(State()), file)
      ensures rc == 0 <==> phase == Fset
    {
      if file.Some? {
        if file.value > -FREQ_OFFSET_MAX_PPM && file.value < FREQ_OFFSET_MAX_PPM {
          ppm := file.value;
          phase := Fset;
          return 0;
        }
      }
      phase := Nset;
      return -1;
    }

    method UpdateDynamicGain(jitterUs: nat)
      modifies this`pllGain, this`fllGain
      ensures (pllGain, fllGain) == DynamicGains(jitterUs)
    {
      if jitterUs > JITTER_HIGH_THRESHOLD_US {
        fllGain, pllGain := 0.1, 0.001;
      } else if jitterUs < JITTER_LOW_THRESHOLD_US {
        fllGain, pllGain := 0.5, 0.1;
      } else {
        fllGain, pllGain := 0.01, 0.01;
      }
    }

    method ApplyLoopFilter(newPpm: real, alpha: real) returns (filtered: real)
      modifies this`ppmFilter
      ensures filtered == ppmFilter == LoopFilter(newPpm, old(ppmFilter), alpha)
    {
      if RealAbs(ppmFilter) < FREQ_DEADBAND_PPM && RealAbs(newPpm) < FREQ_DEADBAND_PPM {
        return ppmFilter;
      }
      filtered := ppmFilter + alpha * (newPpm - ppmFilter);
      ppmFilter := filtered;
    }

    /** Hands the clamped frequency to the kernel unless it is negligible, and to adjtime when the
        kernel refuses it. */
    method ApplyAdjustment(kernelOk: bool, adjtimeResult: int) returns (rc: int, applied: Option<real>, slewUs: Option<int>)
      modifies this`ppm
      ensures rc == if applied.Some? && !kernelOk then adjtimeResult else 0
      ensures slewUs == if applied.Some? && !kernelOk then Some(SlewUs(applied.value)) else None
      ensures applied == if RealAbs(ClampFrequency(old(ppm))) < 0.001 then None else Some(ClampFrequency(old(ppm)))
      ensures ppm == if applied.Some? && kernelOk then applied.value else old(ppm)
    {
      var clamped := ClampFrequency(ppm);
      if RealAbs(clamped) < 0.001 {
        return 0, None, None;
      }
      if kernelOk {
        ppm := clamped;
        return 0, Some(clamped), None;
      }
      var _, usec := AdjtimeDelta(clamped);
      return adjtimeResult, Some(clamped), Some(usec);
    }

    method Update(s: Sample, adjtimeResult: int) returns (rc: int, applied: Option<real>, slewUs: Option<int>)
      modifies this
      ensures rc == ReturnCode(old(State()), s, adjtimeResult) && slewUs == Fallback(old(State()), s)
      ensures State() == Updated(old(State()), s)
      ensures applied == Applied(old(State()), s)
    {
      var tc := Pow2(s.poll);
      if tc < FREQ_UPDATE_INTERVAL_MIN_SEC {
        tc := FREQ_UPDATE_INTERVAL_MIN_SEC;
      }
      var delta := s.now - lastUpdate;
      match phase {
        case Nset =>
          if delta >= tc {
            ppm := FllPpm(s.offsetUs, delta, s.poll);
            phase := Fset;
          }
        case Fset =>
          if delta >= tc {
            var oldPpm := ppm;
            ppm := oldPpm + (FllPpm(s.offsetUs, delta, s.poll) - oldPpm) / FLL_SHARE;
            phase := Sync;
          }
        case Sync =>
          if delta >= tc {
            var target;
            if s.poll >= 11 {
              target := FllPpm(s.offsetUs, CLOCK_ALLAN_INTERCEPT, s.poll);
            } else {
              target := PllPpm(s.offsetUs, delta, s.poll);
            }
            UpdateDynamicGain(s.jitterUs);
            var filtered := ApplyLoopFilter(target, PLL_ALPHA);
            ppm := filtered;
          }
      }
      lastUpdate := s.now;
      lastOffsetUs := s.offsetUs;
      rc, applied, slewUs := ApplyAdjustment(s.kernelOk, adjtimeResult);
    }
  }

  // ---------- bounds over every run ----------

  datatype Step = Init | Load(file: Option<real>) | Measure(sample: Sample)

  function After(f: FreqState, run: seq<Step>): FreqState {
    if run == [] then f
    else
      var g := After(f, run[..|run|-1]);
      match run[|run|-1]
      case Init => Initial()
      case Load(file) => Loaded(g, file)
      case Measure(s) => Updated(g, s)
  }

  ghost predicate Bounded(f: FreqState) {
    -128.0 <= f.ppm <= 128.0 && -128.0 <= f.ppmFilter <= 128.0
  }

  lemma MulLe(a: real, b: real, c: real)
    requires a <= b && 0.0 <= c
    ensures a * c <= b * c
  {
  }

  lemma Cancel(a: real, b: real, c: real)
    requires a * c < b * c && 0.0 <= c
    ensures a < b
  {
    if b <= a {
      MulLe(b, a, c);
    }
  }

  lemma FllBounded(offsetUs: int, deltaSec: int, poll: nat)
    ensures RealAbs(FllPpm(offsetUs, deltaSec, poll)) <= FREQ_OFFSET_MAX_PPM
  {
  }

  lemma PllBounded(offsetUs: int, deltaSec: int, poll: nat)
    ensures RealAbs(PllPpm(offsetUs, deltaSec, poll)) <= FREQ_OFFSET_MAX_PPM
  {
  }

  lemma UpdateBounded(f: FreqState, s: Sample)
    requires Bounded(f)
    ensures Bounded(Updated(f, s))
  {
    FllBounded(s.offsetUs, s.now - f.lastUpdate, s.poll);
    FllBounded(s.offsetUs, CLOCK_ALLAN_INTERCEPT, s.poll);
    PllBounded(s.offsetUs, s.now - f.lastUpdate, s.poll);
  }

  /** Over every run of initialisation, loading and measurements the frequency and the filter
      state never leave 128 PPM either way. */
  lemma {:induction false} RunBounded(f: FreqState, run: seq<Step>)
    requires Bounded(f)
    ensures Bounded(After(f, run))
  {
    if run != [] {
      RunBounded(f, run[..|run|-1]);
      if run[|run|-1].Measure? {
        UpdateBounded(After(f, run[..|run|-1]), run[|run|-1].sample);
      }
    }
  }

  // ---------- the formulas, outright ----------

  /** A value limited to 128 either way; `x` over a positive `d` without dividing. */
  ghost predicate LimitedQuotient(r: real, x: real, d: real) {
    && (-128.0 * d <= x <= 128.0 * d ==> r * d == x)
    && (x > 128.0 * d ==> r == 128.0)
    && (x < -128.0 * d ==> r == -128.0)
    && (r > 0.0 <==> x > 0.0) && (r < 0.0 <==> x < 0.0)
  }

  lemma ClampedQuotient(x: real, d: real)
    requires d > 0.0
    ensures LimitedQuotient(ClampFrequency(x / d), x, d)
  {
    var q := x / d;
    assert q * d == x;
    if q > 128.0 {
      MulLess(128.0, q, d);
    } else if q < -128.0 {
      MulLess(q, -128.0, d);
    } else {
      MulLe(q, 128.0, d);
      MulLe(-128.0, q, d);
    }
    if q > 0.0 {
      MulLess(0.0, q, d);
    } else if q < 0.0 {
      MulLess(q, 0.0, d);
    }
  }

  lemma MulLess(a: real, b: real, c: real)
    requires a < b && 0.0 < c
    ensures a * c < b * c
  {
  }

  /** The frequency-lock estimate: the offset in seconds over max(elapsed, 1500) * max(18 - poll, 4),
      limited to 128, with the sign of the offset; zero when no time has elapsed. */
  lemma FllOutright(offsetUs: int, deltaSec: int, poll: nat)
    ensures deltaSec <= 0 ==> FllPpm(offsetUs, deltaSec, poll) == 0.0
    ensures deltaSec > 0 ==>
      LimitedQuotient(FllPpm(offsetUs, deltaSec, poll), offsetUs as real / 1000000.0,
                      RealMax(deltaSec as real, 1500.0) * (Max(18 - poll, 4) as real))
  {
    hide ClampFrequency, LimitedQuotient;
    if deltaSec > 0 {
      var mu, avg := RealMax(deltaSec as real, 1500.0), Max(18 - poll, 4) as real;
      MulLess(0.0, avg, mu);
      ClampedQuotient(offsetUs as real / 1000000.0, mu * avg);
    }
  }

  /** The phase-lock estimate: the offset in seconds times min(elapsed, 2^poll) over 262144 times the
      square of 2^poll, limited to 128, with the sign of the offset. */
  lemma PllOutright(offsetUs: int, deltaSec: int, poll: nat, x: real, e: real, i: real)
    requires x == offsetUs as real / 1000000.0 && e == Min(deltaSec, Pow2(poll)) as real && i == Pow2(poll) as real
    ensures deltaSec <= 0 ==> PllPpm(offsetUs, deltaSec, poll) == 0.0
    ensures deltaSec > 0 ==> LimitedQuotient(PllPpm(offsetUs, deltaSec, poll), x * e, 262144.0 * i * i)
  {
    hide PllFormula, LimitedQuotient, Pow2;
    if deltaSec > 0 {
      PllFormulaOutright(x, e, i);
    }
  }

  lemma PllFormulaOutright(x: real, e: real, i: real)
    requires i >= 1.0
    ensures LimitedQuotient(PllFormula(x, e, i), x * e, 262144.0 * i * i)
  {
    hide ClampFrequency, LimitedQuotient;
    var d := 4.0 * PLL_CONST * i * i;
    SquareLarge(i, d);
    ClampedQuotient(x * e, d);
  }

  /** A due measurement, phase by phase, from a state within the limits: taken over in NSET, blended
      in at one part in 16 in FSET, averaged in at one part in 100 in SYNC, unless both the estimate and
      the filter are below 0.001. */
  lemma DueUpdateOutright(f: FreqState, s: Sample)
    requires Bounded(f) && s.now - f.lastUpdate >= Max(64, Pow2(s.poll))
    ensures var g, delta := Updated(f, s), s.now - f.lastUpdate;
      var y := if s.poll >= 11 then FllPpm(s.offsetUs, 1500, s.poll) else PllPpm(s.offsetUs, delta, s.poll);
      && g.lastUpdate == s.now && g.lastOffsetUs == s.offsetUs
      && (f.phase == Nset ==> g.phase == Fset && g.ppm == FllPpm(s.offsetUs, delta, s.poll))
      && (f.phase == Fset ==> g.phase == Sync && g.ppm == (15.0 * f.ppm + FllPpm(s.offsetUs, delta, s.poll)) / 16.0)
      && (f.phase == Sync ==>
            && g.phase == Sync && g.ppm == g.ppmFilter
            && g.ppmFilter ==
                 if -0.001 < f.ppmFilter < 0.001 && -0.001 < y < 0.001 then f.ppmFilter
                 else 0.99 * f.ppmFilter + 0.01 * y)
      && (f.phase != Sync ==> g.ppmFilter == f.ppmFilter)
  {
    hide FllPpm, PllPpm, Pow2;
    FllBounded(s.offsetUs, s.now - f.lastUpdate, s.poll);
    FllBounded(s.offsetUs, 1500, s.poll);
    PllBounded(s.offsetUs, s.now - f.lastUpdate, s.poll);
  }

  /** A measurement that is not due changes nothing but what is remembered of it. */
  lemma EarlyUpdateOutright(f: FreqState, s: Sample)
    requires Bounded(f) && s.now - f.lastUpdate < Max(64, Pow2(s.poll))
    ensures Updated(f, s) == f.(lastUpdate := s.now, lastOffsetUs := s.offsetUs)
  {
  }

  /** The new frequency goes to the kernel exactly when it is at least 0.001 either way; if the kernel
      refuses it, it goes to adjtime, whose answer is returned. */
  lemma AppliedOutright(f: FreqState, s: Sample, adjtimeResult: int)
    requires Bounded(f)
    ensures var ppm := Updated(f, s).ppm;
      if -0.001 < ppm < 0.001
      then Applied(f, s) == None && ReturnCode(f, s, adjtimeResult) == 0 && Fallback(f, s) == None
      else
        && Applied(f, s) == Some(ppm)
        && ReturnCode(f, s, adjtimeResult) == (if s.kernelOk then 0 else adjtimeResult)
        && Fallback(f, s) == (if s.kernelOk then None else Some(SlewUs(ppm)))
  {
    hide FllPpm, PllPpm, Pow2, SlewUs;
    FllBounded(s.offsetUs, s.now - f.lastUpdate, s.poll);
    FllBounded(s.offsetUs, 1500, s.poll);
    PllBounded(s.offsetUs, s.now - f.lastUpdate, s.poll);
  }

  /** A frequency inside 128 PPM is taken over into FSET; any other file leaves the frequency and NSET. */
  lemma LoadedOutright(f: FreqState, v: real)
    ensures -128.0 < v < 128.0 ==> Loaded(f, Some(v)) == f.(ppm := v, phase := Fset)
    ensures !(-128.0 < v < 128.0) ==> Loaded(f, Some(v)) == f.(phase := Nset)
    ensures Loaded(f, None) == f.(phase := Nset)
  {
  }

  /** The gains follow the jitter: small ones above 200 ms, large ones below 50 ms. */
  lemma GainsFollowJitter(f: FreqState, s: Sample)
    requires f.phase == Sync && Due(f, s)
    ensures var g := Updated(f, s);
      (g.pllGain, g.fllGain) ==
        if s.jitterUs > 200000 then (0.001, 0.1) else if s.jitterUs < 50000 then (0.1, 0.5) else (0.01, 0.01)
  {
  }

  // ---------- the state machine ----------

  function Rank(p: Phase): nat {
    match p case Nset => 0 case Fset => 1 case Sync => 2
  }

  function AfterSamples(f: FreqState, samples: seq<Sample>): FreqState {
    if samples == [] then f
    else Updated(AfterSamples(f, samples[..|samples|-1]), samples[|samples|-1])
  }

  /** When the sample before index `i` was taken. */
  function PreviousCall(f: FreqState, samples: seq<Sample>, i: nat): int
    requires i <= |samples|
  {
    if i == 0 then f.lastUpdate else samples[i-1].now
  }

  /** How many samples came at least the spacing after the call before them. */
  function DueCalls(f: FreqState, samples: seq<Sample>): nat {
    if samples == [] then 0
    else
      var n := |samples| - 1;
      DueCalls(f, samples[..n]) +
      (if samples[n].now - PreviousCall(f, samples, n) >= Max(64, Pow2(samples[n].poll)) then 1 else 0)
  }

  lemma {:induction false} LastUpdateIsPreviousCall(f: FreqState, samples: seq<Sample>)
    ensures AfterSamples(f, samples).lastUpdate == PreviousCall(f, samples, |samples|)
  {
  }

  /** The machine only climbs NSET, FSET, SYNC, one phase on each call that comes at least
      max(64, 2^poll) seconds after the call before it, and on no other: the phase after a run is
      the number of such calls, up to SYNC. */
  lemma {:induction false} PhaseCountsDueCalls(f: FreqState, samples: seq<Sample>)
    ensures Rank(AfterSamples(f, samples).phase) == Min(2, Rank(f.phase) + DueCalls(f, samples))
  {
    if samples != [] {
      var n := |samples| - 1;
      PhaseCountsDueCalls(f, samples[..n]);
      LastUpdateIsPreviousCall(f, samples[..n]);
    }
  }

  /** Calls always spaced closer than that leave phase, frequency and filter frozen. */
  lemma {:induction false} CloseCallsFreeze(f: FreqState, samples: seq<Sample>)
    requires Bounded(f) && DueCalls(f, samples) == 0
    ensures var g := AfterSamples(f, samples);
      g.phase == f.phase && g.ppm == f.ppm && g.ppmFilter == f.ppmFilter
  {
    if samples != [] {
      var n := |samples| - 1;
      CloseCallsFreeze(f, samples[..n]);
      LastUpdateIsPreviousCall(f, samples[..n]);
    }
  }

  // ---------- the loop filter ----------

  function Power(x: real, n: nat): real {
    if n == 0 then 1.0 else x * Power(x, n - 1)
  }

  function Filtered(target: real, filter: real, n: nat): real {
    if n == 0 then filter else LoopFilter(target, Filtered(target, filter, n - 1), PLL_ALPHA)
  }

  lemma {:induction false} PowerFraction(n: nat)
    ensures 0.0 < Power(0.99, n) <= 1.0
  {
    if n > 0 {
      PowerFraction(n - 1);
    }
  }

  /** With a constant target outside the deadband the error after n updates is exactly 0.99^n of
      the first error, so the filter approaches the target and never overshoots. */
  lemma {:induction false} FilterConverges(target: real, filter: real, n: nat)
    requires RealAbs(target) >= FREQ_DEADBAND_PPM
    ensures target - Filtered(target, filter, n) == Power(0.99, n) * (target - filter)
  {
    if n > 0 {
      FilterConverges(target, filter, n - 1);
      var e := target - Filtered(target, filter, n - 1);
      assert target - Filtered(target, filter, n) == e - PLL_ALPHA * e == 0.99 * e;
      assert 0.99 * (Power(0.99, n - 1) * (target - filter)) == (0.99 * Power(0.99, n - 1)) * (target - filter);
    }
  }

  lemma FilterNeverOvershoots(target: real, filter: real, n: nat)
    requires RealAbs(target) >= FREQ_DEADBAND_PPM
    ensures filter <= target ==> filter <= Filtered(target, filter, n) <= target
    ensures filter >= target ==> filter >= Filtered(target, filter, n) >= target
  {
    FilterConverges(target, filter, n);
    PowerFraction(n);
    var p, e := Power(0.99, n), target - filter;
    if e >= 0.0 {
      assert 0.0 <= p * e <= 1.0 * e;
    } else {
      assert 1.0 * e <= p * e <= 0.0;
    }
  }

  // ---------- what the accepted measurements can achieve ----------

  /** The client discards measurements beyond one second. */
  const MAXDIST := 1000000

  ghost predicate Gated(samples: seq<Sample>) {
    forall i | 0 <= i < |samples| :: Abs(samples[i].offsetUs) <= MAXDIST
  }

  lemma SecondsWithinOne(offsetUs: int)
    requires Abs(offsetUs) <= MAXDIST
    ensures -1.0 <= offsetUs as real / 1000000.0 <= 1.0
  {
  }

  lemma FllTiny(offsetUs: int, deltaSec: int, poll: nat)
    requires Abs(offsetUs) <= MAXDIST
    ensures RealAbs(FllPpm(offsetUs, deltaSec, poll)) < FREQ_DEADBAND_PPM
  {
    if deltaSec > 0 {
      var avg := Max(MAXPOLL + 1 - poll, 4) as real;
      var mu := RealMax(deltaSec as real, CLOCK_ALLAN_INTERCEPT as real);
      SecondsWithinOne(offsetUs);
      FllQuotient(offsetUs as real / 1000000.0, mu, avg);
    }
  }

  lemma FllQuotient(x: real, mu: real, avg: real)
    requires -1.0 <= x <= 1.0 && mu >= 1500.0 && avg >= 4.0
    ensures RealAbs(x / (mu * avg)) < FREQ_DEADBAND_PPM && mu * avg > 0.0
  {
    MulLe(1500.0, mu, avg);
    QuotientTiny(x, mu * avg);
  }

  lemma PllQuotient(x: real, e: real, i: real)
    requires -1.0 <= x <= 1.0 && 0.0 < e <= i && i >= 1.0
    ensures RealAbs(PllFormula(x, e, i)) < FREQ_DEADBAND_PPM
  {
    var d := 4.0 * PLL_CONST * i * i;
    ProductBounded(x, e, i);
    SquareLarge(i, d);
    QuotientTiny(x * e, d);
  }

  lemma ProductBounded(x: real, e: real, i: real)
    requires -1.0 <= x <= 1.0 && 0.0 < e <= i
    ensures -i <= x * e <= i
  {
    assert x * e <= i by {
      MulLe(x, 1.0, e);
    }
    assert -i <= x * e by {
      MulLe(-1.0, x, e);
    }
  }

  lemma QuotientTiny(x: real, d: real)
    requires 1000.0 * RealAbs(x) < d
    ensures RealAbs(x / d) < FREQ_DEADBAND_PPM
  {
    var q := x / d;
    assert q * d == x;
    Cancel(q, 0.001, d);
    Cancel(-0.001, q, d);
  }

  lemma PllTiny(offsetUs: int, deltaSec: int, poll: nat)
    requires Abs(offsetUs) <= MAXDIST
    ensures RealAbs(PllPpm(offsetUs, deltaSec, poll)) < FREQ_DEADBAND_PPM
  {
    if deltaSec > 0 {
      var interval := Pow2(poll);
      var i, e := interval as real, Min(deltaSec, interval) as real;
      SecondsWithinOne(offsetUs);
      PllQuotient(offsetUs as real / 1000000.0, e, i);
    }
  }

  lemma SquareLarge(i: real, d: real)
    requires i >= 1.0 && d == 262144.0 * i * i
    ensures d >= 262144.0 * i
  {
    MulLe(1.0, i, 262144.0 * i);
  }

  /** From a fresh start, measurements within the client's gate never move the frequency out of
      the deadband: the loop filter stays at zero and nothing is ever handed to the kernel. */
  lemma {:induction false} GatedMeasurementsAreInert(samples: seq<Sample>)
    requires Gated(samples)
    ensures var f := AfterSamples(Initial(), samples);
      f.ppmFilter == 0.0 && RealAbs(f.ppm) < FREQ_DEADBAND_PPM
    ensures samples != [] ==>
      Applied(AfterSamples(Initial(), samples[..|samples|-1]), samples[|samples|-1]) == None
  {
    if samples != [] {
      var n := |samples| - 1;
      GatedMeasurementsAreInert(samples[..n]);
      InertStep(AfterSamples(Initial(), samples[..n]), samples[n]);
    }
  }

  lemma InertStep(f: FreqState, s: Sample)
    requires f.ppmFilter == 0.0 && RealAbs(f.ppm) < FREQ_DEADBAND_PPM && Abs(s.offsetUs) <= MAXDIST
    ensures Updated(f, s).ppmFilter == 0.0 && RealAbs(Updated(f, s).ppm) < FREQ_DEADBAND_PPM
    ensures Applied(f, s) == None
  {
    FllTiny(s.offsetUs, s.now - f.lastUpdate, s.poll);
    FllTiny(s.offsetUs, CLOCK_ALLAN_INTERCEPT, s.poll);
    PllTiny(s.offsetUs, s.now - f.lastUpdate, s.poll);
    var y := FllPpm(s.offsetUs, s.now - f.lastUpdate, s.poll);
    assert RealAbs(f.ppm + (y - f.ppm) / 16.0) < FREQ_DEADBAND_PPM;
  }

  /** A loaded frequency does not survive either: whatever frequency and phase a run starts from,
      gated measurements never move the loop filter off zero, and once the run has counted one
      measurement in SYNC the frequency is exactly zero. */
  lemma {:induction false} LoadedFrequencyIsForgotten(f: FreqState, samples: seq<Sample>)
    requires f.ppmFilter == 0.0 && Gated(samples)
    ensures var g := AfterSamples(f, samples);
      && g.ppmFilter == 0.0
      && (DueCalls(f, samples) >= 1 && Rank(f.phase) + DueCalls(f, samples) >= 3 ==> g.ppm == 0.0)
  {
    if samples != [] {
      var n := |samples| - 1;
      LoadedFrequencyIsForgotten(f, samples[..n]);
      PhaseCountsDueCalls(f, samples[..n]);
      LastUpdateIsPreviousCall(f, samples[..n]);
      FilterStaysZero(AfterSamples(f, samples[..n]), samples[n]);
    }
  }

  /** The frequency after loading `v` and a number of due calls: `v` itself, 15/16 of it up to a
      16th of the deadband, or zero. */
  ghost predicate InForce(v: real, due: nat, ppm: real) {
    && (due == 0 ==> ppm == v)
    && (due == 1 ==> RealAbs(ppm - 15.0 * v / 16.0) < FREQ_DEADBAND_PPM / 16.0)
    && (due >= 2 ==> ppm == 0.0)
  }

  lemma InForceDiffers(v: real, due: nat, ppm: real)
    requires RealAbs(v) >= FREQ_DEADBAND_PPM && InForce(v, due, ppm)
    ensures (ppm == v <==> due == 0) && (ppm == 0.0 <==> due >= 2)
  {
  }

  /** What is in force after loading `v` and then taking gated samples.  If `v` is not itself
      negligible, the loaded frequency is in force exactly until the first due call, and lost
      altogether exactly from the second on. */
  lemma LoadedFrequencyInForce(v: real, samples: seq<Sample>)
    requires RealAbs(v) < FREQ_OFFSET_MAX_PPM && Gated(samples)
    ensures var f := Loaded(Initial(), Some(v));
      var due, ppm := DueCalls(f, samples), AfterSamples(f, samples).ppm;
      && InForce(v, due, ppm)
      && (RealAbs(v) >= FREQ_DEADBAND_PPM ==> (ppm == v <==> due == 0) && (ppm == 0.0 <==> due >= 2))
  {
    hide AfterSamples, DueCalls, InForce;
    var f := Loaded(Initial(), Some(v));
    LoadedRun(f, v, samples);
    if RealAbs(v) >= FREQ_DEADBAND_PPM {
      InForceDiffers(v, DueCalls(f, samples), AfterSamples(f, samples).ppm);
    }
  }

  lemma {:induction false} LoadedRun(f: FreqState, v: real, samples: seq<Sample>)
    requires f == Loaded(Initial(), Some(v)) && RealAbs(v) < FREQ_OFFSET_MAX_PPM && Gated(samples)
    ensures InForce(v, DueCalls(f, samples), AfterSamples(f, samples).ppm)
  {
    hide Updated, Due;
    LoadedFrequencyIsForgotten(f, samples);
    if samples != [] {
      var n := |samples| - 1;
      var g, s := AfterSamples(f, samples[..n]), samples[n];
      LoadedRun(f, v, samples[..n]);
      PhaseCountsDueCalls(f, samples[..n]);
      DueCallsNext(f, samples);
      LoadedStep(g, s, v);
    }
  }

  lemma DueCallsNext(f: FreqState, samples: seq<Sample>)
    requires samples != []
    ensures var n := |samples| - 1;
      DueCalls(f, samples) ==
        DueCalls(f, samples[..n]) + (if Due(AfterSamples(f, samples[..n]), samples[n]) then 1 else 0)
  {
    LastUpdateIsPreviousCall(f, samples[..|samples|-1]);
  }

  /** One measurement before the second due call. */
  lemma LoadedStep(f: FreqState, s: Sample, v: real)
    requires RealAbs(v) < FREQ_OFFSET_MAX_PPM && Abs(s.offsetUs) <= MAXDIST
    ensures !Due(f, s) && RealAbs(f.ppm) <= FREQ_OFFSET_MAX_PPM ==> Updated(f, s).ppm == f.ppm
    ensures f.phase == Fset && f.ppm == v && Due(f, s) ==>
      RealAbs(Updated(f, s).ppm - 15.0 * v / 16.0) < FREQ_DEADBAND_PPM / 16.0
  {
    FllTiny(s.offsetUs, s.now - f.lastUpdate, s.poll);
  }

  lemma FilterStaysZero(f: FreqState, s: Sample)
    requires f.ppmFilter == 0.0 && Abs(s.offsetUs) <= MAXDIST
    ensures Updated(f, s).ppmFilter == 0.0
    ensures f.phase == Sync && (Due(f, s) || f.ppm == 0.0) ==> Updated(f, s).ppm == 0.0
  {
    FllTiny(s.offsetUs, CLOCK_ALLAN_INTERCEPT, s.poll);
    PllTiny(s.offsetUs, s.now - f.lastUpdate, s.poll);
  }
}
