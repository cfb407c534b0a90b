/** The MARX outlier filter over the shared pool of clock samples.  The filter works in place on
    the buffer it is given and, for each sample it rejects, also removes the entry at the same
    index from the pool.  The daemon calls it on the pool itself, so each removal shifts the
    entries under the running index. */
module MarxFilter {
  import opened Words
  import opened OrderStatistics
  import MarxMedian

  const MAX_SAMPLES := 64

  datatype NtpSample = NtpSample(ts: u64, delay: u64, offset: i64)

  /** The pool as a value: the whole array, stale tail included, and the live count. */
  datatype PoolState = PoolState(slots: seq<NtpSample>, count: nat)

  function Delays(s: seq<NtpSample>): (r: seq<u64>)
    ensures |r| == |s|
  {
    seq(|s|, i requires 0 <= i < |s| => s[i].delay)
  }

  /** The samples whose delay is at most the threshold, in order. */
  function Kept(s: seq<NtpSample>, threshold: u64): (r: seq<NtpSample>)
    ensures |r| <= |s|
  {
    if s == [] then []
    else
      var r := Kept(s[..|s|-1], threshold);
      if s[|s|-1].delay <= threshold then r + [s[|s|-1]] else r
  }

  /** Removal by index: the tail moves down one slot, the last slot keeps a stale copy; an index
      outside the live part changes nothing. */
  function RemoveAt(p: PoolState, index: int): (r: PoolState)
    requires p.count <= |p.slots|
    ensures r.count <= |r.slots| == |p.slots|
  {
    if 0 <= index < p.count then PoolState(ShiftedDown(p.slots, index, p.count - 1), p.count - 1) else p
  }

  function ShiftedDown<T>(slots: seq<T>, from: nat, to: nat): (r: seq<T>)
    requires to < |slots|
    ensures |r| == |slots|
    ensures forall j | 0 <= j < |r| :: r[j] == if from <= j < to then slots[j+1] else slots[j]
  {
    seq(|slots|, j requires 0 <= j < |slots| => if from <= j < to then slots[j+1] else slots[j])
  }

  /** What rejecting the samples of a separate buffer does to the pool: the entry at each
      rejected index goes, whatever it is by then. */
  function Purged(p: PoolState, s: seq<NtpSample>, threshold: u64): (r: PoolState)
    requires p.count <= |p.slots|
    ensures r.count <= |r.slots| == |p.slots|
  {
    if s == [] then p
    else
      var r := Purged(p, s[..|s|-1], threshold);
      if s[|s|-1].delay <= threshold then r else RemoveAt(r, |s| - 1)
  }

  /** The first `i` steps of the pass over the live pool: the pool, and how many were kept. */
  function LivePass(p: PoolState, threshold: u64, i: nat): (r: (PoolState, nat))
    requires p.count <= |p.slots| && i <= |p.slots|
    ensures r.0.count <= |r.0.slots| == |p.slots| && r.1 <= i
  {
    if i == 0 then (p, 0)
    else
      var (q, kept) := LivePass(p, threshold, i - 1);
      if q.slots[i-1].delay <= threshold
      then (q.(slots := q.slots[kept := q.slots[i-1]]), kept + 1)
      else (RemoveAt(q, i - 1), kept)
  }

  /** The threshold of the filter: median plus k median absolute deviations, saturated. */
  function Cutoff(s: seq<NtpSample>, k: i32): u64
    requires s != []
  {
    var median: u64 := DelayMedian(s);
    MarxMedian.Threshold(median, Deviation(s), k)
  }

  function DelayMedian(s: seq<NtpSample>): u64
    requires s != []
  {
    LowerMedianRank(Delays(s), 0);
    LowerMedian(Delays(s))
  }

  function Deviation(s: seq<NtpSample>): u64
    requires s != []
  {
    var devs := MarxMedian.AbsDevs(Delays(s), DelayMedian(s));
    LowerMedianRank(devs, 0);
    LowerMedian(devs)
  }

  /** Where the compaction loop stands after `i` steps on buffer `input` and pool `pool`, which
      are the same array when `live`. */
  ghost predicate Progress(live: bool, input: seq<NtpSample>, pool: PoolState, threshold: u64, i: nat,
                           buf: seq<NtpSample>, now: PoolState, filtered: nat)
    requires i <= |input| && pool.count <= |pool.slots| && (live ==> input == pool.slots)
  {
    if live then
      buf == now.slots && (now, filtered) == LivePass(pool, threshold, i)
    else
      && filtered == |Kept(input[..i], threshold)|
      && buf == Kept(input[..i], threshold) + input[filtered..]
      && now == Purged(pool, input[..i], threshold)
  }

  /** One step of the loop: keeping moves the sample down, rejecting removes by index. */
  lemma ProgressStep(live: bool, input: seq<NtpSample>, pool: PoolState, threshold: u64, i: nat,
                     buf: seq<NtpSample>, now: PoolState, filtered: nat)
    requires i < |input| && pool.count <= |pool.slots| && (live ==> input == pool.slots)
    requires Progress(live, input, pool, threshold, i, buf, now, filtered)
    ensures filtered <= i < |buf| && now.count <= |now.slots|
    ensures
      if buf[i].delay <= threshold then
        var buf' := buf[filtered := buf[i]];
        Progress(live, input, pool, threshold, i + 1, buf',
                 if live then now.(slots := buf') else now, filtered + 1)
      else
        var now' := RemoveAt(now, i);
        Progress(live, input, pool, threshold, i + 1, if live then now'.slots else buf, now', filtered)
  {
    assert input[..i+1][..i] == input[..i];
  }

  class SamplePool {
    const samples: array<NtpSample>
    var count: nat

    ghost predicate Valid()
      reads this
    {
      count <= samples.Length == MAX_SAMPLES
    }

    ghost function State(): PoolState
      reads this, samples
    {
      PoolState(samples[..], count)
    }

    constructor ()
      ensures Valid() && fresh(samples) && count == 0
    {
      samples := new NtpSample[MAX_SAMPLES](_ => NtpSample(0, 0, 0));
      count := 0;
    }

    /** Appends a sample behind the live part; a pool of 64 drops it. */
    method AddSample(tsNs: u64, delayUs: u64, offsetUs: i64)
      requires Valid()
      modifies this`count, samples
      ensures Valid()
      ensures State() == WithSample(old(State()), NtpSample(tsNs, delayUs, offsetUs))
      ensures old(count) == 64 ==> count == 64 && samples[..] == old(samples[..])
      ensures old(count) < 64 ==>
        && count == old(count) + 1
        && samples[..count] == old(samples[..count]) + [NtpSample(tsNs, delayUs, offsetUs)]
    {
      if count >= MAX_SAMPLES {
        return;
      }
      samples[count] := NtpSample(tsNs, delayUs, offsetUs);
      count := count + 1;
    }

    method RemoveSample(index: int)
      requires Valid()
      modifies this`count, samples
      ensures Valid()
      ensures State() == RemoveAt(old(State()), index)
    {
      if index >= 0 && index < count {
        forall i | index <= i < count - 1 {
          samples[i] := samples[i + 1];
        }
        count := count - 1;
      }
    }

    /** Filters the first `n` samples of `buf` in place and returns how many are left.  With
        fewer than three samples nothing happens.  On a separate buffer exactly the samples
        within the cutoff are left, in order; on the pool itself the result is that of the
        live pass. */
    method FilterOutliers(buf: array<NtpSample>, n: int, k: i32) returns (r: int)
      requires Valid() && n <= buf.Length
      modifies this`count, samples, buf
      ensures Valid()
      ensures n < 3 ==> r == n && buf[..] == old(buf[..]) && State() == old(State())
      ensures 3 <= n && buf != samples ==>
        var input := old(buf[..])[..Min(n, 64)];
        && r == |Kept(input, Cutoff(input, k))|
        && buf[..] == Kept(input, Cutoff(input, k)) + old(buf[..])[r..]
        && State() == Purged(old(State()), input, Cutoff(input, k))
      ensures 3 <= n && buf == samples ==>
        var input := old(buf[..])[..n];
        (State(), r) == LivePass(old(State()), Cutoff(input, k), n)
    {
      if n < 3 {
        return n;
      }
      var m := if n > MAX_SAMPLES then MAX_SAMPLES else n;
      var threshold := ComputeCutoff(buf, m, k);
      var filtered := Compact(buf, m, threshold);
      return if filtered < m then filtered else m;
    }

    /** The second half of the filter: the compaction loop. */
    method Compact(buf: array<NtpSample>, m: nat, threshold: u64) returns (filtered: nat)
      requires Valid() && m <= buf.Length && m <= MAX_SAMPLES
      modifies this`count, samples, buf
      ensures Valid() && filtered <= m
      ensures Progress(buf == samples, old(buf[..]), old(State()), threshold, m, buf[..], State(), filtered)
    {
      filtered := 0;
      ghost var live := buf == samples;
      ghost var input, pool := buf[..], State();
      for i := 0 to m
        invariant filtered <= i && Valid()
        invariant Progress(live, input, pool, threshold, i, buf[..], State(), filtered)
      {
        ProgressStep(live, input, pool, threshold, i, buf[..], State(), filtered);
        filtered := KeepOrRemove(buf, i, threshold, filtered);
      }
    }

    /** One step of the loop: a sample within the threshold moves down, an outlier is removed from
        the pool by its index. */
    method KeepOrRemove(buf: array<NtpSample>, i: nat, threshold: u64, filtered: nat) returns (next: nat)
      requires Valid() && filtered <= i < buf.Length
      modifies this`count, samples, buf
      ensures Valid()
      ensures
        var x, before, pool := old(buf[i]), old(buf[..]), old(State());
        if x.delay <= threshold then
          && next == filtered + 1 && buf[..] == before[filtered := x]
          && State() == if buf == samples then pool.(slots := before[filtered := x]) else pool
        else
          && next == filtered && State() == RemoveAt(pool, i)
          && buf[..] == if buf == samples then RemoveAt(pool, i).slots else before
    {
      if buf[i].delay <= threshold {
        if filtered != i {
          buf[filtered] := buf[i];
        }
        next := filtered + 1;
      } else {
        RemoveSample(i);
        next := filtered;
      }
    }

    /** The first half of the filter: median, deviations and the saturated threshold. */
    method ComputeCutoff(buf: array<NtpSample>, m: int, k: i32) returns (threshold: u64)
      requires 0 < m <= MAX_SAMPLES && m <= buf.Length
      ensures threshold == Cutoff(buf[..][..m], k)
    {
      ghost var delaySeq := Delays(buf[..][..m]);
      var delays := new u64[MAX_SAMPLES](_ => 0);
      for i := 0 to m
        invariant forall j | 0 <= j < i :: delays[j] == delaySeq[j]
      {
        delays[i] := buf[i].delay;
      }
      assert delays[..][..m] == delaySeq;
      var median := MarxMedian.Median(delays, m);
      var mad := MedianDeviation(buf, m, median);
      threshold := MarxMedian.Threshold(median, mad, k);
    }

    method MedianDeviation(buf: array<NtpSample>, m: int, median: u64) returns (mad: u64)
      requires 0 < m <= MAX_SAMPLES && m <= buf.Length
      ensures mad == LowerMedian(MarxMedian.AbsDevs(Delays(buf[..][..m]), median))
    {
      ghost var devs := MarxMedian.AbsDevs(Delays(buf[..][..m]), median);
      var absDevs := new u64[MAX_SAMPLES](_ => 0);
      for i := 0 to m
        invariant forall j | 0 <= j < i :: absDevs[j] == devs[j]
      {
        absDevs[i] := if buf[i].delay > median then buf[i].delay - median else median - buf[i].delay;
      }
      assert absDevs[..][..m] == devs;
      mad := MarxMedian.Median(absDevs, m);
    }
  }

  function WithSample(p: PoolState, s: NtpSample): (r: PoolState)
    requires p.count <= |p.slots|
    ensures r.count <= |r.slots| == |p.slots|
  {
    if p.count == |p.slots| then p else PoolState(p.slots[p.count := s], p.count + 1)
  }
}
