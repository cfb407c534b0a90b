/** Exactly when filtering the live pool in place gives what filtering a copy would give.  Every
    rejection shifts the tail under the running index, so the sample behind an outlier is never
    examined, and copies of the last sample appear behind the live part.  The pass looks at
    delays only, so it is followed here on positions: a slot is described by the index, in the
    pool before the call, of the sample it holds.  Samples with equal fields stay apart. */
module LiveFilter {
  import opened Words
  import opened MarxFilter
  import opened FilterTheorems
  import opened OrderStatistics
  import MarxMedian

  // ---------- the pass on positions ----------

  /** Where the sample of each slot came from, the live count, and how many were kept. */
  datatype Trace = Trace(slots: seq<nat>, count: nat, kept: nat) {
    /** A state before step `i` of the pass over `n` samples. */
    ghost predicate Fits(n: nat, i: nat) {
      && |slots| == n && count <= n && kept <= i <= n
      && forall j | 0 <= j < n :: slots[j] < n
    }

    /** How many samples were removed. */
    ghost function Removed(): int {
      |slots| - count
    }
  }

  predicate Outlier(s: seq<NtpSample>, i: nat, threshold: u64)
    requires i < |s|
  {
    s[i].delay > threshold
  }

  /** One step: a good sample moves down to the kept ones; an outlier in the live part is
      removed. */
  function Step(s: seq<NtpSample>, threshold: u64, t: Trace, i: nat): (r: Trace)
    requires i < |s| && t.Fits(|s|, i)
    ensures r.Fits(|s|, i + 1)
  {
    if !Outlier(s, t.slots[i], threshold) then Trace(t.slots[t.kept := t.slots[i]], t.count, t.kept + 1)
    else if i < t.count then Trace(ShiftedDown(t.slots, i, t.count - 1), t.count - 1, t.kept)
    else t
  }

  /** The first `i` steps of the pass over the samples `s`. */
  function After(s: seq<NtpSample>, threshold: u64, i: nat): (t: Trace)
    requires i <= |s|
    ensures t.Fits(|s|, i)
  {
    if i == 0 then Trace(seq(|s|, j requires 0 <= j < |s| => j), |s|, 0)
    else Step(s, threshold, After(s, threshold, i - 1), i - 1)
  }

  lemma Start(s: seq<NtpSample>, threshold: u64)
    ensures After(s, threshold, 0) == Trace(seq(|s|, j requires 0 <= j < |s| => j), |s|, 0)
  {
  }

  lemma NextStep(s: seq<NtpSample>, threshold: u64, i: nat)
    requires i < |s|
    ensures After(s, threshold, i + 1) == Step(s, threshold, After(s, threshold, i), i)
  {
  }

  /** The slots of the pool hold the samples the trace names. */
  ghost predicate Image(s: seq<NtpSample>, q: PoolState, kept: nat, t: Trace, i: nat) {
    && t.Fits(|s|, i) && |s| <= |q.slots|
    && q.count == t.count && kept == t.kept
    && forall j | 0 <= j < |s| :: q.slots[j] == s[t.slots[j]]
  }

  lemma ImageKeep(s: seq<NtpSample>, threshold: u64, q: PoolState, kept: nat, t: Trace, i: nat)
    requires i < |s| && Image(s, q, kept, t, i) && q.slots[i].delay <= threshold
    ensures Image(s, q.(slots := q.slots[kept := q.slots[i]]), kept + 1, Step(s, threshold, t, i), i + 1)
  {
  }

  lemma ImageRemove(s: seq<NtpSample>, threshold: u64, q: PoolState, kept: nat, t: Trace, i: nat)
    requires i < |s| && Image(s, q, kept, t, i) && q.slots[i].delay > threshold
    ensures Image(s, RemoveAt(q, i), kept, Step(s, threshold, t, i), i + 1)
  {
  }

  /** The pass over the pool does, slot by slot, what the trace says. */
  lemma {:induction false} TraceIsPass(p: PoolState, threshold: u64, i: nat)
    requires i <= p.count <= |p.slots|
    ensures var (q, kept) := LivePass(p, threshold, i);
      Image(Live(p), q, kept, After(Live(p), threshold, i), i)
  {
    hide After, Step, LivePass, RemoveAt;
    var s := Live(p);
    if i == 0 {
      PassStarts(p, threshold);
    } else {
      NextStep(s, threshold, i - 1);
      NextPass(p, threshold, i - 1);
      TraceIsPass(p, threshold, i - 1);
      var (q, kept) := LivePass(p, threshold, i - 1);
      if q.slots[i-1].delay <= threshold {
        ImageKeep(s, threshold, q, kept, After(s, threshold, i - 1), i - 1);
      } else {
        ImageRemove(s, threshold, q, kept, After(s, threshold, i - 1), i - 1);
      }
    }
  }

  lemma PassStarts(p: PoolState, threshold: u64)
    requires p.count <= |p.slots|
    ensures var (q, kept) := LivePass(p, threshold, 0);
      Image(Live(p), q, kept, After(Live(p), threshold, 0), 0)
  {
    assert forall j | 0 <= j < p.count :: p.slots[j] == Live(p)[j];
  }

  // ---------- the state of the pass ----------

  /** Before step `i`: the slots ahead hold the rest of the pool, shifted by the number of removals,
      then copies of the last sample; the slots behind hold samples that came before that. */
  ghost predicate Shifted(n: nat, t: Trace, i: nat) {
    && t.Fits(n, i)
    && (forall j | i <= j < n :: t.slots[j] == Min(j + t.Removed(), n - 1))
    && (forall j | 0 <= j < i :: t.slots[j] < i + t.Removed())
  }

  /** A good sample that has not been reached yet is kept. */
  lemma KeepStep(s: seq<NtpSample>, threshold: u64, t: Trace, i: nat)
    requires i < |s| && Shifted(|s|, t, i)
    requires !Outlier(s, Min(i + t.Removed(), |s| - 1), threshold)
    ensures var at := Min(i + t.Removed(), |s| - 1);
      Step(s, threshold, t, i) == Trace(t.slots[t.kept := at], t.count, t.kept + 1)
    ensures Shifted(|s|, Step(s, threshold, t, i), i + 1)
  {
  }

  /** An outlier that has not been reached yet is removed; the sample behind it takes its slot. */
  lemma RemoveStep(s: seq<NtpSample>, threshold: u64, t: Trace, i: nat)
    requires i + t.Removed() < |s| && Shifted(|s|, t, i) && Outlier(s, i + t.Removed(), threshold)
    ensures var r := Step(s, threshold, t, i);
      && r.count == t.count - 1 && r.kept == t.kept
      && (forall j | 0 <= j < i :: r.slots[j] == t.slots[j])
      && r.slots[i] == Min(i + t.Removed() + 1, |s| - 1)
    ensures Shifted(|s|, Step(s, threshold, t, i), i + 1)
  {
  }

  /** Copies of an outlier are passed over. */
  lemma StaleStep(s: seq<NtpSample>, threshold: u64, t: Trace, i: nat)
    requires i < |s| <= i + t.Removed() && Shifted(|s|, t, i) && Outlier(s, |s| - 1, threshold)
    ensures Step(s, threshold, t, i) == t && Shifted(|s|, t, i + 1)
  {
  }

  lemma StepShifted(s: seq<NtpSample>, threshold: u64, t: Trace, i: nat)
    requires i < |s| && Shifted(|s|, t, i)
    ensures Shifted(|s|, Step(s, threshold, t, i), i + 1)
  {
    hide Step;
    var at := i + t.Removed();
    if !Outlier(s, Min(at, |s| - 1), threshold) {
      KeepStep(s, threshold, t, i);
    } else if at < |s| {
      RemoveStep(s, threshold, t, i);
    } else {
      StaleStep(s, threshold, t, i);
    }
  }

  lemma {:induction false} AlwaysShifted(s: seq<NtpSample>, threshold: u64, i: nat)
    requires i <= |s|
    ensures Shifted(|s|, After(s, threshold, i), i)
  {
    hide After, Step;
    if i == 0 {
      Start(s, threshold);
    } else {
      NextStep(s, threshold, i - 1);
      AlwaysShifted(s, threshold, i - 1);
      StepShifted(s, threshold, After(s, threshold, i - 1), i - 1);
    }
  }

  /** What has been kept stays. */
  lemma {:induction false} KeptStays(s: seq<NtpSample>, threshold: u64, i: nat, k: nat)
    requires i <= k <= |s|
    ensures var t, r := After(s, threshold, i), After(s, threshold, k);
      && t.kept <= r.kept && r.count <= t.count
      && forall j | 0 <= j < t.kept :: r.slots[j] == t.slots[j]
    decreases k
  {
    hide After;
    if i < k {
      NextStep(s, threshold, k - 1);
      KeptStays(s, threshold, i, k - 1);
    }
  }

  /** Once the live part is exhausted only copies of the last sample are examined: each is kept
      if it is within the threshold, and nothing changes otherwise. */
  lemma {:induction false} StaleCopies(s: seq<NtpSample>, threshold: u64, i: nat, k: nat)
    requires i <= k <= |s| <= i + After(s, threshold, i).Removed() && s != []
    ensures var t, r := After(s, threshold, i), After(s, threshold, k);
      && r.count == t.count
      && (Outlier(s, |s| - 1, threshold) ==> r == t)
      && (!Outlier(s, |s| - 1, threshold) ==>
            r.kept == t.kept + (k - i) && forall j | t.kept <= j < r.kept :: r.slots[j] == |s| - 1)
    decreases k
  {
    hide After, Step;
    if i < k {
      NextStep(s, threshold, k - 1);
      StaleCopies(s, threshold, i, k - 1);
      AlwaysShifted(s, threshold, k - 1);
      var t := After(s, threshold, k - 1);
      if Outlier(s, |s| - 1, threshold) {
        StaleStep(s, threshold, t, k - 1);
      } else {
        KeepStep(s, threshold, t, k - 1);
      }
    }
  }

  // ---------- the indices that should be kept ----------

  lemma IndicesOfLonger(s: seq<NtpSample>, i: nat, threshold: u64)
    requires i < |s|
    ensures KeptIndices(s[..i+1], threshold) ==
      if Outlier(s, i, threshold) then KeptIndices(s[..i], threshold) else KeptIndices(s[..i], threshold) + [i]
  {
    assert s[..i+1][..i] == s[..i];
  }

  lemma {:induction false} IndicesGrow(s: seq<NtpSample>, i: nat, threshold: u64)
    requires i <= |s|
    ensures KeptIndices(s[..i], threshold) <= KeptIndices(s, threshold)
    decreases |s| - i
  {
    if i < |s| {
      IndicesOfLonger(s, i, threshold);
      IndicesGrow(s, i + 1, threshold);
    } else {
      assert s[..i] == s;
    }
  }

  lemma Whole(s: seq<NtpSample>)
    ensures s[..|s|] == s
  {
  }

  // ---------- a skipped sample is lost ----------

  /** The kept samples are `first`, then samples from position `lo` on; so are the slots ahead. */
  ghost predicate Beyond(t: Trace, i: nat, first: seq<nat>, lo: nat) {
    && |first| <= t.kept <= i <= |t.slots|
    && (forall j | 0 <= j < |first| :: t.slots[j] == first[j])
    && (forall j | |first| <= j < t.kept :: t.slots[j] >= lo)
    && (forall j | i <= j < |t.slots| :: t.slots[j] >= lo)
  }

  lemma {:induction false} StaysBeyond(s: seq<NtpSample>, threshold: u64, i: nat, k: nat, first: seq<nat>, lo: nat)
    requires i <= k <= |s| && Beyond(After(s, threshold, i), i, first, lo)
    ensures Beyond(After(s, threshold, k), k, first, lo)
    decreases k
  {
    hide After;
    if i < k {
      NextStep(s, threshold, k - 1);
      StaysBeyond(s, threshold, i, k - 1, first, lo);
    }
  }

  /** Whenever the pass examines an outlier at position `b`, with at least two samples behind it,
      the next sample is never kept, however good it is. */
  lemma SkippedIsLost(s: seq<NtpSample>, threshold: u64, i: nat, b: nat)
    requires i < |s| && b + 2 < |s|
    requires i < After(s, threshold, i).count && After(s, threshold, i).slots[i] == b && Outlier(s, b, threshold)
    ensures var f := After(s, threshold, |s|);
      b + 1 !in f.slots[..f.kept]
  {
    hide After, Step;
    NextStep(s, threshold, i);
    AlwaysShifted(s, threshold, i);
    var t := After(s, threshold, i);
    RemoveStep(s, threshold, t, i);
    StaysBeyond(s, threshold, i + 1, |s|, t.slots[..t.kept], b + 2);
  }

  // ---------- the prefix that is returned ----------

  /** The pass ends with exactly the good samples kept, in order. */
  predicate PrefixExact(s: seq<NtpSample>, threshold: u64) {
    var f := After(s, threshold, |s|);
    f.slots[..f.kept] == KeptIndices(s, threshold)
  }

  /** From position `at` on, outliers come in adjacent pairs, except that the last sample, which
      must be an outlier, may stand alone. */
  predicate Paired(s: seq<NtpSample>, at: nat, threshold: u64)
    requires at <= |s| && s != []
    decreases |s| - at
  {
    if at == |s| then Outlier(s, |s| - 1, threshold)
    else if !Outlier(s, at, threshold) then Paired(s, at + 1, threshold)
    else if at + 1 == |s| then true
    else Outlier(s, at + 1, threshold) && Paired(s, at + 2, threshold)
  }

  /** The position of the first outlier; the length when there is none. */
  function FirstOutlier(s: seq<NtpSample>, from: nat, threshold: u64): (j: nat)
    requires from <= |s|
    ensures from <= j <= |s|
    ensures j < |s| ==> Outlier(s, j, threshold)
    ensures forall i | from <= i < j :: !Outlier(s, i, threshold)
    decreases |s| - from
  {
    if from == |s| || Outlier(s, from, threshold) then from else FirstOutlier(s, from + 1, threshold)
  }

  /** Before step `i`, nothing has been lost or repeated among the samples reached so far. */
  ghost predicate Aligned(s: seq<NtpSample>, threshold: u64, i: nat, at: nat)
    requires i <= |s|
  {
    var t := After(s, threshold, i);
    at == i + t.Removed() <= |s| && t.slots[..t.kept] == KeptIndices(s[..at], threshold)
  }

  lemma AlignedKeep(s: seq<NtpSample>, threshold: u64, i: nat, at: nat)
    requires i < |s| && at < |s| && Aligned(s, threshold, i, at) && !Outlier(s, at, threshold)
    ensures Aligned(s, threshold, i + 1, at + 1)
  {
    hide After, Step;
    NextStep(s, threshold, i);
    AlwaysShifted(s, threshold, i);
    KeepStep(s, threshold, After(s, threshold, i), i);
    IndicesOfLonger(s, at, threshold);
  }

  /** Removing an outlier loses nothing that was kept. */
  lemma AlignedRemove(s: seq<NtpSample>, threshold: u64, i: nat, at: nat)
    requires i < |s| && at < |s| && Aligned(s, threshold, i, at) && Outlier(s, at, threshold)
    ensures var t := After(s, threshold, i + 1);
      && t.Removed() == at + 1 - i
      && t.slots[..t.kept] == KeptIndices(s[..at+1], threshold)
  {
    hide After, Step;
    NextStep(s, threshold, i);
    AlwaysShifted(s, threshold, i);
    var t := After(s, threshold, i);
    RemoveStep(s, threshold, t, i);
    IndicesOfLonger(s, at, threshold);
    assert After(s, threshold, i + 1).slots[..t.kept] == t.slots[..t.kept];
  }

  lemma AlignedPair(s: seq<NtpSample>, threshold: u64, i: nat, at: nat)
    requires i < |s| && at + 1 < |s| && Aligned(s, threshold, i, at)
    requires Outlier(s, at, threshold) && Outlier(s, at + 1, threshold)
    ensures Aligned(s, threshold, i + 1, at + 2)
  {
    hide After, Step;
    AlignedRemove(s, threshold, i, at);
    IndicesOfLonger(s, at + 1, threshold);
  }

  /** The pass has reached the end of the live part without loss: the prefix is exact when no
      stale copy will be kept. */
  lemma ExhaustedPrefix(s: seq<NtpSample>, threshold: u64, i: nat)
    requires i <= |s| && s != [] && Aligned(s, threshold, i, |s|)
    ensures PrefixExact(s, threshold) <==> i == |s| || Outlier(s, |s| - 1, threshold)
  {
    hide After, Step;
    StaleCopies(s, threshold, i, |s|);
    Whole(s);
  }

  lemma LastOutlierPrefix(s: seq<NtpSample>, threshold: u64, i: nat, at: nat)
    requires i < |s| && at + 1 == |s| && Aligned(s, threshold, i, at) && Outlier(s, at, threshold)
    ensures PrefixExact(s, threshold)
  {
    hide After, Step;
    AlignedRemove(s, threshold, i, at);
    StaleCopies(s, threshold, i + 1, |s|);
    Whole(s);
  }

  /** An outlier in front of a good last sample: that sample is skipped, and its copies, one for
      each removal, are kept instead. */
  lemma SkippedLastPrefix(s: seq<NtpSample>, threshold: u64, i: nat, at: nat)
    requires i < |s| && at + 2 == |s| && Aligned(s, threshold, i, at)
    requires Outlier(s, at, threshold) && !Outlier(s, at + 1, threshold)
    ensures PrefixExact(s, threshold) <==> i == at
  {
    hide After, Step;
    AlignedRemove(s, threshold, i, at);
    SkippedLastCopies(s, threshold, i + 1);
  }

  lemma SkippedLastCopies(s: seq<NtpSample>, threshold: u64, i: nat)
    requires i <= |s| && s != [] && i + After(s, threshold, i).Removed() == |s| && !Outlier(s, |s| - 1, threshold)
    requires var t := After(s, threshold, i);
      t.slots[..t.kept] == KeptIndices(s[..|s|-1], threshold)
    ensures PrefixExact(s, threshold) <==> i + 1 == |s|
  {
    hide After, Step;
    StaleCopies(s, threshold, i, |s|);
    KeptStays(s, threshold, i, |s|);
    CopiesBehind(s, threshold, After(s, threshold, i), After(s, threshold, |s|), |s| - i);
  }

  /** The good samples but the last, followed by `c` copies of the last. */
  lemma CopiesBehind(s: seq<NtpSample>, threshold: u64, t: Trace, f: Trace, c: nat)
    requires s != [] && !Outlier(s, |s| - 1, threshold)
    requires t.kept <= |t.slots| && t.slots[..t.kept] == KeptIndices(s[..|s|-1], threshold)
    requires f.kept == t.kept + c <= |f.slots|
    requires forall j | 0 <= j < t.kept :: f.slots[j] == t.slots[j]
    requires forall j | t.kept <= j < f.kept :: f.slots[j] == |s| - 1
    ensures f.slots[..f.kept] == KeptIndices(s, threshold) <==> c == 1
  {
    assert KeptIndices(s, threshold) == t.slots[..t.kept] + [|s| - 1];
  }

  lemma SkippedPrefix(s: seq<NtpSample>, threshold: u64, i: nat, at: nat)
    requires i < |s| && at + 2 < |s| && Aligned(s, threshold, i, at)
    requires Outlier(s, at, threshold) && !Outlier(s, at + 1, threshold)
    ensures !PrefixExact(s, threshold)
  {
    hide After, Step;
    AlwaysShifted(s, threshold, i);
    SkippedIsLost(s, threshold, i, at);
    KeptIsStable(s, threshold);
    assert at + 1 in KeptIndices(s, threshold);
  }

  /** After at least one removal, the prefix is exact when the outliers ahead are paired. */
  lemma {:induction false} PairedPrefix(s: seq<NtpSample>, threshold: u64, i: nat, at: nat)
    requires s != [] && i < at <= |s| && Aligned(s, threshold, i, at)
    ensures PrefixExact(s, threshold) <==> Paired(s, at, threshold)
    decreases |s| - i
  {
    hide After, Step;
    if at == |s| {
      ExhaustedPrefix(s, threshold, i);
    } else if !Outlier(s, at, threshold) {
      AlignedKeep(s, threshold, i, at);
      PairedPrefix(s, threshold, i + 1, at + 1);
    } else if at + 1 == |s| {
      LastOutlierPrefix(s, threshold, i, at);
    } else if Outlier(s, at + 1, threshold) {
      AlignedPair(s, threshold, i, at);
      PairedPrefix(s, threshold, i + 1, at + 2);
    } else if at + 2 == |s| {
      SkippedLastPrefix(s, threshold, i, at);
    } else {
      SkippedPrefix(s, threshold, i, at);
    }
  }

  lemma {:induction false} CleanStart(s: seq<NtpSample>, threshold: u64, i: nat)
    requires i <= FirstOutlier(s, 0, threshold)
    ensures Aligned(s, threshold, i, i) && After(s, threshold, i).kept == i
  {
    hide After, Step;
    if i == 0 {
      Start(s, threshold);
    } else {
      NextStep(s, threshold, i - 1);
      CleanStart(s, threshold, i - 1);
      AlwaysShifted(s, threshold, i - 1);
      AlignedKeep(s, threshold, i - 1, i - 1);
      KeepStep(s, threshold, After(s, threshold, i - 1), i - 1);
    }
  }

  lemma PrefixCondition(s: seq<NtpSample>, threshold: u64)
    requires s != []
    ensures var j := FirstOutlier(s, 0, threshold);
      PrefixExact(s, threshold) <==> j + 2 >= |s| || Paired(s, j, threshold)
  {
    hide After, Step;
    var j := FirstOutlier(s, 0, threshold);
    CleanStart(s, threshold, j);
    if j == |s| {
      ExhaustedPrefix(s, threshold, j);
    } else if j + 1 == |s| {
      LastOutlierPrefix(s, threshold, j, j);
    } else if Outlier(s, j + 1, threshold) {
      AlignedPair(s, threshold, j, j);
      PairedPrefix(s, threshold, j + 1, j + 2);
    } else if j + 2 == |s| {
      SkippedLastPrefix(s, threshold, j, j);
    } else {
      SkippedPrefix(s, threshold, j, j);
    }
  }

  // ---------- the pool that is left ----------

  /** The pass ends with exactly the good samples in the live part of the pool, in order. */
  predicate PoolExact(s: seq<NtpSample>, threshold: u64) {
    var f := After(s, threshold, |s|);
    f.slots[..f.count] == KeptIndices(s, threshold)
  }

  /** From position `at` on, every other sample is an outlier, the last one included. */
  predicate Alternates(s: seq<NtpSample>, at: nat, threshold: u64)
    requires at <= |s|
    decreases |s| - at
  {
    && at < |s| && Outlier(s, at, threshold)
    && (at + 1 == |s| || (!Outlier(s, at + 1, threshold) && Alternates(s, at + 2, threshold)))
  }

  /** How many of the first `at` samples are good. */
  function GoodBefore(s: seq<NtpSample>, at: nat, threshold: u64): nat
    requires at <= |s|
  {
    |KeptIndices(s[..at], threshold)|
  }

  lemma GoodOfLonger(s: seq<NtpSample>, at: nat, threshold: u64)
    requires at < |s|
    ensures GoodBefore(s, at + 1, threshold) == GoodBefore(s, at, threshold) + (if Outlier(s, at, threshold) then 0 else 1)
  {
    IndicesOfLonger(s, at, threshold);
  }

  /** Every outlier is removed at most once, and only when it is reached: if the steps so far left
      `x` slots more than there were good samples, the end does too. */
  lemma {:induction false} CountAtLeast(s: seq<NtpSample>, threshold: u64, i: nat, at: nat)
    requires i <= |s| && s != [] && at == i + After(s, threshold, i).Removed() <= |s|
    ensures After(s, threshold, |s|).count - GoodBefore(s, |s|, threshold) >= i - GoodBefore(s, at, threshold)
    decreases |s| - i
  {
    hide After, Step;
    AlwaysShifted(s, threshold, i);
    var t := After(s, threshold, i);
    if at == |s| {
      StaleCopies(s, threshold, i, |s|);
    } else {
      NextStep(s, threshold, i);
      GoodOfLonger(s, at, threshold);
      if !Outlier(s, at, threshold) {
        KeepStep(s, threshold, t, i);
        CountAtLeast(s, threshold, i + 1, at + 1);
      } else {
        RemoveStep(s, threshold, t, i);
        if at + 1 == |s| {
          StaleCopies(s, threshold, i + 1, |s|);
        } else {
          GoodOfLonger(s, at + 1, threshold);
          CountAtLeast(s, threshold, i + 1, at + 2);
        }
      }
    }
  }

  /** However many samples are lost, the pool is left with at least as many slots as there were
      good samples. */
  lemma PoolKeepsCount(s: seq<NtpSample>, threshold: u64)
    requires s != []
    ensures After(s, threshold, |s|).count >= |KeptIndices(s, threshold)|
  {
    CountAtLeast(s, threshold, 0, 0);
    Whole(s);
  }

  /** Before step `i` the slots behind hold exactly the good ones of the first `at` samples, and
      only the first `j` of them have been kept. */
  ghost predicate InPlace(s: seq<NtpSample>, threshold: u64, i: nat, at: nat, j: nat)
    requires i <= |s|
  {
    var t := After(s, threshold, i);
    && at == i + t.Removed() <= |s| && t.kept == j
    && t.slots[..i] == KeptIndices(s[..at], threshold)
  }

  /** An outlier with a good sample behind it: that sample drops into place. */
  lemma InPlaceSkip(s: seq<NtpSample>, threshold: u64, i: nat, at: nat, j: nat)
    requires i < |s| && at + 1 < |s| && InPlace(s, threshold, i, at, j)
    requires Outlier(s, at, threshold) && !Outlier(s, at + 1, threshold)
    ensures InPlace(s, threshold, i + 1, at + 2, j) && After(s, threshold, i + 1).slots[i] == at + 1
    ensures forall m | 0 <= m < i :: After(s, threshold, i + 1).slots[m] == After(s, threshold, i).slots[m]
  {
    hide After, Step;
    NextStep(s, threshold, i);
    AlwaysShifted(s, threshold, i);
    var t := After(s, threshold, i);
    RemoveStep(s, threshold, t, i);
    IndicesOfLonger(s, at, threshold);
    IndicesOfLonger(s, at + 1, threshold);
    assert After(s, threshold, i + 1).slots[..i+1] == t.slots[..i] + [at + 1];
  }

  /** A lone outlier at the very end. */
  lemma InPlaceLast(s: seq<NtpSample>, threshold: u64, i: nat, at: nat, j: nat)
    requires i < |s| && at + 1 == |s| && InPlace(s, threshold, i, at, j) && Outlier(s, at, threshold)
    ensures PoolExact(s, threshold)
  {
    hide After, Step;
    NextStep(s, threshold, i);
    AlwaysShifted(s, threshold, i);
    var t := After(s, threshold, i);
    RemoveStep(s, threshold, t, i);
    StaleCopies(s, threshold, i + 1, |s|);
    IndicesOfLonger(s, at, threshold);
    Whole(s);
    assert After(s, threshold, |s|).slots[..i] == t.slots[..i];
  }

  /** Of two outliers in a row the second is skipped, and one slot too many is left. */
  lemma SecondStays(s: seq<NtpSample>, threshold: u64, i: nat, at: nat, j: nat)
    requires i < |s| && at + 1 < |s| && InPlace(s, threshold, i, at, j)
    requires Outlier(s, at, threshold) && Outlier(s, at + 1, threshold)
    ensures !PoolExact(s, threshold)
  {
    hide After, Step;
    NextStep(s, threshold, i);
    AlwaysShifted(s, threshold, i);
    RemoveStep(s, threshold, After(s, threshold, i), i);
    IndicesOfLonger(s, at, threshold);
    IndicesOfLonger(s, at + 1, threshold);
    CountAtLeast(s, threshold, i + 1, at + 2);
    Whole(s);
  }

  /** A sample kept in slot `j` stays there, and the slot should hold what it held before. */
  lemma Overwritten(s: seq<NtpSample>, threshold: u64, i: nat, at: nat, j: nat, k: nat)
    requires j < i < k <= |s| && InPlace(s, threshold, i, at, j)
    requires After(s, threshold, k).kept > j
    requires After(s, threshold, k).slots[j] != After(s, threshold, i).slots[j]
    ensures !PoolExact(s, threshold)
  {
    hide After, Step;
    KeptStays(s, threshold, k, |s|);
    IndicesGrow(s, at, threshold);
    var t, f := After(s, threshold, i), After(s, threshold, |s|);
    assert KeptIndices(s, threshold)[j] == t.slots[..i][j];
    assert f.slots[j] != t.slots[j];
  }

  /** A good sample met after a removal is kept over the one that dropped into place. */
  lemma GoodOverwrites(s: seq<NtpSample>, threshold: u64, i: nat, at: nat, j: nat)
    requires j < i < |s| && at < |s| && InPlace(s, threshold, i, at, j) && !Outlier(s, at, threshold)
    ensures !PoolExact(s, threshold)
  {
    hide After, Step;
    NextStep(s, threshold, i);
    AlwaysShifted(s, threshold, i);
    KeepStep(s, threshold, After(s, threshold, i), i);
    Overwritten(s, threshold, i, at, j, i + 1);
  }

  /** All samples have been reached, and the last one is good: its copies are kept from slot `j`
      on, which is harmless only if it is that sample's own slot. */
  lemma CopiesOverwrite(s: seq<NtpSample>, threshold: u64, i: nat, j: nat)
    requires j < i < |s| && InPlace(s, threshold, i, |s|, j)
    requires !Outlier(s, |s| - 1, threshold) && After(s, threshold, i).slots[j] == j + 1
    ensures PoolExact(s, threshold) <==> j + 2 == |s|
  {
    hide After, Step;
    AlwaysShifted(s, threshold, i);
    StaleCopies(s, threshold, i, |s|);
    KeptStays(s, threshold, i, |s|);
    Whole(s);
    var t, f := After(s, threshold, i), After(s, threshold, |s|);
    if j + 2 == |s| {
      assert f.slots[..i] == t.slots[..i];
    } else {
      Overwritten(s, threshold, i, |s|, j, |s|);
    }
  }

  /** After the first outlier, at position `j`, and the good sample behind it. */
  lemma {:induction false} AlternatesPool(s: seq<NtpSample>, threshold: u64, i: nat, at: nat, j: nat)
    requires j < i < |s| && InPlace(s, threshold, i, at, j) && !Outlier(s, at - 1, threshold)
    requires After(s, threshold, i).slots[j] == j + 1
    ensures PoolExact(s, threshold) <==> (if at == |s| then j + 2 == |s| else Alternates(s, at, threshold))
    decreases |s| - i
  {
    hide After, Step;
    if at == |s| {
      CopiesOverwrite(s, threshold, i, j);
    } else if !Outlier(s, at, threshold) {
      GoodOverwrites(s, threshold, i, at, j);
    } else if at + 1 == |s| {
      InPlaceLast(s, threshold, i, at, j);
    } else if Outlier(s, at + 1, threshold) {
      SecondStays(s, threshold, i, at, j);
    } else {
      InPlaceSkip(s, threshold, i, at, j);
      AlternatesPool(s, threshold, i + 1, at + 2, j);
    }
  }

  lemma PoolCondition(s: seq<NtpSample>, threshold: u64)
    requires s != []
    ensures var j, n := FirstOutlier(s, 0, threshold), |s|;
      PoolExact(s, threshold) <==>
        || j == n
        || (j + 2 == n && !Outlier(s, n - 1, threshold))
        || Alternates(s, j, threshold)
  {
    hide After, Step;
    var j := FirstOutlier(s, 0, threshold);
    CleanStart(s, threshold, j);
    if j == |s| {
      Whole(s);
    } else if j + 1 == |s| {
      InPlaceLast(s, threshold, j, j, j);
    } else if Outlier(s, j + 1, threshold) {
      SecondStays(s, threshold, j, j, j);
    } else {
      InPlaceSkip(s, threshold, j, j, j);
      AlternatesPool(s, threshold, j + 1, j + 2, j);
    }
  }

  // ---------- the result in closed form ----------

  /** The positions the pass examines from position `at` on: the next one behind a good sample, the
      next but one behind an outlier. */
  function Visited(s: seq<NtpSample>, at: nat, threshold: u64): (v: seq<nat>)
    ensures forall j | 0 <= j < |v| :: v[j] < |s|
    decreases Max(0, |s| - at)
  {
    if at >= |s| then []
    else [at] + Visited(s, if Outlier(s, at, threshold) then at + 2 else at + 1, threshold)
  }

  /** The good ones among the given positions, in order. */
  function GoodOnes(s: seq<NtpSample>, v: seq<nat>, threshold: u64): (r: seq<nat>)
    requires forall j | 0 <= j < |v| :: v[j] < |s|
    ensures |r| <= |v|
  {
    if v == [] then []
    else
      var r, x := GoodOnes(s, v[..|v|-1], threshold), v[|v|-1];
      if Outlier(s, x, threshold) then r else r + [x]
  }

  /** What examining position `x` leaves in its slot until a kept sample overwrites it: the sample
      itself, or the one that drops into place behind an outlier. */
  function LeftBy(s: seq<NtpSample>, x: nat, threshold: u64): int
    requires x < |s|
  {
    if Outlier(s, x, threshold) then Min(x + 1, |s| - 1) else x
  }

  /** A state in which the positions `v` have been examined, of which `good` were kept. */
  ghost predicate Followed(s: seq<NtpSample>, threshold: u64, t: Trace, v: seq<nat>, good: seq<nat>)
    requires forall j | 0 <= j < |v| :: v[j] < |s|
  {
    && |good| <= |v| <= |t.slots| && t.kept == |good| && t.Removed() == |v| - |good|
    && (forall j | 0 <= j < |good| :: t.slots[j] == good[j])
    && (forall j | |good| <= j < |v| :: t.slots[j] == LeftBy(s, v[j], threshold))
  }

  /** The state before step `|v|`, when the positions `v` have been examined. */
  ghost predicate FollowsVisits(s: seq<NtpSample>, threshold: u64, v: seq<nat>)
    requires |v| <= |s| && forall j | 0 <= j < |v| :: v[j] < |s|
  {
    Followed(s, threshold, After(s, threshold, |v|), v, GoodOnes(s, v, threshold))
  }

  /** The result of the pass read off the positions `v` it examines: each outlier among them costs a
      slot; the good ones are kept in order, followed, if the last sample of all is good, by copies
      of it up to the end of the live part; the other live slots hold what examining left there. */
  ghost predicate ClosedForm(s: seq<NtpSample>, threshold: u64, f: Trace, v: seq<nat>)
    requires s != [] && f.Fits(|s|, |s|) && forall j | 0 <= j < |v| :: v[j] < |s|
  {
    var good := GoodOnes(s, v, threshold);
    && f.count == |s| - (|v| - |good|) && |good| <= f.count <= |v|
    && f.kept == (if Outlier(s, |s| - 1, threshold) then |good| else f.count)
    && (forall j | 0 <= j < |good| :: f.slots[j] == good[j])
    && (forall j | |good| <= j < f.kept :: f.slots[j] == |s| - 1)
    && (forall j | f.kept <= j < f.count :: f.slots[j] == LeftBy(s, v[j], threshold))
  }

  lemma GoodOnesNext(s: seq<NtpSample>, v: seq<nat>, x: nat, threshold: u64)
    requires x < |s| && forall j | 0 <= j < |v| :: v[j] < |s|
    ensures GoodOnes(s, v + [x], threshold) ==
      if Outlier(s, x, threshold) then GoodOnes(s, v, threshold) else GoodOnes(s, v, threshold) + [x]
  {
    assert (v + [x])[..|v|] == v;
  }

  lemma FollowedByGood(s: seq<NtpSample>, threshold: u64, t: Trace, v: seq<nat>, good: seq<nat>, at: nat)
    requires at < |s| && !Outlier(s, at, threshold) && forall j | 0 <= j < |v| :: v[j] < |s|
    requires Followed(s, threshold, t, v, good) && |v| < |t.slots| && t.slots[|v|] == at
    ensures Followed(s, threshold, Trace(t.slots[t.kept := at], t.count, t.kept + 1), v + [at], good + [at])
  {
  }

  lemma FollowedByOutlier(s: seq<NtpSample>, threshold: u64, t: Trace, r: Trace, v: seq<nat>, good: seq<nat>, at: nat)
    requires at < |s| && Outlier(s, at, threshold) && forall j | 0 <= j < |v| :: v[j] < |s|
    requires Followed(s, threshold, t, v, good) && |v| < |t.slots| == |r.slots|
    requires r.kept == t.kept && r.count == t.count - 1 && r.slots[|v|] == Min(at + 1, |s| - 1)
    requires forall j | 0 <= j < |v| :: r.slots[j] == t.slots[j]
    ensures Followed(s, threshold, r, v + [at], good)
  {
  }

  lemma ExaminesGood(s: seq<NtpSample>, threshold: u64, i: nat, at: nat)
    requires i < |s| && at < |s| && !Outlier(s, at, threshold) && at == i + After(s, threshold, i).Removed()
    ensures var t := After(s, threshold, i);
      t.slots[i] == at && After(s, threshold, i + 1) == Trace(t.slots[t.kept := at], t.count, t.kept + 1)
  {
    hide After, Step;
    AlwaysShifted(s, threshold, i);
    NextStep(s, threshold, i);
    KeepStep(s, threshold, After(s, threshold, i), i);
  }

  lemma ExaminesOutlier(s: seq<NtpSample>, threshold: u64, i: nat, at: nat)
    requires i < |s| && at < |s| && Outlier(s, at, threshold) && at == i + After(s, threshold, i).Removed()
    ensures var t, r := After(s, threshold, i), After(s, threshold, i + 1);
      && r.kept == t.kept && r.count == t.count - 1 && r.slots[i] == Min(at + 1, |s| - 1)
      && forall j | 0 <= j < i :: r.slots[j] == t.slots[j]
  {
    hide After, Step;
    AlwaysShifted(s, threshold, i);
    NextStep(s, threshold, i);
    RemoveStep(s, threshold, After(s, threshold, i), i);
  }

  lemma VisitGood(s: seq<NtpSample>, threshold: u64, v: seq<nat>, at: nat)
    requires |v| < |s| && at < |s| && !Outlier(s, at, threshold) && forall j | 0 <= j < |v| :: v[j] < |s|
    requires FollowsVisits(s, threshold, v) && at == |v| + After(s, threshold, |v|).Removed()
    ensures FollowsVisits(s, threshold, v + [at])
    ensures |v| + 1 + After(s, threshold, |v| + 1).Removed() == at + 1
  {
    hide After, GoodOnes, Followed;
    ExaminesGood(s, threshold, |v|, at);
    GoodOnesNext(s, v, at, threshold);
    FollowedByGood(s, threshold, After(s, threshold, |v|), v, GoodOnes(s, v, threshold), at);
  }

  lemma VisitOutlier(s: seq<NtpSample>, threshold: u64, v: seq<nat>, at: nat)
    requires |v| < |s| && at < |s| && Outlier(s, at, threshold) && forall j | 0 <= j < |v| :: v[j] < |s|
    requires FollowsVisits(s, threshold, v) && at == |v| + After(s, threshold, |v|).Removed()
    ensures FollowsVisits(s, threshold, v + [at])
    ensures |v| + 1 + After(s, threshold, |v| + 1).Removed() == at + 2
  {
    hide After, GoodOnes, Followed;
    ExaminesOutlier(s, threshold, |v|, at);
    GoodOnesNext(s, v, at, threshold);
    FollowedByOutlier(s, threshold, After(s, threshold, |v|), After(s, threshold, |v| + 1), v, GoodOnes(s, v, threshold), at);
  }

  /** All positions have been examined; only copies of the last sample remain. */
  lemma VisitsEnd(s: seq<NtpSample>, threshold: u64, v: seq<nat>, at: nat)
    requires s != [] && |v| <= |s| && forall j | 0 <= j < |v| :: v[j] < |s|
    requires FollowsVisits(s, threshold, v) && at == |v| + After(s, threshold, |v|).Removed()
    requires at == |s| || (at == |s| + 1 && Outlier(s, |s| - 1, threshold))
    ensures ClosedForm(s, threshold, After(s, threshold, |s|), v)
  {
    hide After, Step, GoodOnes, LeftBy;
    StaleCopies(s, threshold, |v|, |s|);
    KeptStays(s, threshold, |v|, |s|);
  }

  lemma VisitedNext(s: seq<NtpSample>, v: seq<nat>, at: nat, threshold: u64)
    ensures v + Visited(s, at, threshold) ==
      if at >= |s| then v
      else (v + [at]) + Visited(s, if Outlier(s, at, threshold) then at + 2 else at + 1, threshold)
  {
  }

  lemma {:induction false} VisitsLeadToEnd(s: seq<NtpSample>, threshold: u64, v: seq<nat>, at: nat)
    requires s != [] && |v| <= |s| && forall j | 0 <= j < |v| :: v[j] < |s|
    requires FollowsVisits(s, threshold, v) && at == |v| + After(s, threshold, |v|).Removed()
    requires at <= |s| || (at == |s| + 1 && Outlier(s, |s| - 1, threshold))
    ensures ClosedForm(s, threshold, After(s, threshold, |s|), v + Visited(s, at, threshold))
    decreases |s| - |v|
  {
    hide After, GoodOnes, FollowsVisits, ClosedForm, Visited;
    VisitedNext(s, v, at, threshold);
    if at >= |s| {
      VisitsEnd(s, threshold, v, at);
    } else {
      if Outlier(s, at, threshold) {
        VisitOutlier(s, threshold, v, at);
      } else {
        VisitGood(s, threshold, v, at);
      }
      VisitsLeadToEnd(s, threshold, v + [at], if Outlier(s, at, threshold) then at + 2 else at + 1);
    }
  }

  /** For every pool, what the pass returns and what it leaves. */
  lemma PassInClosedForm(s: seq<NtpSample>, threshold: u64)
    requires s != []
    ensures ClosedForm(s, threshold, After(s, threshold, |s|), Visited(s, 0, threshold))
  {
    hide Step;
    Start(s, threshold);
    VisitsLeadToEnd(s, threshold, [], 0);
    assert [] + Visited(s, 0, threshold) == Visited(s, 0, threshold);
  }

  /** From position `at` on every position is examined, unless an outlier comes before the last. */
  lemma {:induction false} VisitsAll(s: seq<NtpSample>, at: nat, threshold: u64)
    requires at <= |s|
    ensures |Visited(s, at, threshold)| <= |s| - at
    ensures |Visited(s, at, threshold)| == |s| - at <==> FirstOutlier(s, at, threshold) + 1 >= |s|
    decreases |s| - at
  {
    if at < |s| {
      if !Outlier(s, at, threshold) {
        VisitsAll(s, at + 1, threshold);
      } else if at + 1 < |s| {
        VisitsAll(s, at + 2, threshold);
      }
    }
  }

  /** The returned count is the size of the pool that is left exactly when the last sample, the one
      stored last, is within the threshold or is the only outlier. */
  lemma CountsAgree(s: seq<NtpSample>, threshold: u64)
    requires s != []
    ensures var f := After(s, threshold, |s|);
      f.kept == f.count <==> !Outlier(s, |s| - 1, threshold) || FirstOutlier(s, 0, threshold) == |s| - 1
  {
    hide After, GoodOnes, Visited;
    PassInClosedForm(s, threshold);
    VisitsAll(s, 0, threshold);
  }

  // ---------- the call of the daemon ----------

  /** The samples at the given positions. */
  function Select(s: seq<NtpSample>, at: seq<nat>): (r: seq<NtpSample>)
    requires forall j | 0 <= j < |at| :: at[j] < |s|
    ensures |r| == |at|
  {
    seq(|at|, j requires 0 <= j < |at| => s[at[j]])
  }

  lemma SelectKept(s: seq<NtpSample>, threshold: u64)
    ensures Select(s, KeptIndices(s, threshold)) == Kept(s, threshold)
  {
    KeptIsStable(s, threshold);
  }

  ghost predicate AllDifferent(s: seq<NtpSample>) {
    forall i, j | 0 <= i < j < |s| :: s[i] != s[j]
  }

  /** When no two samples are equal, the samples determine the positions. */
  lemma SelectInjective(s: seq<NtpSample>, a: seq<nat>, b: seq<nat>)
    requires AllDifferent(s)
    requires forall j | 0 <= j < |a| :: a[j] < |s|
    requires forall j | 0 <= j < |b| :: b[j] < |s|
    requires Select(s, a) == Select(s, b)
    ensures a == b
  {
    forall j | 0 <= j < |a| ensures a[j] == b[j] {
      assert s[a[j]] == Select(s, a)[j] == Select(s, b)[j] == s[b[j]];
    }
    assert |a| == |Select(s, a)|;
  }

  lemma SelectPrefix(s: seq<NtpSample>, q: PoolState, kept: nat, f: Trace, k: nat)
    requires Image(s, q, kept, f, |s|) && k <= |s|
    ensures q.slots[..k] == Select(s, f.slots[..k])
  {
  }

  /** What the call returns and what it leaves, read off the positions.  The pool is
      left with at least as many slots as there were good samples. */
  lemma LiveFilterTraced(p: PoolState, threshold: u64)
    requires 0 < p.count <= |p.slots|
    ensures var s := Live(p);
      var (q, kept) := LivePass(p, threshold, p.count);
      var f := After(s, threshold, |s|);
      && q.count == f.count && kept == f.kept
      && q.slots[..kept] == Select(s, f.slots[..kept]) && Live(q) == Select(s, f.slots[..f.count])
    ensures LivePass(p, threshold, p.count).0.count >= |Kept(Live(p), threshold)|
  {
    hide After, Step;
    var s := Live(p);
    var (q, kept) := LivePass(p, threshold, p.count);
    TraceIsPass(p, threshold, p.count);
    SelectPrefix(s, q, kept, After(s, threshold, |s|), kept);
    SelectPrefix(s, q, kept, After(s, threshold, |s|), q.count);
    PoolKeepsCount(s, threshold);
    KeptIsStable(s, threshold);
  }

  /** Filtering the live pool in place both returns and leaves exactly the samples that filtering a
      copy would give, when there is at most one outlier, among the last two samples, and in no
      other case.  Right on positions is right on samples; the converse holds when no two samples
      of the pool are equal. */
  lemma LiveFilterExact(p: PoolState, threshold: u64)
    requires 0 < p.count <= |p.slots|
    ensures var s, n := Live(p), p.count;
      var j := FirstOutlier(s, 0, threshold);
      PrefixExact(s, threshold) && PoolExact(s, threshold) <==>
        j + 1 >= n || (j + 2 == n && !Outlier(s, n - 1, threshold))
    ensures var s := Live(p);
      var (q, kept) := LivePass(p, threshold, p.count);
      && (PrefixExact(s, threshold) ==> q.slots[..kept] == Kept(s, threshold))
      && (PoolExact(s, threshold) ==> Live(q) == Kept(s, threshold))
      && (AllDifferent(s) && q.slots[..kept] == Kept(s, threshold) ==> PrefixExact(s, threshold))
      && (AllDifferent(s) && Live(q) == Kept(s, threshold) ==> PoolExact(s, threshold))
  {
    hide After, Step, Kept;
    var s := Live(p);
    var (q, kept) := LivePass(p, threshold, p.count);
    var f := After(s, threshold, |s|);
    PrefixCondition(s, threshold);
    PoolCondition(s, threshold);
    LiveFilterTraced(p, threshold);
    SelectKept(s, threshold);
    if AllDifferent(s) && q.slots[..kept] == Kept(s, threshold) {
      SelectInjective(s, f.slots[..kept], KeptIndices(s, threshold));
    }
    if AllDifferent(s) && Live(q) == Kept(s, threshold) {
      SelectInjective(s, f.slots[..q.count], KeptIndices(s, threshold));
    }
  }

  /** A concrete pool on which filtering the pool loses a good sample and repeats another. */
  lemma LivePassCanDiffer(p: PoolState, a: NtpSample, b: NtpSample, c: NtpSample)
    requires a == NtpSample(1, 9, 0) && b == NtpSample(2, 1, 0) && c == NtpSample(3, 1, 0)
    requires p == PoolState([a, b, c], 3)
    ensures var (q, kept) := LivePass(p, Cutoff(Live(p), 3), 3);
      q.count == kept == 2 && Live(q) == [c, c]
    ensures Kept(Live(p), Cutoff(Live(p), 3)) == [b, c]
  {
    var s := Live(p);
    assert s == [a, b, c];
    CutoffOfThree(s, 1);
    SkippedOfThree(s, 1);
    LiveFilterTraced(p, 1);
  }

  lemma KeptOfLonger(s: seq<NtpSample>, i: nat, threshold: u64)
    requires i < |s|
    ensures Kept(s[..i+1], threshold) ==
      if Outlier(s, i, threshold) then Kept(s[..i], threshold) else Kept(s[..i], threshold) + [s[i]]
  {
    assert s[..i+1][..i] == s[..i];
  }

  lemma SkippedOfThree(s: seq<NtpSample>, m: u64)
    requires |s| == 3 && s[0].delay > m && s[1].delay <= m && s[2].delay <= m
    ensures After(s, m, 3) == Trace([2, 2, 2], 2, 2)
    ensures Kept(s, m) == [s[1], s[2]]
  {
    assert After(s, m, 1) == Trace([1, 2, 2], 2, 0);
    assert After(s, m, 2) == Trace([2, 2, 2], 2, 1);
    KeptOfLonger(s, 0, m);
    KeptOfLonger(s, 1, m);
    KeptOfLonger(s, 2, m);
    Whole(s);
  }

  /** A concrete pool on which the pool is left right although two samples are removed and only
      one is counted as kept. */
  lemma PoolCanBeExactAlone(p: PoolState, a: NtpSample, b: NtpSample, c: NtpSample, d: NtpSample)
    requires a == NtpSample(1, 1, 0) && b == NtpSample(2, 9, 0) && c == NtpSample(3, 1, 0) && d == NtpSample(4, 9, 0)
    requires p == PoolState([a, b, c, d], 4)
    ensures var (q, kept) := LivePass(p, Cutoff(Live(p), 3), 4);
      kept == 1 && Live(q) == Kept(Live(p), Cutoff(Live(p), 3)) == [a, c]
  {
    var s := Live(p);
    assert s == [a, b, c, d];
    CutoffOfFour(s, 1);
    AlternatingFour(s, 1);
    LiveFilterTraced(p, 1);
  }

  lemma AlternatingFour(s: seq<NtpSample>, m: u64)
    requires |s| == 4 && s[0].delay <= m && s[1].delay > m && s[2].delay <= m && s[3].delay > m
    ensures After(s, m, 4) == Trace([0, 2, 3, 3], 2, 1)
    ensures Kept(s, m) == [s[0], s[2]]
  {
    assert After(s, m, 1) == Trace([0, 1, 2, 3], 4, 1);
    assert After(s, m, 2) == Trace([0, 2, 3, 3], 3, 1);
    assert After(s, m, 3) == Trace([0, 2, 3, 3], 2, 1);
    KeptOfLonger(s, 0, m);
    KeptOfLonger(s, 1, m);
    KeptOfLonger(s, 2, m);
    KeptOfLonger(s, 3, m);
    Whole(s);
  }

  lemma CutoffOfThree(s: seq<NtpSample>, m: u64)
    requires |s| == 3 && s[0].delay > m && s[1].delay == s[2].delay == m
    ensures Cutoff(s, 3) == m
  {
    var d, devs := Delays(s), MarxMedian.AbsDevs(Delays(s), m);
    assert d == [d[0]] + [m, m] && devs == [devs[0]] + [0, 0];
    LowerMedianOf([d[0]], [m, m], m);
    LowerMedianOf([devs[0]], [0, 0], 0);
    MarxMedian.ThresholdSaturates(m, 0, 3);
  }

  lemma CutoffOfFour(s: seq<NtpSample>, m: u64)
    requires |s| == 4 && s[0].delay == s[2].delay == m && s[1].delay == s[3].delay > m
    ensures Cutoff(s, 3) == m
  {
    var d, devs := Delays(s), MarxMedian.AbsDevs(Delays(s), m);
    assert d == [m, d[1]] + [m, d[1]] && devs == [0, devs[1]] + [0, devs[1]];
    LowerMedianOf([m, d[1]], [m, d[1]], m);
    LowerMedianOf([0, devs[1]], [0, devs[1]], 0);
    MarxMedian.ThresholdSaturates(m, 0, 3);
  }

  /** Of three or four entries, two equal to `m` and the others above it, the lower median is
      `m`. */
  lemma LowerMedianOf(x: seq<int>, y: seq<int>, m: int)
    requires |x| <= 2 && |y| == 2 && 3 <= |x + y|
    requires CountBelow(x, m) == CountBelow(y, m) == 0
    requires CountBelow(x, m + 1) + CountBelow(y, m + 1) == 2
    ensures LowerMedian(x + y) == m
  {
    BelowConcat(x, y, m);
    BelowConcat(x, y, m + 1);
    LowerMedianRank(x + y, m);
  }
}
