/** What the outlier filter guarantees: on a separate buffer it leaves exactly the samples within
    the cutoff; on the live pool it may lose or repeat samples but never empties the pool. */
module FilterTheorems {
  import opened Words
  import opened OrderStatistics
  import opened MarxFilter
  import MarxMedian

  // ---------- the cutoff ----------

  /** How many delays are at least `lo` and below `hi`. */
  function CountBetween(s: seq<NtpSample>, lo: int, hi: int): int {
    CountBelow(Delays(s), hi) - CountBelow(Delays(s), lo)
  }

  /** Deviations below `x` come from delays on both sides of the median. */
  lemma {:induction false} DeviationsBelow(d: seq<u64>, m: u64, x: int)
    ensures CountBelow(MarxMedian.AbsDevs(d, m), x) ==
      if x <= 0 then 0 else CountBelow(d, m + x) - CountBelow(d, m - x + 1)
  {
    if d != [] {
      DeviationsBelow(d[1..], m, x);
      assert MarxMedian.AbsDevs(d, m)[1..] == MarxMedian.AbsDevs(d[1..], m);
    }
  }

  /** The median deviation, by counting alone: the one `v` such that at most half of the other
      samples have a delay closer than `v` to the median, on either side, and more than that have one
      within `v`. */
  lemma DeviationByCounting(s: seq<NtpSample>, v: int)
    requires s != []
    ensures var m, r := DelayMedian(s), (|s| - 1) / 2;
      v == Deviation(s) <==>
        v >= 0 && CountBetween(s, m - v + 1, m + v) <= r < CountBetween(s, m - v, m + v + 1)
  {
    hide CountBelow, MarxMedian.AbsDevs, LowerMedian;
    var m := DelayMedian(s);
    var devs := MarxMedian.AbsDevs(Delays(s), m);
    LowerMedianRank(devs, v);
    DeviationsBelow(Delays(s), m, v);
    DeviationsBelow(Delays(s), m, v + 1);
    if v == 0 {
      BelowMonotone(Delays(s), m, (m as int) + 1);
    }
  }

  /** The cutoff, by counting alone: with `m` the lower median of the delays and `v` the median
      deviation from it, both the only values of their rank, it is m + k*v, saturated. */
  lemma CutoffByCounting(s: seq<NtpSample>, k: i32, m: int, v: int)
    requires s != [] && k >= 0
    requires CountBelow(Delays(s), m) <= (|s| - 1) / 2 < CountBelow(Delays(s), m + 1)
    requires v >= 0 && CountBetween(s, m - v + 1, m + v) <= (|s| - 1) / 2 < CountBetween(s, m - v, m + v + 1)
    ensures Cutoff(s, k) == Min(0xFFFF_FFFF_FFFF_FFFF, m + k * v)
  {
    hide CountBelow, CountBetween, LowerMedian, Deviation, MarxMedian.Threshold;
    LowerMedianRank(Delays(s), m);
    DeviationByCounting(s, v);
    MarxMedian.ThresholdSaturates(m, v, k);
  }

  /** Such values exist for every non-empty input. */
  lemma CutoffIsDefined(s: seq<NtpSample>) returns (m: u64, v: u64)
    requires s != []
    ensures CountBelow(Delays(s), m) <= (|s| - 1) / 2 < CountBelow(Delays(s), m + 1)
    ensures CountBetween(s, m - v + 1, m + v) <= (|s| - 1) / 2 < CountBetween(s, m - v, m + v + 1)
  {
    hide CountBelow, CountBetween, LowerMedian, Deviation;
    m, v := DelayMedian(s), Deviation(s);
    LowerMedianRank(Delays(s), m);
    DeviationByCounting(s, v);
  }

  // ---------- a separate buffer ----------

  /** The indices of the samples within the threshold, ascending. */
  function KeptIndices(s: seq<NtpSample>, threshold: u64): (r: seq<nat>)
    ensures forall j | 0 <= j < |r| :: r[j] < |s|
  {
    if s == [] then []
    else
      var r := KeptIndices(s[..|s|-1], threshold);
      if s[|s|-1].delay <= threshold then r + [|s| - 1] else r
  }

  /** The filter leaves a stable selection: ascending positions, all samples within the
      threshold and only those. */
  lemma {:induction false} KeptIsStable(s: seq<NtpSample>, threshold: u64)
    ensures |Kept(s, threshold)| == |KeptIndices(s, threshold)|
    ensures forall j | 0 <= j < |Kept(s, threshold)| ::
        Kept(s, threshold)[j] == s[KeptIndices(s, threshold)[j]]
    ensures forall i, j | 0 <= i < j < |KeptIndices(s, threshold)| ::
        KeptIndices(s, threshold)[i] < KeptIndices(s, threshold)[j]
    ensures forall i | 0 <= i < |s| :: i in KeptIndices(s, threshold) <==> s[i].delay <= threshold
  {
    if s != [] {
      KeptIsStable(s[..|s|-1], threshold);
      assert forall i | 0 <= i < |s| - 1 :: s[..|s|-1][i] == s[i];
    }
  }

  lemma {:induction false} KeptCount(s: seq<NtpSample>, threshold: u64)
    ensures |Kept(s, threshold)| == CountBelow(Delays(s), threshold + 1)
  {
    if s != [] {
      KeptCount(s[..|s|-1], threshold);
      BelowConcat(Delays(s[..|s|-1]), [s[|s|-1].delay], threshold + 1);
      assert Delays(s) == Delays(s[..|s|-1]) + [s[|s|-1].delay];
    }
  }

  lemma CutoffAboveMedian(s: seq<NtpSample>, k: i32)
    requires s != []
    ensures DelayMedian(s) <= Cutoff(s, k)
  {
    MarxMedian.ThresholdSaturates(DelayMedian(s), Deviation(s), k);
  }

  /** Whatever the multiplier, at least half of the samples, rounded up, are within the cutoff. */
  lemma KeepsHalf(s: seq<NtpSample>, k: i32)
    requires s != []
    ensures 2 * |Kept(s, Cutoff(s, k))| >= |s|
  {
    CutoffAboveMedian(s, k);
    LowerMedianRank(Delays(s), DelayMedian(s));
    BelowMonotone(Delays(s), DelayMedian(s) + 1, Cutoff(s, k) + 1);
    KeptCount(s, Cutoff(s, k));
  }

  /** A sample of least delay is always kept. */
  lemma KeepsMinimum(s: seq<NtpSample>, k: i32, i: nat)
    requires i < |s|
    requires forall j | 0 <= j < |s| :: s[i].delay <= s[j].delay
    ensures i in KeptIndices(s, Cutoff(s, k))
  {
    CutoffAboveMedian(s, k);
    LowerMedianRank(Delays(s), 0);
    var j :| 0 <= j < |s| && Delays(s)[j] == DelayMedian(s);
    assert s[i].delay <= s[j].delay;
    KeptIsStable(s, Cutoff(s, k));
  }

  lemma {:induction false} KeptNested(s: seq<NtpSample>, t: u64, t': u64)
    requires t <= t'
    ensures Kept(Kept(s, t'), t) == Kept(s, t)
  {
    if s != [] {
      var rest, last := s[..|s|-1], s[|s|-1];
      KeptNested(rest, t, t');
      if last.delay <= t' {
        assert (Kept(rest, t') + [last])[..|Kept(rest, t')|] == Kept(rest, t');
      }
    }
  }

  /** A larger multiplier keeps more: filtering its result again with the smaller cutoff gives
      what the smaller multiplier alone keeps. */
  lemma KeptGrowsWithMultiplier(s: seq<NtpSample>, k: i32, k': i32)
    requires s != [] && 0 <= k <= k'
    ensures Cutoff(s, k) <= Cutoff(s, k')
    ensures Kept(Kept(s, Cutoff(s, k')), Cutoff(s, k)) == Kept(s, Cutoff(s, k))
  {
    MarxMedian.ThresholdMonotone(DelayMedian(s), Deviation(s), k, k');
    KeptNested(s, Cutoff(s, k), Cutoff(s, k'));
  }

  // ---------- the pool, when a separate buffer is filtered ----------

  /** The pool positions a rejected sample takes with it: its own index plus the number of samples
      rejected before it, because each removal moves the pool up by one. */
  function Hits(s: seq<NtpSample>, threshold: u64): (r: seq<nat>)
    ensures |r| <= |s|
  {
    if s == [] then []
    else
      var r := Hits(s[..|s|-1], threshold);
      if s[|s|-1].delay <= threshold then r else r + [|s| - 1 + |r|]
  }

  /** The positions, in the pool before the call, of the live entries that are left of `n`. */
  function Spared(s: seq<NtpSample>, threshold: u64, n: nat): (r: seq<nat>)
    ensures |r| <= n && forall j | 0 <= j < |r| :: r[j] < n
  {
    if s == [] then seq(n, j requires 0 <= j < n => j)
    else
      var r, m := Spared(s[..|s|-1], threshold, n), |s| - 1;
      if s[m].delay > threshold && m < |r| then r[..m] + r[m+1..] else r
  }

  lemma {:induction false} PurgedIsSpared(p: PoolState, s: seq<NtpSample>, threshold: u64)
    requires p.count <= |p.slots|
    ensures var q, left := Purged(p, s, threshold), Spared(s, threshold, p.count);
      q.count == |left| && forall j | 0 <= j < q.count :: q.slots[j] == p.slots[left[j]]
  {
    if s != [] {
      PurgedIsSpared(p, s[..|s|-1], threshold);
    }
  }

  /** After `m` samples with `k` rejected: the entries ahead moved up by `k`, those behind come from
      before that. */
  ghost predicate MovedUp(left: seq<nat>, m: nat, k: nat) {
    && (forall j | m <= j < |left| :: left[j] == j + k)
    && (forall j | 0 <= j < m && j < |left| :: left[j] < m + k)
  }

  lemma {:induction false} SparedMovesUp(s: seq<NtpSample>, threshold: u64, n: nat)
    ensures MovedUp(Spared(s, threshold, n), |s|, |Hits(s, threshold)|)
  {
    if s != [] {
      SparedMovesUp(s[..|s|-1], threshold, n);
    }
  }

  lemma {:induction false} SparedAscends(s: seq<NtpSample>, threshold: u64, n: nat)
    ensures forall i, j | 0 <= i < j < |Spared(s, threshold, n)| ::
        Spared(s, threshold, n)[i] < Spared(s, threshold, n)[j]
  {
    if s != [] {
      SparedAscends(s[..|s|-1], threshold, n);
    }
  }

  lemma {:induction false} SparedMissesHits(s: seq<NtpSample>, threshold: u64, n: nat, x: nat)
    ensures x in Spared(s, threshold, n) <==> x < n && x !in Hits(s, threshold)
  {
    hide Spared, Hits, MovedUp;
    if s == [] {
      NothingHit(s, threshold, n, x);
    } else {
      var rest, m := s[..|s|-1], |s| - 1;
      OneMoreHit(s, threshold, n);
      SparedMissesHits(rest, threshold, n, x);
      SparedMovesUp(rest, threshold, n);
      DroppingAt(Spared(rest, threshold, n), m, |Hits(rest, threshold)|, x);
    }
  }

  lemma NothingHit(s: seq<NtpSample>, threshold: u64, n: nat, x: nat)
    requires s == []
    ensures Hits(s, threshold) == [] && (x in Spared(s, threshold, n) <==> x < n)
  {
    assert x < n ==> Spared(s, threshold, n)[x] == x;
  }

  lemma OneMoreHit(s: seq<NtpSample>, threshold: u64, n: nat)
    requires s != []
    ensures var rest, m := s[..|s|-1], |s| - 1;
      var left, hits := Spared(rest, threshold, n), Hits(rest, threshold);
      && Hits(s, threshold) == (if s[m].delay > threshold then hits + [m + |hits|] else hits)
      && Spared(s, threshold, n) ==
           (if s[m].delay > threshold && m < |left| then left[..m] + left[m+1..] else left)
  {
  }

  lemma DroppingAt(left: seq<nat>, m: nat, k: nat, x: nat)
    requires MovedUp(left, m, k)
    ensures m < |left| ==> (x in left[..m] + left[m+1..] <==> x in left && x != m + k)
    ensures m >= |left| ==> m + k !in left
  {
    if m < |left| {
      var front, back := left[..m], left[m+1..];
      assert left == front + [left[m]] + back;
      assert forall j | 0 <= j < |back| :: back[j] == left[m+1+j];
      assert forall j | 0 <= j < m :: front[j] == left[j];
    }
  }

  /** What filtering a separate buffer leaves of the pool: in order, exactly the entries at the
      positions that no rejected sample hits. */
  lemma PurgedExactly(p: PoolState, s: seq<NtpSample>, threshold: u64)
    requires p.count <= |p.slots|
    ensures var q, left := Purged(p, s, threshold), Spared(s, threshold, p.count);
      && q.count == |left|
      && (forall j | 0 <= j < |left| :: q.slots[j] == p.slots[left[j]])
      && (forall i, j | 0 <= i < j < |left| :: left[i] < left[j])
      && (forall x: nat :: x in left <==> x < p.count && x !in Hits(s, threshold))
  {
    PurgedIsSpared(p, s, threshold);
    SparedAscends(s, threshold, p.count);
    forall x: nat ensures x in Spared(s, threshold, p.count) <==> x < p.count && x !in Hits(s, threshold) {
      SparedMissesHits(s, threshold, p.count, x);
    }
  }

  /** Filtering a separate buffer leaves the pool alone exactly when every rejected sample has an
      index beyond the live part; otherwise the pool shrinks. */
  lemma {:induction false} PurgedLeavesPool(p: PoolState, s: seq<NtpSample>, threshold: u64)
    requires p.count <= |p.slots|
    ensures Purged(p, s, threshold) == p <==> forall i | 0 <= i < |s| && s[i].delay > threshold :: i >= p.count
    ensures Purged(p, s, threshold) != p ==> Purged(p, s, threshold).count < p.count
    ensures Purged(p, s, threshold).count <= p.count
  {
    if s != [] {
      var rest := s[..|s|-1];
      PurgedLeavesPool(p, rest, threshold);
      assert forall i | 0 <= i < |rest| :: rest[i] == s[i];
    }
  }

  // ---------- the live pool ----------

  function Live(p: PoolState): seq<NtpSample>
    requires p.count <= |p.slots|
  {
    p.slots[..p.count]
  }

  /** A new sample goes behind the live ones, unless there is no room. */
  lemma StoredBehind(p: PoolState, s: NtpSample)
    requires p.count <= |p.slots|
    ensures p.count < |p.slots| ==> Live(WithSample(p, s)) == Live(p) + [s]
    ensures p.count == |p.slots| ==> WithSample(p, s) == p
  {
  }

  /** How many live samples are within the threshold. */
  function Good(p: PoolState, threshold: u64): nat
    requires p.count <= |p.slots|
  {
    CountBelow(Delays(Live(p)), threshold + 1)
  }

  lemma RemoveKeepsGood(p: PoolState, index: nat, threshold: u64)
    requires index < p.count <= |p.slots|
    requires p.slots[index].delay > threshold
    ensures Good(RemoveAt(p, index), threshold) == Good(p, threshold)
  {
    var d := Delays(Live(p));
    BelowRemove(d, index, threshold + 1);
    assert Delays(Live(RemoveAt(p, index))) == d[..index] + d[index+1..];
  }

  /** Removal moves entries about but brings in no others. */
  lemma RemoveBringsNothing(p: PoolState, index: int, n: nat, source: seq<NtpSample>)
    requires p.count <= n <= |p.slots|
    requires forall j | 0 <= j < n :: p.slots[j] in source
    ensures forall j | 0 <= j < n :: RemoveAt(p, index).slots[j] in source
    ensures forall j | 0 <= j < n && j < index :: RemoveAt(p, index).slots[j] == p.slots[j]
  {
    if 0 <= index < p.count {
      forall j | 0 <= j < n ensures RemoveAt(p, index).slots[j] in source {
        if index <= j < p.count - 1 {
          assert RemoveAt(p, index).slots[j] == p.slots[j+1];
        } else {
          assert RemoveAt(p, index).slots[j] == p.slots[j];
        }
      }
    }
  }

  lemma FirstPass(p: PoolState, threshold: u64)
    requires p.count <= |p.slots|
    ensures LivePass(p, threshold, 0) == (p, 0)
  {
  }

  lemma NextPass(p: PoolState, threshold: u64, i: nat)
    requires p.count <= |p.slots| && i < |p.slots|
    ensures var (q, kept) := LivePass(p, threshold, i);
      LivePass(p, threshold, i + 1) ==
        if q.slots[i].delay <= threshold then (q.(slots := q.slots[kept := q.slots[i]]), kept + 1)
        else (RemoveAt(q, i), kept)
  {
  }

  /** Each step of the live pass either keeps a sample or removes at most one. */
  lemma {:induction false} PassCounts(p: PoolState, threshold: u64, i: nat)
    requires p.count <= |p.slots| && i <= p.count
    ensures var (q, kept) := LivePass(p, threshold, i);
      p.count - (i - kept) <= q.count <= p.count
  {
    if i > 0 {
      PassCounts(p, threshold, i - 1);
    }
  }

  /** During the live pass the pool holds only its own samples, and the prefix kept so far is
      within the threshold. */
  lemma {:induction false} PassContents(p: PoolState, threshold: u64, i: nat)
    requires p.count <= |p.slots| && i <= p.count
    ensures var (q, kept) := LivePass(p, threshold, i);
      && (forall j | 0 <= j < p.count :: q.slots[j] in Live(p))
      && (forall j | 0 <= j < kept :: q.slots[j].delay <= threshold)
  {
    hide LivePass, RemoveAt;
    if i == 0 {
      FirstPass(p, threshold);
      assert forall j | 0 <= j < p.count :: p.slots[j] == Live(p)[j];
    } else {
      NextPass(p, threshold, i - 1);
      PassContents(p, threshold, i - 1);
      PassCounts(p, threshold, i - 1);
      RemoveBringsNothing(LivePass(p, threshold, i - 1).0, i - 1, p.count, Live(p));
    }
  }

  /** While nothing has been kept, every step removed an outlier from the live part, no good
      sample was lost, and the slot behind the live part repeats its last entry. */
  ghost predicate NothingKept(p: PoolState, threshold: u64, i: nat)
    requires p.count <= |p.slots| && i <= |p.slots|
  {
    var (q, kept) := LivePass(p, threshold, i);
    kept == 0 ==>
      && q.count == p.count - i
      && Good(q, threshold) == Good(p, threshold)
      && (0 < i && 2 * i <= p.count ==> q.slots[q.count] == q.slots[q.count-1])
  }

  lemma {:induction false} NothingKeptStep(p: PoolState, threshold: u64, i: nat)
    requires p.count <= |p.slots| && 2 * i <= p.count + 1 && i <= p.count
    ensures NothingKept(p, threshold, i)
  {
    hide LivePass, Good;
    FirstPass(p, threshold);
    if i > 0 {
      NextPass(p, threshold, i - 1);
      NothingKeptStep(p, threshold, i - 1);
      var (q, kept) := LivePass(p, threshold, i - 1);
      if q.slots[i-1].delay > threshold && kept == 0 {
        RemoveKeepsGood(q, i - 1, threshold);
      }
    }
  }

  lemma {:induction false} KeptNeverFalls(p: PoolState, threshold: u64, i: nat, j: nat)
    requires p.count <= |p.slots| && i <= j <= |p.slots|
    ensures LivePass(p, threshold, i).1 <= LivePass(p, threshold, j).1
    decreases j
  {
    if i < j {
      KeptNeverFalls(p, threshold, i, j - 1);
    }
  }

  /** When at least half of the pool is within the threshold, the pass over the whole pool keeps
      something, although each removal hides the next sample from it. */
  lemma PassKeepsSomething(p: PoolState, threshold: u64)
    requires 0 < p.count <= |p.slots|
    requires 2 * Good(p, threshold) >= p.count
    ensures LivePass(p, threshold, p.count).1 >= 1
  {
    var n := p.count;
    var h := (n + 1) / 2;
    NothingKeptStep(p, threshold, h);
    var (q, kept) := LivePass(p, threshold, h);
    if kept == 0 {
      NextIsKept(q, n, h, threshold);
      assert LivePass(p, threshold, h + 1).1 == 1;
      KeptNeverFalls(p, threshold, h + 1, n);
    } else {
      KeptNeverFalls(p, threshold, h, n);
    }
  }

  /** If only outliers were met in the first half, the pool had an even number of samples, the
      live half is all good, and so is the repeated entry behind it. */
  lemma NextIsKept(q: PoolState, n: nat, h: nat, threshold: u64)
    requires q.count <= |q.slots| && n <= |q.slots| && 0 < h && h == (n + 1) / 2
    requires q.count == n - h && 2 * Good(q, threshold) >= n
    requires 2 * h <= n ==> q.slots[q.count] == q.slots[q.count-1]
    ensures h < n && h < |q.slots| && q.slots[h].delay <= threshold
  {
    assert Good(q, threshold) <= q.count;
    assert 2 * h == n && h == q.count;
    AllGood(q, threshold);
  }

  lemma AllGood(p: PoolState, threshold: u64)
    requires p.count <= |p.slots| && Good(p, threshold) == p.count
    ensures forall j | 0 <= j < p.count :: p.slots[j].delay <= threshold
  {
    forall j | 0 <= j < p.count ensures p.slots[j].delay <= threshold {
      BelowRemove(Delays(Live(p)), j, threshold + 1);
    }
  }

  /** A pass that meets an outlier leaves the pool smaller. */
  lemma {:induction false} OutlierShrinksPool(p: PoolState, threshold: u64, i: nat)
    requires i <= p.count <= |p.slots|
    ensures var (q, kept) := LivePass(p, threshold, i);
      q.count < p.count || (q == p && kept == i && forall j | 0 <= j < i :: p.slots[j].delay <= threshold)
    ensures LivePass(p, threshold, i).0.count <= p.count
  {
    if i > 0 {
      OutlierShrinksPool(p, threshold, i - 1);
      var (q, kept) := LivePass(p, threshold, i - 1);
      if q == p && kept == i - 1 {
        assert q.slots[kept := q.slots[i-1]] == q.slots;
      }
    }
  }

  /** What a pass over the whole pool leaves when at least half of it is within the threshold. */
  lemma PassGuarantee(p: PoolState, threshold: u64)
    requires 0 < p.count <= |p.slots| && 2 * Good(p, threshold) >= p.count
    ensures var (q, kept) := LivePass(p, threshold, p.count);
      && 1 <= kept <= q.count <= p.count
      && forall j | 0 <= j < kept :: q.slots[j] in Live(p) && q.slots[j].delay <= threshold
  {
    PassKeepsSomething(p, threshold);
    PassCounts(p, threshold, p.count);
    PassContents(p, threshold, p.count);
  }

  /** The call the daemon makes after storing a sample: filtering the whole live pool in place
      returns at least one, every entry of the returned prefix is one of the pool's samples within
      the cutoff, and the pool ends no smaller than the returned count. */
  lemma LiveFilterNeverEmpties(p: PoolState, k: i32)
    requires 0 < p.count <= |p.slots|
    ensures var (q, kept) := LivePass(p, Cutoff(Live(p), k), p.count);
      && 1 <= kept <= q.count <= p.count
      && forall j | 0 <= j < kept :: q.slots[j] in Live(p) && q.slots[j].delay <= Cutoff(Live(p), k)
  {
    var threshold := Cutoff(Live(p), k);
    KeepsHalf(Live(p), k);
    KeptCount(Live(p), threshold);
    PassGuarantee(p, threshold);
  }

  /** The live pass changes nothing exactly when the pool holds no outlier.  In particular a full
      pool without outliers stays as it is whatever is measured afterwards, because a full pool
      drops new samples. */
  lemma {:induction false} LivePassIdentity(p: PoolState, threshold: u64, n: nat)
    requires p.count <= |p.slots| && n <= |p.slots|
    ensures LivePass(p, threshold, n).1 == n <==> forall j | 0 <= j < n :: p.slots[j].delay <= threshold
    ensures LivePass(p, threshold, n).1 == n ==> LivePass(p, threshold, n).0 == p
  {
    if n > 0 {
      LivePassIdentity(p, threshold, n - 1);
      var (q, kept) := LivePass(p, threshold, n - 1);
      if kept == n - 1 {
        assert q == p && q.slots[kept := q.slots[n-1]] == q.slots;
      }
    }
  }
}
