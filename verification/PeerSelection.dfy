/** Selecting among peers: rejection of falsetickers around the median offset and the majority
    vote (section 11.2.1 of RFC 5905). */
module PeerSelection {
  import opened Words
  import opened OrderStatistics

  const FALSETICKER_THRESHOLD_US := 250000
  const JITTER_THRESHOLD_US := 100000
  const MAX_PEERS := 8

  /** The subtractions of the selection stay within a signed 64-bit word. */
  ghost predicate DifferencesFit(offsets: seq<int>) {
    forall i, j | 0 <= i < |offsets| && 0 <= j < |offsets| :: Abs(offsets[i] - offsets[j]) <= INT64_MAX
  }

  predicate Near(offset: int, median: int) {
    Abs(offset - median) < FALSETICKER_THRESHOLD_US
  }

  /** Indices of the offsets near the median, ascending. */
  function NearIndices(offsets: seq<int>, median: int): (r: seq<int>)
    ensures |r| <= |offsets|
    ensures forall j | 0 <= j < |r| :: 0 <= r[j] < |offsets|
  {
    if offsets == [] then []
    else
      var n := |offsets| - 1;
      var r := NearIndices(offsets[..n], median);
      if Near(offsets[n], median) then r + [n] else r
  }

  /** Those of the given peers whose jitter is within bounds, in order. */
  function Steady(indices: seq<int>, jitter: seq<u64>): (r: seq<int>)
    requires forall j | 0 <= j < |indices| :: 0 <= indices[j] < |jitter|
    ensures |r| <= |indices|
  {
    if indices == [] then []
    else
      var n := |indices| - 1;
      var r := Steady(indices[..n], jitter);
      if jitter[indices[n]] > JITTER_THRESHOLD_US then r else r + [indices[n]]
  }

  lemma MedianIndex(offsets: seq<int>) returns (i: nat)
    requires offsets != []
    ensures i < |offsets| && offsets[i] == UpperMedian(offsets)
  {
    UpperMedianRank(offsets, 0);
    i :| 0 <= i < |offsets| && offsets[i] == UpperMedian(offsets);
  }

  lemma MedianDiffers(offsets: seq<int>, i: nat)
    requires i < |offsets| && DifferencesFit(offsets)
    ensures Abs(offsets[i] - UpperMedian(offsets)) <= INT64_MAX
  {
    var j := MedianIndex(offsets);
    assert Abs(offsets[i] - offsets[j]) <= INT64_MAX;
  }

  /** Storing one more selected index behind those already selected. */
  lemma Appended(before: seq<int>, out: seq<int>, x: int, initial: seq<int>)
    requires |out| < |before| == |initial|
    requires before[..|out|] == out && before[|out|..] == initial[|out|..]
    ensures var after := before[|out| := x];
      after[..|out|+1] == out + [x] && after[|out|+1..] == initial[|out|+1..]
  {
    assert before == out + initial[|out|..];
  }

  /** Fills `validIndices` with the near and steady peers among the first eight. */
  method SelectBestPeers(offsets: seq<i64>, jitter: seq<u64>, count: int, validIndices: array<int>)
    returns (rc: int, validCount: int)
    requires count <= |offsets| && count <= |jitter| && Min(count, 8) <= validIndices.Length
    requires 0 < count ==> DifferencesFit(offsets[..Min(count, 8)])
    modifies validIndices
    ensures count < 1 ==> rc == -1 && validCount == 0 && validIndices[..] == old(validIndices[..])
    ensures 0 < count ==>
      var o := offsets[..Min(count, 8)];
      var near := NearIndices(o, UpperMedian(o));
      && rc == 0
      && validCount == |Steady(near, jitter)|
      && validIndices[..][..validCount] == Steady(near, jitter)
      && validIndices[..][validCount..|near|] == near[validCount..]
      && validIndices[..][|near|..] == old(validIndices[..])[|near|..]
  {
    if count < 1 {
      return -1, 0;
    }
    var n := if count > MAX_PEERS then MAX_PEERS else count;
    var sorted := Sort(offsets[..n]);
    var median := sorted[n / 2];
    forall i | 0 <= i < n ensures Abs((offsets[i] as int) - median) <= INT64_MAX {
      MedianDiffers(offsets[..n], i);
    }
    var valid := KeepNear(offsets, n, median, validIndices);
    if valid == 0 {
      return 0, 0;
    }
    ghost var near := validIndices[..];
    assert forall j | 0 <= j < valid :: validIndices[j] == near[..valid][j];
    var jitterFiltered := KeepSteady(jitter, validIndices, valid);
    TailsAgree(near, validIndices[..], jitterFiltered, valid);
    return 0, jitterFiltered;
  }

  lemma TailsAgree(s: seq<int>, t: seq<int>, i: nat, j: nat)
    requires |s| == |t| && i <= j <= |s| && s[i..] == t[i..]
    ensures t[i..j] == s[..j][i..] && t[j..] == s[j..]
  {
    assert s[..j][i..] == s[i..][..j-i] && t[i..j] == t[i..][..j-i];
    assert s[j..] == s[i..][j-i..] && t[j..] == t[i..][j-i..];
  }

  /** The offset pass. */
  method KeepNear(offsets: seq<i64>, n: nat, median: int, validIndices: array<int>) returns (valid: nat)
    requires n <= |offsets| && n <= validIndices.Length
    requires forall i | 0 <= i < n :: Abs((offsets[i] as int) - median) <= INT64_MAX
    modifies validIndices
    ensures valid == |NearIndices(offsets[..n], median)|
    ensures validIndices[..][..valid] == NearIndices(offsets[..n], median)
    ensures validIndices[..][valid..] == old(validIndices[..])[valid..]
  {
    valid := 0;
    ghost var initial := validIndices[..];
    for i := 0 to n
      invariant valid <= i && valid == |NearIndices(offsets[..i], median)|
      invariant validIndices[..][..valid] == NearIndices(offsets[..i], median)
      invariant validIndices[..][valid..] == initial[valid..]
    {
      assert offsets[..i+1][..i] == offsets[..i];
      var diff: i64 := (offsets[i] as int) - median;
      if diff < 0 {
        diff := -diff;
      }
      if diff < FALSETICKER_THRESHOLD_US {
        Appended(validIndices[..], NearIndices(offsets[..i], median), i, initial);
        validIndices[valid] := i;
        valid := valid + 1;
      }
    }
  }

  /** The jitter pass: compacts the selected indices in place. */
  method KeepSteady(jitter: seq<u64>, validIndices: array<int>, valid: nat) returns (kept: nat)
    requires valid <= validIndices.Length
    requires forall j | 0 <= j < valid :: 0 <= validIndices[j] < |jitter|
    modifies validIndices
    ensures kept == |Steady(old(validIndices[..])[..valid], jitter)|
    ensures validIndices[..][..kept] == Steady(old(validIndices[..])[..valid], jitter)
    ensures validIndices[..][kept..] == old(validIndices[..])[kept..]
  {
    kept := 0;
    ghost var initial := validIndices[..];
    for i := 0 to valid
      invariant kept <= i && kept == |Steady(initial[..i], jitter)|
      invariant validIndices[..][..kept] == Steady(initial[..i], jitter)
      invariant validIndices[..][kept..] == initial[kept..]
    {
      assert initial[..i+1][..i] == initial[..i];
      var peerIdx := validIndices[i];
      assert peerIdx == validIndices[..][kept..][i-kept] == initial[i];
      if !(jitter[peerIdx] > JITTER_THRESHOLD_US) {
        Appended(validIndices[..], Steady(initial[..i], jitter), peerIdx, initial);
        validIndices[kept] := peerIdx;
        kept := kept + 1;
      }
    }
  }

  // ---------- the majority vote ----------

  predicate IsFalseTicker(peerOffset: int, clusterOffset: int) {
    Abs(peerOffset - clusterOffset) > FALSETICKER_THRESHOLD_US
  }

  /** The last offset near the median; zero when there is none. */
  function LastNear(offsets: seq<int>, median: int): int {
    if offsets == [] then 0
    else
      var n := |offsets| - 1;
      if Near(offsets[n], median) then offsets[n] else LastNear(offsets[..n], median)
  }

  /** The outcome of the vote. */
  function Vote(offsets: seq<int>): int {
    var n := |offsets|;
    if n == 0 then 0
    else if n == 1 then offsets[0]
    else if n == 2 then
      (if offsets[0] == offsets[1] then offsets[0] else TruncDiv(offsets[0] + offsets[1], 2))
    else
      var m := UpperMedian(offsets);
      if |NearIndices(offsets, m)| > n / 2 then LastNear(offsets, m) else m
  }

  method MajorityVote(offsets: seq<i64>, count: int) returns (r: int)
    requires count <= |offsets| && count <= MAX_PEERS
    requires 0 < count ==> DifferencesFit(offsets[..count])
    requires count == 2 ==> INT64_MIN <= (offsets[0] as int) + offsets[1] <= INT64_MAX
    ensures r == Vote(offsets[..Max(0, count)])
  {
    if count < 1 {
      return 0;
    }
    if count == 1 {
      return offsets[0];
    }
    if count < 3 {
      return if offsets[0] == offsets[1] then offsets[0] else TruncDiv((offsets[0] as int) + offsets[1], 2);
    }
    var sorted := Sort(offsets[..count]);
    var median := sorted[count / 2];
    var matchCount, matchValue := CountNear(offsets, count, median);
    if matchCount > count / 2 {
      return matchValue;
    }
    return median;
  }

  /** The counting loop of the vote. */
  method CountNear(offsets: seq<i64>, count: nat, median: int) returns (matchCount: nat, matchValue: int)
    requires count <= |offsets|
    ensures matchCount == |NearIndices(offsets[..count], median)|
    ensures matchValue == LastNear(offsets[..count], median)
  {
    matchCount, matchValue := 0, 0;
    for i := 0 to count
      invariant matchCount == |NearIndices(offsets[..i], median)|
      invariant matchValue == LastNear(offsets[..i], median)
    {
      assert offsets[..i+1][..i] == offsets[..i];
      if Abs((offsets[i] as int) - median) < FALSETICKER_THRESHOLD_US {
        matchCount := matchCount + 1;
        matchValue := offsets[i];
      }
    }
  }

  // ---------- Byzantine agreement ----------

  /** How many offsets lie in the interval. */
  function CountIn(offsets: seq<int>, lo: int, hi: int): int {
    CountBelow(offsets, hi + 1) - CountBelow(offsets, lo)
  }

  /** A strict majority inside an interval. */
  ghost predicate MajorityIn(offsets: seq<int>, lo: int, hi: int) {
    lo <= hi && 2 * CountIn(offsets, lo, hi) > |offsets|
  }

  /** If a strict majority reports offsets in an interval, so does the median, whatever the
      others report. */
  lemma MajorityHoldsMedian(offsets: seq<int>, lo: int, hi: int)
    requires MajorityIn(offsets, lo, hi)
    ensures offsets != [] && lo <= UpperMedian(offsets) <= hi
  {
    UpperMedianRank(offsets, UpperMedian(offsets));
    RankInside(offsets, |offsets| / 2, UpperMedian(offsets), lo, hi);
  }

  lemma {:induction false} NearIndicesExact(offsets: seq<int>, median: int)
    ensures forall i | 0 <= i < |offsets| :: i in NearIndices(offsets, median) <==> Near(offsets[i], median)
    ensures forall i, j | 0 <= i < j < |NearIndices(offsets, median)| ::
        NearIndices(offsets, median)[i] < NearIndices(offsets, median)[j]
  {
    if offsets != [] {
      var n := |offsets| - 1;
      NearIndicesExact(offsets[..n], median);
      assert forall i | 0 <= i < n :: offsets[..n][i] == offsets[i];
    }
  }

  lemma {:induction false} SteadyExact(indices: seq<int>, jitter: seq<u64>, i: nat)
    requires forall j | 0 <= j < |indices| :: 0 <= indices[j] < |jitter|
    requires i < |jitter|
    ensures i in Steady(indices, jitter) <==> i in indices && jitter[i] <= JITTER_THRESHOLD_US
  {
    if indices != [] {
      var n := |indices| - 1;
      SteadyExact(indices[..n], jitter, i);
      assert indices == indices[..n] + [indices[n]];
    }
  }

  /** The peers selected are exactly those near the median with acceptable jitter. */
  lemma SelectedExactly(offsets: seq<int>, jitter: seq<u64>, i: nat)
    requires i < |offsets| <= |jitter|
    ensures i in Steady(NearIndices(offsets, UpperMedian(offsets)), jitter) <==>
      -250000 < offsets[i] - UpperMedian(offsets) < 250000 && jitter[i] <= 100000
  {
    NearIndicesExact(offsets, UpperMedian(offsets));
    SteadyExact(NearIndices(offsets, UpperMedian(offsets)), jitter, i);
  }

  lemma {:induction false} NearCount(offsets: seq<int>, median: int)
    ensures |NearIndices(offsets, median)| ==
      CountIn(offsets, median - FALSETICKER_THRESHOLD_US + 1, median + FALSETICKER_THRESHOLD_US - 1)
  {
    if offsets != [] {
      var n := |offsets| - 1;
      NearCount(offsets[..n], median);
      assert offsets == offsets[..n] + [offsets[n]];
      BelowConcat(offsets[..n], [offsets[n]], median - FALSETICKER_THRESHOLD_US + 1);
      BelowConcat(offsets[..n], [offsets[n]], median + FALSETICKER_THRESHOLD_US);
    }
  }

  lemma {:induction false} LastNearIsNear(offsets: seq<int>, median: int)
    ensures NearIndices(offsets, median) != [] ==>
      LastNear(offsets, median) in offsets && Near(LastNear(offsets, median), median)
  {
    if offsets != [] {
      LastNearIsNear(offsets[..|offsets|-1], median);
    }
  }

  /** With three or more peers the vote is a reported offset near the median. */
  lemma VoteIsNear(offsets: seq<int>)
    requires |offsets| >= 3
    ensures Vote(offsets) in offsets && Near(Vote(offsets), UpperMedian(offsets))
  {
    LastNearIsNear(offsets, UpperMedian(offsets));
    UpperMedianRank(offsets, 0);
  }

  /** Byzantine agreement: when a strict majority of the peers lies in an interval narrower than
      the falseticker threshold, each of them passes the offset step, whatever the others
      report. */
  lemma MajorityPassesOffsetStep(offsets: seq<int>, lo: int, hi: int, i: nat)
    requires MajorityIn(offsets, lo, hi) && hi - lo < 250000
    requires i < |offsets| && lo <= offsets[i] <= hi
    ensures i in NearIndices(offsets, UpperMedian(offsets))
  {
    MajorityHoldsMedian(offsets, lo, hi);
    NearIndicesExact(offsets, UpperMedian(offsets));
  }

  /** With three or more peers the vote is a reported offset closer than threshold plus width to
      each peer of the majority. */
  lemma VoteIsNearMajority(offsets: seq<int>, lo: int, hi: int, i: nat)
    requires MajorityIn(offsets, lo, hi) && |offsets| >= 3
    requires i < |offsets| && lo <= offsets[i] <= hi
    ensures Vote(offsets) in offsets
    ensures Abs(Vote(offsets) - offsets[i]) < 250000 + (hi - lo)
  {
    MajorityHoldsMedian(offsets, lo, hi);
    VoteIsNear(offsets);
    var m, v := UpperMedian(offsets), Vote(offsets);
    assert -FALSETICKER_THRESHOLD_US < v - m < FALSETICKER_THRESHOLD_US;
    assert lo - hi <= m - offsets[i] <= hi - lo;
  }

  /** Two peers: the vote lies between them; it is half their sum, rounded toward zero. */
  lemma TwoPeersVoteBetween(a: int, b: int)
    requires a <= b
    ensures a <= Vote([a, b]) <= b && Vote([b, a]) == Vote([a, b])
    ensures a + b >= 0 ==> 2 * Vote([a, b]) <= a + b <= 2 * Vote([a, b]) + 1
    ensures a + b <= 0 ==> 2 * Vote([a, b]) - 1 <= a + b <= 2 * Vote([a, b])
  {
  }

  /** The last of the offsets closer than 250 ms to the median is `v`. */
  ghost predicate LastClose(offsets: seq<int>, median: int, v: int) {
    exists i ::
      && 0 <= i < |offsets| && offsets[i] == v && -250000 < v - median < 250000
      && forall j | i < j < |offsets| :: !(-250000 < offsets[j] - median < 250000)
  }

  /** One peer: its offset.  Three or more: the last offset closer than 250 ms to the median, if more
      than half of them are that close, else the median. */
  lemma VoteOutright(offsets: seq<int>)
    ensures |offsets| == 1 ==> Vote(offsets) == offsets[0]
    ensures |offsets| >= 3 ==>
      var m := UpperMedian(offsets);
      if 2 * CountIn(offsets, m - 249999, m + 249999) > |offsets| then LastClose(offsets, m, Vote(offsets))
      else Vote(offsets) == m
  {
    hide LastNear, NearIndices, CountIn, LastClose;
    if |offsets| >= 3 {
      var m := UpperMedian(offsets);
      NearCount(offsets, m);
      if |NearIndices(offsets, m)| > |offsets| / 2 {
        LastNearIsLast(offsets, m);
      }
    }
  }

  lemma {:induction false} LastNearIsLast(offsets: seq<int>, median: int)
    requires NearIndices(offsets, median) != []
    ensures LastClose(offsets, median, LastNear(offsets, median))
  {
    hide LastClose;
    if Near(offsets[|offsets|-1], median) {
      CloseAtEnd(offsets, median);
    } else {
      LastNearIsLast(offsets[..|offsets|-1], median);
      CloseBeforeEnd(offsets, median, LastNear(offsets, median));
    }
  }

  lemma CloseAtEnd(offsets: seq<int>, median: int)
    requires offsets != [] && -250000 < offsets[|offsets|-1] - median < 250000
    ensures LastClose(offsets, median, offsets[|offsets|-1])
  {
  }

  lemma CloseBeforeEnd(offsets: seq<int>, median: int, v: int)
    requires offsets != [] && !(-250000 < offsets[|offsets|-1] - median < 250000)
    requires LastClose(offsets[..|offsets|-1], median, v)
    ensures LastClose(offsets, median, v)
  {
    var n := |offsets| - 1;
    var rest := offsets[..n];
    var i :| 0 <= i < n && rest[i] == v && forall j | i < j < n :: !(-250000 < rest[j] - median < 250000);
    assert offsets[i] == v && forall j | i < j < n :: offsets[j] == rest[j];
  }

  /** Some peer reports `v`, and none behind it reports an offset near `v`. */
  ghost predicate LastOfItsKind(offsets: seq<int>, v: int) {
    exists i :: 0 <= i < |offsets| && offsets[i] == v && forall j | i < j < |offsets| :: !Near(offsets[j], v)
  }

  /** The last offset near a reported value is that value exactly when the value is the last of
      its kind. */
  lemma {:induction false} LastNearMatches(offsets: seq<int>, v: int)
    requires v in offsets
    ensures LastNear(offsets, v) == v <==> LastOfItsKind(offsets, v)
  {
    var n := |offsets| - 1;
    if offsets[n] == v {
      assert LastOfItsKind(offsets, v);
    } else if !Near(offsets[n], v) {
      var rest := offsets[..n];
      LastNearMatches(rest, v);
      if LastOfItsKind(rest, v) {
        var i :| 0 <= i < n && rest[i] == v && forall j | i < j < n :: !Near(rest[j], v);
        assert offsets[i] == v && forall j | i < j < n :: offsets[j] == rest[j];
      }
      if LastOfItsKind(offsets, v) {
        var i :| 0 <= i <= n && offsets[i] == v && forall j | i < j <= n :: !Near(offsets[j], v);
        assert rest[i] == v && forall j | i < j < n :: offsets[j] == rest[j];
      }
    }
  }

  /** With three or more peers a majority value is the median, so the vote is the last offset near
      it. */
  lemma MajorityVoteIsLastNear(offsets: seq<int>, v: int)
    requires |offsets| >= 3 && MajorityIn(offsets, v, v)
    ensures Vote(offsets) == LastNear(offsets, v)
  {
    MajorityHoldsMedian(offsets, v, v);
    NearCount(offsets, v);
    BelowMonotone(offsets, v - FALSETICKER_THRESHOLD_US + 1, v);
    BelowMonotone(offsets, v + 1, v + FALSETICKER_THRESHOLD_US);
  }

  lemma MajorityValueReported(offsets: seq<int>, v: int)
    requires MajorityIn(offsets, v, v)
    ensures v in offsets
  {
    MajorityHoldsMedian(offsets, v, v);
    UpperMedianRank(offsets, v);
  }

  lemma MajorityOfTwo(offsets: seq<int>, v: int)
    requires MajorityIn(offsets, v, v) && |offsets| <= 2
    ensures Vote(offsets) == v && offsets != [] && offsets[|offsets|-1] == v
  {
    if |offsets| == 2 {
      assert offsets == [offsets[0]] + [offsets[1]];
      BelowConcat([offsets[0]], [offsets[1]], v);
      BelowConcat([offsets[0]], [offsets[1]], v + 1);
    }
  }

  /** The vote is documented to return an offset that more than half of the peers report.  It does
      so exactly when no later peer reports a different offset near that value: some peer reports
      the value, and every peer behind it is at least the threshold away. */
  lemma VoteReturnsMajorityValue(offsets: seq<int>, v: int)
    requires MajorityIn(offsets, v, v)
    ensures Vote(offsets) == v <==>
      exists i :: 0 <= i < |offsets| && offsets[i] == v
        && forall j | i < j < |offsets| :: !(-250000 < offsets[j] - v < 250000)
  {
    hide MajorityIn, CountBelow, LastNear, Vote;
    if |offsets| <= 2 {
      MajorityOfTwo(offsets, v);
    } else {
      MajorityVoteIsLastNear(offsets, v);
      MajorityValueReported(offsets, v);
      LastNearMatches(offsets, v);
    }
  }

  /** A majority value, where there is one, is the median; so what the vote is documented to
      return, the majority value or else the median, is the median in every case. */
  lemma MajorityValueIsMedian(offsets: seq<int>, v: int)
    requires MajorityIn(offsets, v, v)
    ensures offsets != [] && UpperMedian(offsets) == v
  {
    MajorityHoldsMedian(offsets, v, v);
  }

  /** The vote returns the documented result exactly when at most half of the peers are near the
      median or, with three or more, the median is the last of its kind.  Two peers with different
      offsets are averaged: the result is the median, the larger one, only for neighbouring offsets
      that are not positive. */
  lemma VoteIsDocumented(offsets: seq<int>)
    requires offsets != []
    ensures var n, m := |offsets|, UpperMedian(offsets);
      Vote(offsets) == m <==>
        || n == 1
        || (n == 2 && (offsets[0] == offsets[1] || (Abs(offsets[0] - offsets[1]) == 1 && m <= 0)))
        || (n >= 3 && (|NearIndices(offsets, m)| <= n / 2 || LastOfItsKind(offsets, m)))
  {
    hide LastNear, LastOfItsKind, NearIndices;
    var m := UpperMedian(offsets);
    if |offsets| <= 2 {
      MedianOfTwo(offsets);
    } else {
      UpperMedianRank(offsets, m);
      LastNearMatches(offsets, m);
    }
  }

  lemma MedianOfTwo(offsets: seq<int>)
    requires 1 <= |offsets| <= 2
    ensures UpperMedian(offsets) == if |offsets| == 1 then offsets[0] else Max(offsets[0], offsets[1])
  {
    var m := if |offsets| == 1 then offsets[0] else Max(offsets[0], offsets[1]);
    if |offsets| == 2 {
      assert offsets == [offsets[0]] + [offsets[1]];
      BelowConcat([offsets[0]], [offsets[1]], m);
      BelowConcat([offsets[0]], [offsets[1]], m + 1);
    }
    UpperMedianRank(offsets, m);
  }

  /** Three offsets without a majority value, of which the vote returns neither a majority value
      nor the median. */
  lemma MedianLost()
    ensures forall v :: !MajorityIn([0, 10, 20], v, v)
    ensures UpperMedian([0, 10, 20]) == 10 && Vote([0, 10, 20]) == 20
  {
    var o := [0, 10, 20];
    forall v ensures !MajorityIn(o, v, v) {
      CountOfThree(0, 10, 20, v);
      CountOfThree(0, 10, 20, v + 1);
    }
    VoteOfCloseThree(0, 10, 20);
  }

  /** Of three ascending offsets within the threshold the vote is the last. */
  lemma VoteOfCloseThree(a: int, b: int, c: int)
    requires a < b < c && c - a < FALSETICKER_THRESHOLD_US
    ensures UpperMedian([a, b, c]) == b && Vote([a, b, c]) == c
  {
    hide CountBelow, NearIndices;
    var o := [a, b, c];
    CountOfThree(a, b, c, b);
    CountOfThree(a, b, c, b + 1);
    UpperMedianRank(o, b);
    NearCount(o, b);
    CountOfThree(a, b, c, b - FALSETICKER_THRESHOLD_US + 1);
    CountOfThree(a, b, c, b + FALSETICKER_THRESHOLD_US);
  }

  lemma CountOfThree(a: int, b: int, c: int, x: int)
    ensures CountBelow([a, b, c], x) == (if a < x then 1 else 0) + (if b < x then 1 else 0) + (if c < x then 1 else 0)
  {
    BelowConcat([a, b], [c], x);
    BelowConcat([a], [b], x);
    assert [a, b, c] == [a, b] + [c] && [a, b] == [a] + [b];
  }

  /** A majority of identical offsets that is outvoted by one late neighbour. */
  lemma MajorityValueLost()
    ensures MajorityIn([0, 0, 100], 0, 0) && Vote([0, 0, 100]) == 100
  {
    var o := [0, 0, 100];
    assert o[1..] == [0, 100] && o[1..][1..] == [100] && o[1..][1..][1..] == [];
    MajorityVoteIsLastNear(o, 0);
  }

  /** A peer that passes the offset step is never called a falseticker; the two tests disagree
      exactly on offsets at the threshold distance. */
  lemma NearIsNotFalse(offset: int, median: int)
    ensures !IsFalseTicker(offset, median) <==>
      Near(offset, median) || Abs(offset - median) == 250000
  {
  }

  // ---------- the combined system offset ----------

  function Clamp8(v: int): i8 {
    Max(-128, Min(127, v))
  }

  /** Runs the falseticker test and the vote, and returns the clamped offset as a byte. */
  method ComputeSystemOffset(offsets: seq<i64>, count: int) returns (r: u8)
    requires count <= |offsets| && count <= MAX_PEERS
    requires 0 < count ==> DifferencesFit(offsets[..count])
    requires count == 2 ==> INT64_MIN <= (offsets[0] as int) + offsets[1] <= INT64_MAX
    ensures count < 1 ==> r == 16
    ensures 0 < count ==> SignedByte(r) == Clamp8(Vote(offsets[..count]))
    ensures 0 < count ==>
      var v := Vote(offsets[..count]);
      r == if v >= 127 then 127 else if v <= -128 then 128 else if v >= 0 then v else 256 + v
  {
    if count < 1 {
      return 16;
    }
    var sorted := Sort(offsets[..count]);
    var valid := CountTruechimers(offsets, count, sorted[count / 2]);
    // the median peer is never a falseticker, so the source's error exit here is dead
    if valid == 0 {
      assert false;
    }
    var majority := MajorityVote(offsets, count);
    if majority > 127 {
      majority := 127;
    }
    if majority < -128 {
      majority := -128;
    }
    return UnsignedByte(majority);
  }

  /** The result is documented as 0 to 15, with 16 for an error.  For any peers at all, 16 is also
      what a vote of 16 gives, and the documented range is left by every other vote outside it. */
  lemma SixteenIsOrdinary(offsets: seq<int>, r: u8)
    requires SignedByte(r) == Clamp8(Vote(offsets))
    ensures r == 16 <==> Vote(offsets) == 16
    ensures r <= 15 <==> 0 <= Vote(offsets) <= 15
    ensures Vote([16]) == 16
  {
  }

  method CountTruechimers(offsets: seq<i64>, count: nat, median: int) returns (valid: nat)
    requires 0 < count <= |offsets| && median == UpperMedian(offsets[..count])
    ensures valid > 0
  {
    valid := 0;
    ghost var at := MedianIndex(offsets[..count]);
    for i := 0 to count
      invariant at < i ==> 0 < valid
    {
      if !IsFalseTicker(offsets[i], median) {
        valid := valid + 1;
      }
    }
  }

}
