/** The in-place median of the outlier filter: a bubble sort of a work array, and the saturating
    threshold computed from the median and the median absolute deviation. */
module MarxMedian {
  import opened Words
  import opened OrderStatistics

  /** `t` is an arrangement of `s` whose entries from `b` on are final: they are ascending and
      no entry before them is larger. */
  ghost predicate TailDone(s: seq<int>, t: seq<int>, b: int) {
    && 0 <= b <= |t| == |s|
    && multiset(t) == multiset(s)
    && Sorted(t[b..])
    && forall p, q | 0 <= p < b <= q < |t| :: t[p] <= t[q]
  }

  lemma SwapKeepsEntries(s: seq<int>, j: nat)
    requires j + 1 < |s|
    ensures multiset(s[j := s[j+1]][j+1 := s[j]]) == multiset(s)
  {
    assert s == s[..j] + [s[j], s[j+1]] + s[j+2..];
    assert s[j := s[j+1]][j+1 := s[j]] == s[..j] + [s[j+1], s[j]] + s[j+2..];
  }

  /** One bubble pass over the open part `t[..b]` finishes one more entry. */
  lemma PassGrowsTail(s: seq<int>, t: seq<int>, t': seq<int>, b: int)
    requires TailDone(s, t, b) && 0 < b && |t'| == |t|
    requires multiset(t'[..b]) == multiset(t[..b]) && t'[b..] == t[b..]
    requires forall p | 0 <= p < b :: t'[p] <= t'[b-1]
    ensures TailDone(s, t', b - 1)
  {
    assert t == t[..b] + t[b..] && t' == t'[..b] + t'[b..];
    forall p, q | 0 <= p < b <= q < |t| ensures t'[p] <= t'[q] {
      assert t'[p] in multiset(t[..b]);
      var k :| 0 <= k < b && t[..b][k] == t'[p];
      assert t[k] <= t[q] == t[b..][q-b] == t'[b..][q-b];
    }
    assert t'[b-1..] == [t'[b-1]] + t[b..];
  }

  lemma PassStep(s: seq<int>, pre: seq<int>, post: seq<int>, count: nat, b: nat)
    requires 0 < b <= count <= |pre| == |post|
    requires TailDone(s, pre[..count], b)
    requires multiset(post[..b]) == multiset(pre[..b]) && post[b..] == pre[b..]
    requires forall p | 0 <= p < b :: post[p] <= post[b-1]
    ensures TailDone(s, post[..count], b - 1) && post[count..] == pre[count..]
  {
    assert pre[..count][..b] == pre[..b] && post[..count][..b] == post[..b];
    assert pre[..count][b..] == pre[b..][..count-b] && post[..count][b..] == post[b..][..count-b];
    assert pre[count..] == pre[b..][count-b..] && post[count..] == post[b..][count-b..];
    PassGrowsTail(s, pre[..count], post[..count], b);
  }

  /** The inner loop: swaps neighbours so that the largest of the first `b` entries ends last. */
  method BubblePass(arr: array<u64>, b: nat)
    requires 0 < b <= arr.Length
    modifies arr
    ensures multiset(arr[..][..b]) == multiset(old(arr[..])[..b]) && arr[..][b..] == old(arr[..])[b..]
    ensures forall p | 0 <= p < b :: arr[p] <= arr[b-1]
  {
    for j := 0 to b - 1
      invariant multiset(arr[..][..b]) == multiset(old(arr[..])[..b]) && arr[..][b..] == old(arr[..])[b..]
      invariant forall p | 0 <= p < j :: arr[p] <= arr[j]
    {
      if arr[j] > arr[j + 1] {
        ghost var before := arr[..][..b];
        var tmp := arr[j];
        arr[j] := arr[j + 1];
        arr[j + 1] := tmp;
        SwapKeepsEntries(before, j);
        assert arr[..][..b] == before[j := before[j+1]][j+1 := before[j]];
      }
    }
  }

  /** The outer loop: sorts the first `count` entries. */
  method BubbleSort(arr: array<u64>, count: nat)
    requires 0 < count <= arr.Length
    modifies arr
    ensures arr[..][..count] == Sort(old(arr[..])[..count])
    ensures arr[..][count..] == old(arr[..])[count..]
  {
    ghost var input: seq<int> := arr[..][..count];
    for i := 0 to count - 1
      invariant TailDone(input, arr[..][..count], count - i) && arr[..][count..] == old(arr[..])[count..]
    {
      ghost var before := arr[..];
      BubblePass(arr, count - i);
      PassStep(input, before, arr[..], count, count - i);
    }
    FinishedIsSorted(input, arr[..][..count]);
  }

  /** The lower of the two middle indices, or the middle one. */
  function Middle(count: nat): (i: nat)
    requires 0 < count
    ensures i == (count - 1) / 2 < count
  {
    if count % 2 == 0 then count / 2 - 1 else count / 2
  }

  /** Sorts the first `count` entries of `arr` and returns their lower median; a count that is
      not positive changes nothing and yields zero. */
  method Median(arr: array<u64>, count: int) returns (m: u64)
    requires count <= arr.Length
    modifies arr
    ensures count <= 0 ==> m == 0 && arr[..] == old(arr[..])
    ensures 0 < count ==> arr[..][..count] == Sort(old(arr[..])[..count])
    ensures 0 < count ==> arr[..][count..] == old(arr[..])[count..]
    ensures 0 < count ==> m == LowerMedian(old(arr[..])[..count])
  {
    if count <= 0 {
      return 0;
    }
    BubbleSort(arr, count);
    m := arr[Middle(count)];
  }

  lemma FinishedIsSorted(s: seq<int>, t: seq<int>)
    requires TailDone(s, t, 1)
    ensures t == Sort(s)
  {
    assert forall i | 1 <= i < |t| :: t[i] == t[1..][i-1];
    SortedUnique(t, Sort(s));
  }

  // ---------- the threshold ----------

  function AbsDev(d: u64, median: u64): u64 {
    if d > median then d - median else median - d
  }

  function AbsDevs(delays: seq<u64>, median: u64): (r: seq<u64>)
    ensures |r| == |delays|
  {
    seq(|delays|, i requires 0 <= i < |delays| => AbsDev(delays[i], median))
  }

  /** A C `int` converted to an unsigned 64-bit word. */
  function ToUnsigned64(k: i32): u64 {
    k % 0x1_0000_0000_0000_0000
  }

  /** The cascade of saturation tests, branch by branch. */
  function Threshold(median: u64, mad: u64, k: i32): u64 {
    var kmad: u64 :=
      if mad == 0 then 0
      else if k == 0 then 0
      else
        var k64 := ToUnsigned64(k);
        if k64 > UINT64_MAX / mad then UINT64_MAX
        else
          assert k64 * mad <= UINT64_MAX by {
            ProductFits(k64, mad);
          }
          var product: u64 := k64 * mad;
          if product > UINT64_MAX - median then UINT64_MAX else product;
    if kmad == 0 then median
    else if kmad > UINT64_MAX - median then UINT64_MAX
    else median + kmad
  }

  lemma MulMonotone(a: nat, a': nat, b: nat)
    requires a <= a'
    ensures a * b <= a' * b
  {
  }

  lemma ProductFits(a: nat, b: nat)
    requires b > 0
    ensures a <= UINT64_MAX / b <==> a * b <= UINT64_MAX
  {
    var q := UINT64_MAX / b;
    assert q * b + UINT64_MAX % b == UINT64_MAX;
    if a <= q {
      MulMonotone(a, q, b);
    } else {
      MulMonotone(q + 1, a, b);
      assert (q + 1) * b == q * b + b;
    }
  }

  /** The cascade is the exact sum, saturated once: no intermediate result wraps.  A negative
      multiplier counts as its unsigned 64-bit image. */
  lemma ThresholdSaturates(median: u64, mad: u64, k: i32)
    ensures Threshold(median, mad, k) == Min(UINT64_MAX, median + ToUnsigned64(k) * mad)
    ensures k >= 0 ==> Threshold(median, mad, k) == Min(0xFFFF_FFFF_FFFF_FFFF, median + k * mad)
    ensures k < 0 ==>
      Threshold(median, mad, k) == Min(0xFFFF_FFFF_FFFF_FFFF, median + (0x1_0000_0000_0000_0000 + k) * mad)
    ensures median <= Threshold(median, mad, k)
  {
    if mad != 0 {
      ProductFits(ToUnsigned64(k), mad);
    }
    MulMonotone(0, ToUnsigned64(k), mad);
  }

  lemma ThresholdMonotone(median: u64, mad: u64, k: i32, k': i32)
    requires 0 <= k <= k'
    ensures median <= Threshold(median, mad, k) <= Threshold(median, mad, k')
  {
    ThresholdSaturates(median, mad, k);
    ThresholdSaturates(median, mad, k');
    MulMonotone(k, k', mad);
  }
}
