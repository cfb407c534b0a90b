/** Order statistics by counting: a value has rank `r` in a sequence when at most `r` entries
    lie below it and more than `r` entries lie at or below it.  This definition never mentions
    sorting, so it is the independent yardstick for the sorting medians of the daemon. */
module OrderStatistics {

  predicate Sorted(s: seq<int>) {
    forall i, j | 0 <= i < j < |s| :: s[i] <= s[j]
  }

  /** How many entries are smaller than `x`. */
  function CountBelow(s: seq<int>, x: int): (c: nat)
    ensures c <= |s|
  {
    if s == [] then 0 else (if s[0] < x then 1 else 0) + CountBelow(s[1..], x)
  }

  predicate IsRank(s: seq<int>, r: int, m: int) {
    CountBelow(s, m) <= r < CountBelow(s, m + 1)
  }

  // ---------- counting ----------

  lemma {:induction false} BelowMonotone(s: seq<int>, a: int, b: int)
    requires a <= b
    ensures CountBelow(s, a) <= CountBelow(s, b)
  {
    if s != [] {
      BelowMonotone(s[1..], a, b);
    }
  }

  lemma {:induction false} BelowConcat(s: seq<int>, t: seq<int>, x: int)
    ensures CountBelow(s + t, x) == CountBelow(s, x) + CountBelow(t, x)
  {
    if s == [] {
      assert s + t == t;
    } else {
      BelowConcat(s[1..], t, x);
      assert (s + t)[1..] == s[1..] + t;
    }
  }

  /** Removing one entry removes exactly its own contribution. */
  lemma BelowRemove(s: seq<int>, i: nat, x: int)
    requires i < |s|
    ensures CountBelow(s, x) == CountBelow(s[..i] + s[i+1..], x) + (if s[i] < x then 1 else 0)
  {
    assert s == s[..i] + ([s[i]] + s[i+1..]);
    BelowConcat(s[..i], [s[i]] + s[i+1..], x);
    BelowConcat([s[i]], s[i+1..], x);
    BelowConcat(s[..i], s[i+1..], x);
  }

  lemma DropCommon(s: seq<int>, t: seq<int>, j: nat)
    requires multiset(s) == multiset(t) && s != [] && j < |t| && t[j] == s[0]
    ensures multiset(s[1..]) == multiset(t[..j] + t[j+1..])
  {
    assert s == [s[0]] + s[1..];
    assert t == t[..j] + [t[j]] + t[j+1..];
    assert multiset(s) - multiset{s[0]} == multiset(s[1..]);
    assert multiset(t) - multiset{t[j]} == multiset(t[..j] + t[j+1..]);
  }

  /** The count depends on the entries only, not on their order. */
  lemma {:induction false} BelowPermutation(s: seq<int>, t: seq<int>, x: int)
    requires multiset(s) == multiset(t)
    ensures |s| == |t| && CountBelow(s, x) == CountBelow(t, x)
    decreases |s|
  {
    assert |s| == |multiset(s)| == |multiset(t)| == |t|;
    if s != [] {
      assert s[0] in multiset(t);
      var j :| 0 <= j < |t| && t[j] == s[0];
      DropCommon(s, t, j);
      BelowPermutation(s[1..], t[..j] + t[j+1..], x);
      BelowRemove(t, j, x);
    }
  }

  // ---------- ranks ----------

  /** A rank determines its value. */
  lemma RankUnique(s: seq<int>, r: int, a: int, b: int)
    requires IsRank(s, r, a) && IsRank(s, r, b)
    ensures a == b
  {
    if a < b {
      BelowMonotone(s, a + 1, b);
    } else if b < a {
      BelowMonotone(s, b + 1, a);
    }
  }

  /** The counts on both sides of an interval confine the value of a rank. */
  lemma RankInside(s: seq<int>, r: int, m: int, lo: int, hi: int)
    requires IsRank(s, r, m)
    requires CountBelow(s, lo) <= r < CountBelow(s, hi + 1)
    ensures lo <= m <= hi
  {
    if m < lo {
      BelowMonotone(s, m + 1, lo);
    } else if hi < m {
      BelowMonotone(s, hi + 1, m);
    }
  }

  lemma {:induction false} AllBelow(s: seq<int>, x: int)
    requires forall i | 0 <= i < |s| :: s[i] < x
    ensures CountBelow(s, x) == |s|
  {
    if s != [] {
      AllBelow(s[1..], x);
    }
  }

  lemma {:induction false} NoneBelow(s: seq<int>, x: int)
    requires forall i | 0 <= i < |s| :: x <= s[i]
    ensures CountBelow(s, x) == 0
  {
    if s != [] {
      NoneBelow(s[1..], x);
    }
  }

  /** In a sorted sequence the entry at index `r` has rank `r`. */
  lemma SortedRank(s: seq<int>, r: nat)
    requires Sorted(s) && r < |s|
    ensures IsRank(s, r, s[r])
  {
    assert s == s[..r] + s[r..] && s == s[..r+1] + s[r+1..];
    BelowConcat(s[..r], s[r..], s[r]);
    NoneBelow(s[r..], s[r]);
    BelowConcat(s[..r+1], s[r+1..], s[r] + 1);
    AllBelow(s[..r+1], s[r] + 1);
  }

  // ---------- sorting ----------

  function Insert(x: int, s: seq<int>): seq<int> {
    if s == [] || x <= s[0] then [x] + s else [s[0]] + Insert(x, s[1..])
  }

  lemma {:induction false} InsertKeepsSorted(x: int, s: seq<int>)
    requires Sorted(s)
    ensures Sorted(Insert(x, s)) && multiset(Insert(x, s)) == multiset(s) + multiset{x}
  {
    if s != [] && s[0] < x {
      InsertKeepsSorted(x, s[1..]);
      assert s == [s[0]] + s[1..];
      LeastInFront(s[0], x, s[1..], Insert(x, s[1..]));
    }
  }

  lemma LeastInFront(a: int, x: int, s: seq<int>, t: seq<int>)
    requires a < x && (forall i | 0 <= i < |s| :: a <= s[i])
    requires Sorted(t) && multiset(t) == multiset(s) + multiset{x}
    ensures Sorted([a] + t)
  {
    forall i | 0 <= i < |t| ensures a <= t[i] {
      assert t[i] in multiset(t);
      assert t[i] == x || t[i] in s;
    }
  }

  /** The library sort: ascending, and the same entries. */
  function Sort(s: seq<int>): (r: seq<int>)
    ensures Sorted(r) && multiset(r) == multiset(s) && |r| == |s|
  {
    if s == [] then []
    else
      assert s == [s[0]] + s[1..];
      InsertKeepsSorted(s[0], Sort(s[1..]));
      var r := Insert(s[0], Sort(s[1..]));
      assert |multiset(r)| == |multiset(s)|;
      r
  }

  /** Two ascending arrangements of the same entries are equal. */
  lemma SortedUnique(s: seq<int>, t: seq<int>)
    requires Sorted(s) && Sorted(t) && multiset(s) == multiset(t)
    ensures s == t
  {
    BelowPermutation(s, t, 0);
    forall r | 0 <= r < |s| ensures s[r] == t[r] {
      SortedRank(s, r);
      SortedRank(t, r);
      BelowPermutation(s, t, s[r]);
      BelowPermutation(s, t, s[r] + 1);
      RankUnique(t, r, s[r], t[r]);
    }
  }

  function LowerMedian(s: seq<int>): int
    requires s != []
  {
    Sort(s)[(|s| - 1) / 2]
  }

  function UpperMedian(s: seq<int>): int
    requires s != []
  {
    Sort(s)[|s| / 2]
  }

  /** For an even number of entries the lower median is the average of the two middle entries only
      when these are equal or neighbours. */
  lemma LowerMedianIsNotAverage(s: seq<int>)
    requires s != [] && |s| % 2 == 0
    ensures LowerMedian(s) <= UpperMedian(s)
    ensures LowerMedian(s) == (LowerMedian(s) + UpperMedian(s)) / 2 <==> UpperMedian(s) - LowerMedian(s) <= 1
  {
  }

  /** Sorting and indexing finds the value of each rank of the unsorted input. */
  lemma SortRank(s: seq<int>, r: nat)
    requires r < |s|
    ensures IsRank(s, r, Sort(s)[r]) && Sort(s)[r] in s
  {
    SortedRank(Sort(s), r);
    BelowPermutation(s, Sort(s), Sort(s)[r]);
    BelowPermutation(s, Sort(s), Sort(s)[r] + 1);
    assert Sort(s)[r] in multiset(Sort(s));
  }

  lemma LowerMedianRank(s: seq<int>, m: int)
    requires s != []
    ensures LowerMedian(s) in s
    ensures IsRank(s, (|s| - 1) / 2, m) <==> m == LowerMedian(s)
  {
    var r := (|s| - 1) / 2;
    SortRank(s, r);
    if IsRank(s, r, m) {
      RankUnique(s, r, m, LowerMedian(s));
    }
  }

  lemma UpperMedianRank(s: seq<int>, m: int)
    requires s != []
    ensures UpperMedian(s) in s
    ensures IsRank(s, |s| / 2, m) <==> m == UpperMedian(s)
  {
    var r := |s| / 2;
    SortRank(s, r);
    if IsRank(s, r, m) {
      RankUnique(s, r, m, UpperMedian(s));
    }
  }

  // ---------- robustness ----------

  /** How many positions of `s` were replaced in `t`. */
  function Replaced(s: seq<int>, t: seq<int>): nat
    requires |s| == |t|
  {
    if s == [] then 0 else (if s[0] != t[0] then 1 else 0) + Replaced(s[1..], t[1..])
  }

  lemma {:induction false} ReplacedBoundsCounts(s: seq<int>, t: seq<int>, lo: int, hi: int)
    requires |s| == |t|
    requires forall i | 0 <= i < |s| && s[i] == t[i] :: lo <= s[i] <= hi
    ensures CountBelow(t, lo) <= Replaced(s, t)
    ensures |t| - CountBelow(t, hi + 1) <= Replaced(s, t)
  {
    if s != [] {
      assert forall i | 0 <= i < |s[1..]| && s[1..][i] == t[1..][i] ::
          s[i+1] == t[i+1] && lo <= s[1..][i] <= hi;
      ReplacedBoundsCounts(s[1..], t[1..], lo, hi);
    }
  }

  /** If fewer than half of the entries are replaced by arbitrary values, the lower median stays
      between any bounds of the untouched entries. */
  lemma MedianBreakdown(s: seq<int>, t: seq<int>, lo: int, hi: int)
    requires |s| == |t| > 0 && 2 * Replaced(s, t) < |s|
    requires forall i | 0 <= i < |s| && s[i] == t[i] :: lo <= s[i] <= hi
    ensures lo <= LowerMedian(t) <= hi
  {
    ReplacedBoundsCounts(s, t, lo, hi);
    LowerMedianRank(t, LowerMedian(t));
    RankInside(t, (|t| - 1) / 2, LowerMedian(t), lo, hi);
  }

  /** The bound of `MedianBreakdown` is the best possible: replacing exactly half of an even
      number of entries can drag the lower median anywhere below the rest. */
  lemma {:induction false} HalfReplacedBreaks(s: seq<int>, p: nat, v: int)
    requires |s| == 2 * p > 0
    requires forall i | 0 <= i < |s| :: v < s[i]
    ensures exists t: seq<int> :: |t| == |s| && Replaced(s, t) == p && LowerMedian(t) == v
  {
    var t := seq(p, _ => v) + s[p..];
    ReplacedPrefix(s, t, p);
    LowHalfHoldsMedian(t, p, v);
  }

  lemma LowHalfHoldsMedian(t: seq<int>, p: nat, v: int)
    requires |t| == 2 * p > 0
    requires forall i | 0 <= i < p :: t[i] == v
    requires forall i | p <= i < |t| :: v < t[i]
    ensures LowerMedian(t) == v
  {
    hide CountBelow, LowerMedian;
    var bad, rest := t[..p], t[p..];
    assert t == bad + rest;
    BelowConcat(bad, rest, v);
    BelowConcat(bad, rest, v + 1);
    AllBelow(bad, v + 1);
    NoneBelow(bad, v);
    NoneBelow(rest, v);
    LowerMedianRank(t, v);
  }

  lemma {:induction false} ReplacedPrefix(s: seq<int>, t: seq<int>, p: nat)
    requires |s| == |t| && p <= |s|
    requires forall i | 0 <= i < |s| :: s[i] != t[i] <==> i < p
    ensures Replaced(s, t) == p
    decreases |s|
  {
    if s != [] {
      ReplacedPrefix(s[1..], t[1..], if p == 0 then 0 else p - 1);
    }
  }
}
