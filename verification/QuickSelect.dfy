/**
  The selection routine of utils.c: an in-place Hoare partition whose scans carry no
  bounds check, and the median and median absolute deviation built on it.
  Doubles are modelled as reals.
*/
module QuickSelect {

  // ----- what "the element of rank k" means, without any algorithm -----

  function CountBelow(s: seq<real>, v: real): nat {
    if s == [] then 0 else (if s[0] < v then 1 else 0) + CountBelow(s[1..], v)
  }

  function CountAtMost(s: seq<real>, v: real): nat {
    if s == [] then 0 else (if s[0] <= v then 1 else 0) + CountAtMost(s[1..], v)
  }

  /** v is the value at position k of s once s is put in order */
  predicate HasRank(s: seq<real>, k: nat, v: real) {
    CountBelow(s, v) <= k < CountAtMost(s, v)
  }

  predicate IsMedian(s: seq<real>, v: real)
    requires |s| >= 1
  {
    HasRank(s, (|s| - 1) / 2, v)
  }

  predicate Sorted(s: seq<real>) {
    forall i, j :: 0 <= i < j < |s| ==> s[i] <= s[j]
  }

  ghost predicate Permutes(s: seq<real>, t: seq<real>) {
    multiset(s) == multiset(t)
  }

  function Abs(x: real): (r: real)
    ensures r >= 0.0 && (r == x || r == -x)
  {
    if x < 0.0 then -x else x
  }

  /** The absolute deviations of s from v, in the order of s */
  function Deviations(s: seq<real>, v: real): (d: seq<real>)
    ensures |d| == |s| && forall i :: 0 <= i < |s| ==> d[i] == Abs(s[i] - v)
  {
    seq(|s|, i requires 0 <= i < |s| => Abs(s[i] - v))
  }

  // ----- properties of rank -----

  lemma {:induction false} CountsAreOrdered(s: seq<real>, v: real, w: real)
    requires v < w
    ensures CountAtMost(s, v) <= CountBelow(s, w)
  {
    if s != [] {
      CountsAreOrdered(s[1..], v, w);
    }
  }

  /** At most one value has a given rank */
  lemma RankIsUnique(s: seq<real>, k: nat, v: real, w: real)
    requires HasRank(s, k, v) && HasRank(s, k, w)
    ensures v == w
  {
    if v < w {
      CountsAreOrdered(s, v, w);
    } else if w < v {
      CountsAreOrdered(s, w, v);
    }
  }

  lemma {:induction false} CountsOfConcat(s: seq<real>, t: seq<real>, v: real)
    ensures CountBelow(s + t, v) == CountBelow(s, v) + CountBelow(t, v)
    ensures CountAtMost(s + t, v) == CountAtMost(s, v) + CountAtMost(t, v)
  {
    if s == [] {
      assert s + t == t;
    } else {
      assert (s + t)[1..] == s[1..] + t;
      CountsOfConcat(s[1..], t, v);
    }
  }

  lemma {:induction false} CountsOfBounded(s: seq<real>, v: real)
    ensures CountBelow(s, v) <= |s| && CountAtMost(s, v) <= |s|
    ensures (forall i :: 0 <= i < |s| ==> s[i] <= v) ==> CountAtMost(s, v) == |s|
    ensures (forall i :: 0 <= i < |s| ==> s[i] >= v) ==> CountBelow(s, v) == 0
  {
    if s != [] {
      assert forall i :: 0 <= i < |s[1..]| ==> s[1..][i] == s[i + 1];
      CountsOfBounded(s[1..], v);
    }
  }

  /** An element with nothing larger on its left and nothing smaller on its right has its index as rank */
  lemma PartitionedHasRank(s: seq<real>, k: nat)
    requires k < |s|
    requires forall i :: 0 <= i < k ==> s[i] <= s[k]
    requires forall i :: k < i < |s| ==> s[k] <= s[i]
    ensures HasRank(s, k, s[k])
  {
    var v := s[k];
    var lo, hi := s[..k], s[k..];
    assert s == lo + hi;
    CountsOfConcat(lo, hi, v);
    CountsOfBounded(lo, v);
    CountsOfBounded(hi, v);
    assert CountAtMost(lo, v) == k;
    assert hi[0] == v;
  }

  lemma MultisetWithout(s: seq<real>, j: nat)
    requires j < |s|
    ensures multiset(s) == multiset(s[..j] + s[j + 1..]) + multiset{s[j]}
  {
    assert s == s[..j] + ([s[j]] + s[j + 1..]);
  }

  /** Removing one occurrence, as a step of the inductions over permutations */
  lemma PermutesTail(s: seq<real>, t: seq<real>) returns (j: nat)
    requires s != [] && Permutes(s, t)
    ensures j < |t| && t[j] == s[0]
    ensures Permutes(s[1..], t[..j] + t[j + 1..])
  {
    assert s[0] in multiset(t);
    j :| 0 <= j < |t| && t[j] == s[0];
    MultisetWithout(t, j);
    MultisetWithout(s, 0);
    assert s[..0] + s[1..] == s[1..];
    CancelOne(multiset(s[1..]), multiset(t[..j] + t[j + 1..]), s[0]);
  }

  lemma CancelOne(u: multiset<real>, w: multiset<real>, x: real)
    requires u + multiset{x} == w + multiset{x}
    ensures u == w
  {
    assert u == u + multiset{x} - multiset{x};
  }

  lemma {:induction false} CountsOfPermutation(s: seq<real>, t: seq<real>, v: real)
    requires Permutes(s, t)
    ensures CountBelow(s, v) == CountBelow(t, v) && CountAtMost(s, v) == CountAtMost(t, v)
    decreases |s|
  {
    if s == [] {
      assert |multiset(t)| == 0;
      assert t == [];
    } else {
      var j := PermutesTail(s, t);
      var rest := t[..j] + t[j + 1..];
      CountsOfPermutation(s[1..], rest, v);
      assert t == t[..j] + ([t[j]] + t[j + 1..]);
      CountsOfConcat(t[..j], t[j + 1..], v);
      CountsOfConcat(t[..j], [t[j]] + t[j + 1..], v);
      CountsOfConcat([t[j]], t[j + 1..], v);
      CountsOfSingleton(t[j], v);
    }
  }

  lemma CountsOfSingleton(x: real, v: real)
    ensures CountBelow([x], v) == (if x < v then 1 else 0)
    ensures CountAtMost([x], v) == (if x <= v then 1 else 0)
  {
    assert [x][1..] == [];
  }

  /** A rank names the same value as the slot of that number in any sorted rearrangement */
  lemma RankIsSortedSlot(s: seq<real>, t: seq<real>, k: nat, v: real)
    requires Permutes(s, t) && Sorted(t) && k < |s|
    ensures |s| == |t| && (HasRank(s, k, v) <==> v == t[k])
  {
    assert |multiset(s)| == |multiset(t)|;
    PartitionedHasRank(t, k);
    CountsOfPermutation(s, t, t[k]);
    if HasRank(s, k, v) {
      RankIsUnique(s, k, v, t[k]);
    }
  }

  /** Counting below a bound in the deviations does not depend on the order of the values */
  lemma {:induction false} DeviationCounts(s: seq<real>, t: seq<real>, v: real, w: real)
    requires Permutes(s, t)
    ensures CountBelow(Deviations(s, v), w) == CountBelow(Deviations(t, v), w)
    ensures CountAtMost(Deviations(s, v), w) == CountAtMost(Deviations(t, v), w)
    decreases |s|
  {
    if s == [] {
      assert |multiset(t)| == 0;
      assert t == [];
    } else {
      var j := PermutesTail(s, t);
      DeviationCounts(s[1..], t[..j] + t[j + 1..], v, w);
      DeviationCountsWithout(t, j, v, w);
      DeviationCountsWithout(s, 0, v, w);
      assert s[..0] + s[1..] == s[1..];
    }
  }

  lemma DeviationCountsWithout(s: seq<real>, j: nat, v: real, w: real)
    requires j < |s|
    ensures var rest := Deviations(s[..j] + s[j + 1..], v); var x := Abs(s[j] - v);
            && CountBelow(Deviations(s, v), w) == CountBelow(rest, w) + (if x < w then 1 else 0)
            && CountAtMost(Deviations(s, v), w) == CountAtMost(rest, w) + (if x <= w then 1 else 0)
  {
    var d := Deviations(s, v);
    assert Deviations(s[..j] + s[j + 1..], v) == d[..j] + d[j + 1..];
    assert d == d[..j] + ([d[j]] + d[j + 1..]);
    CountsOfConcat(d[..j], d[j + 1..], w);
    CountsOfConcat(d[..j], [d[j]] + d[j + 1..], w);
    CountsOfConcat([d[j]], d[j + 1..], w);
    CountsOfSingleton(d[j], w);
  }

  // ----- the algorithm -----

  /** Nothing before position low exceeds anything from low on */
  ghost predicate SplitAt(s: seq<real>, low: int) {
    forall i, j :: 0 <= i < low <= j < |s| ==> s[i] <= s[j]
  }

  /** s[k] is where it would be in a sorted rearrangement */
  ghost predicate Settled(s: seq<real>, k: int) {
    0 <= k < |s| && SplitAt(s, k) && SplitAt(s, k + 1)
  }

  /** t is s with the entries low..high rearranged among themselves */
  ghost predicate RearrangedWithin(s: seq<real>, t: seq<real>, low: int, high: int)
    requires 0 <= low <= high + 1 <= |s|
  {
    && |t| == |s|
    && t[..low] == s[..low]
    && Permutes(t[low..high + 1], s[low..high + 1])
    && t[high + 1..] == s[high + 1..]
  }

  lemma SwapRearranges(s: seq<real>, i: int, j: int, low: int, high: int)
    requires 0 <= low <= i <= high < |s| && low <= j <= high
    ensures RearrangedWithin(s, s[i := s[j]][j := s[i]], low, high)
  {
    var t := s[i := s[j]][j := s[i]];
    assert t[low..high + 1] == s[low..high + 1][i - low := s[j]][j - low := s[i]];
  }

  lemma RearrangedPermutes(s: seq<real>, t: seq<real>, low: int, high: int)
    requires 0 <= low <= high + 1 <= |s| && RearrangedWithin(s, t, low, high)
    ensures Permutes(s, t)
  {
    assert s == s[..low] + s[low..high + 1] + s[high + 1..];
    assert t == t[..low] + t[low..high + 1] + t[high + 1..];
  }

  lemma RearrangedEntry(s: seq<real>, t: seq<real>, low: int, high: int, k: int) returns (j: int)
    requires 0 <= low <= k <= high < |s| && RearrangedWithin(s, t, low, high)
    ensures low <= j <= high && t[k] == s[j]
  {
    assert t[low..high + 1][k - low] in multiset(t[low..high + 1]);
    assert t[k] in s[low..high + 1];
    var m :| 0 <= m < |s[low..high + 1]| && s[low..high + 1][m] == t[k];
    j := m + low;
  }

  /** Rearranging inside a range keeps the order between the range and both sides of it */
  lemma RearrangedKeepsSplits(s: seq<real>, t: seq<real>, low: int, high: int)
    requires 0 <= low <= high < |s| && RearrangedWithin(s, t, low, high)
    requires SplitAt(s, low) && SplitAt(s, high + 1)
    ensures SplitAt(t, low) && SplitAt(t, high + 1)
  {
    forall i | 0 <= i < |s|
      ensures i < low || high < i ==> t[i] == s[i]
    {
      if i < low {
        assert t[..low][i] == s[..low][i];
      } else if high < i {
        assert t[high + 1..][i - high - 1] == s[high + 1..][i - high - 1];
      }
    }
    forall k | low <= k <= high
      ensures forall i :: 0 <= i < low ==> t[i] <= t[k]
      ensures forall i :: high < i < |s| ==> t[k] <= t[i]
    {
      var j := RearrangedEntry(s, t, low, high, k);
    }
  }

  /**
    Order the first, middle and last element of the range so that the middle one lands in
    position low, then move the smallest to low + 1: the two ends become sentinels.
  */
  method PlaceSentinels(a: array<real>, low: nat, high: nat)
    requires low + 1 < high < a.Length
    modifies a
    ensures RearrangedWithin(old(a[..]), a[..], low, high)
    ensures a[low + 1] <= a[low] <= a[high]
  {
    var middle := (low + high) / 2;
    ghost var start := a[..];
    if a[middle] > a[high] { SwapWithin(a, middle, high, start, low, high); }
    if a[low] > a[high] { SwapWithin(a, low, high, start, low, high); }
    if a[middle] > a[low] { SwapWithin(a, middle, low, start, low, high); }
    SwapWithin(a, middle, low + 1, start, low, high);
  }

  /** Exchange two entries, both inside the range low..high; start is what the array held when work on it began */
  method SwapWithin(a: array<real>, i: nat, j: nat, ghost start: seq<real>, ghost low: nat, ghost high: nat)
    requires low <= i <= high < a.Length && low <= j <= high
    requires |start| == a.Length && RearrangedWithin(start, a[..], low, high)
    modifies a
    ensures a[i] == old(a[j]) && a[j] == old(a[i])
    ensures forall k :: 0 <= k < a.Length && k != i && k != j ==> a[k] == old(a[k])
    ensures RearrangedWithin(start, a[..], low, high)
  {
    a[i], a[j] := a[j], a[i];
    assert a[..] == old(a[..])[i := old(a[j])][j := old(a[i])];
    SwapRearranges(old(a[..]), i, j, low, high);
  }

  /** One partition of the range low..high around its median of three */
  method Partition(a: array<real>, low: nat, high: nat) returns (ll: nat, hh: nat)
    requires low + 1 < high < a.Length
    modifies a
    ensures RearrangedWithin(old(a[..]), a[..], low, high)
    ensures low < hh < ll <= high
    ensures forall i :: low <= i < hh ==> a[i] <= a[hh]
    ensures forall i :: hh < i < ll ==> a[i] == a[hh]
    ensures forall i :: ll <= i <= high ==> a[hh] <= a[i]
  {
    ghost var start := a[..];
    PlaceSentinels(a, low, high);
    ghost var pivot := a[low];
    ll, hh := low + 1, high;
    while true
      invariant low + 1 <= ll <= hh <= high && ll < high && low + 2 <= hh
      invariant a[low] == pivot
      invariant forall i :: low < i <= ll ==> a[i] <= pivot
      invariant forall i :: hh <= i <= high ==> pivot <= a[i]
      invariant RearrangedWithin(start, a[..], low, high)
      decreases hh - ll
    {
      ghost var ll0, hh0 := ll, hh;
      ll := ll + 1;
      // a[hh0], or a[high] once the scans have met, stops this scan
      while a[low] > a[ll]
        invariant ll0 < ll <= high && (ll0 < hh0 ==> ll <= hh0)
        invariant forall i :: ll0 < i < ll ==> a[i] < pivot
        decreases high - ll
      {
        ll := ll + 1;
      }
      hh := hh - 1;
      // a[ll0], or a[low + 1], stops this one
      while a[hh] > a[low]
        invariant low < hh < hh0 && (ll0 < hh0 ==> ll0 <= hh)
        invariant forall i :: hh < i < hh0 ==> pivot < a[i]
        decreases hh
      {
        hh := hh - 1;
      }
      if hh < ll { break; }
      SwapWithin(a, ll, hh, start, low, high);
    }
    SwapWithin(a, low, hh, start, low, high);
  }

  /** After a partition the new ends, and every entry between them, are settled cuts */
  lemma PartitionSplits(s: seq<real>, low: int, high: int, ll: int, hh: int)
    requires 0 <= low < hh < ll <= high < |s|
    requires SplitAt(s, low) && SplitAt(s, high + 1)
    requires forall i :: low <= i < hh ==> s[i] <= s[hh]
    requires forall i :: hh < i < ll ==> s[i] == s[hh]
    requires forall i :: ll <= i <= high ==> s[hh] <= s[i]
    ensures forall k :: hh <= k <= ll ==> SplitAt(s, k)
  {
  }

  /** A settled entry left of the active range stays put and settled */
  lemma SettledStays(s: seq<real>, t: seq<real>, low: int, high: int, k: int)
    requires 0 <= low <= high < |s| && RearrangedWithin(s, t, low, high)
    requires SplitAt(s, low) && SplitAt(s, high + 1) && Settled(s, k)
    requires k < low
    ensures Settled(t, k)
  {
    assert forall i :: 0 <= i < low ==> t[i] == t[..low][i] == s[i];
    forall j | low <= j < |s|
      ensures exists m :: low <= m < |s| && t[j] == s[m]
    {
      if j <= high {
        var m := RearrangedEntry(s, t, low, high, j);
      } else {
        assert t[high + 1..][j - high - 1] == s[high + 1..][j - high - 1];
      }
    }
  }

  /**
    The invariant of the selection. The active range can move past k, when the two scans
    meet on an element equal to the pivot; k is then already settled.
  */
  ghost predicate Searching(s: seq<real>, low: int, high: int, k: int) {
    && 0 <= low && high < |s|
    && SplitAt(s, low) && SplitAt(s, high + 1)
    && (low <= k <= high || (k < low && Settled(s, k)))
  }

  lemma SearchGoesOn(s: seq<real>, t: seq<real>, low: int, high: int, k: int)
    requires Searching(s, low, high, k) && low <= high && RearrangedWithin(s, t, low, high)
    ensures Permutes(s, t) && Searching(t, low, high, k)
  {
    RearrangedPermutes(s, t, low, high);
    RearrangedKeepsSplits(s, t, low, high);
    if k < low {
      SettledStays(s, t, low, high, k);
    }
  }

  lemma RangeNarrows(s: seq<real>, low: int, high: int, ll: int, hh: int, k: int)
    requires Searching(s, low, high, k)
    requires low < hh < ll <= high
    requires forall i :: low <= i < hh ==> s[i] <= s[hh]
    requires forall i :: hh < i < ll ==> s[i] == s[hh]
    requires forall i :: ll <= i <= high ==> s[hh] <= s[i]
    ensures Searching(s, if hh <= k then ll else low, if hh >= k then hh - 1 else high, k)
  {
    PartitionSplits(s, low, high, ll, hh);
  }

  /** A range of at most one entry leaves nothing open */
  lemma SearchEnds(s: seq<real>, low: int, high: int, k: int)
    requires Searching(s, low, high, k) && high <= low
    ensures Settled(s, k)
  {
  }

  lemma PairNarrows(s: seq<real>, low: int, high: int, k: int)
    requires Searching(s, low, high, k) && high == low + 1 && s[low] <= s[high]
    ensures if k < high then Searching(s, low, low, k) else Searching(s, high, high, k)
  {
  }

  /** One round: order two entries, or partition three or more and keep the part that can hold k */
  method Narrow(a: array<real>, low: nat, high: nat, k: nat) returns (low': int, high': int)
    requires Searching(a[..], low, high, k) && low < high
    modifies a
    ensures Permutes(old(a[..]), a[..])
    ensures Searching(a[..], low', high', k) && high' - low' < high - low
  {
    low', high' := low, high;
    ghost var before := a[..];
    if high == low + 1 {
      if a[low] > a[high] {
        SwapWithin(a, low, high, before, low, high);
      }
      SearchGoesOn(before, a[..], low, high, k);
      PairNarrows(a[..], low, high, k);
      if k < high { high' := low; } else { low' := high; }
      return;
    }
    var ll, hh := Partition(a, low, high);
    SearchGoesOn(before, a[..], low, high, k);
    RangeNarrows(a[..], low, high, ll, hh, k);
    if hh <= k { low' := ll; }
    if hh >= k { high' := hh - 1; }
  }

  /** The element of rank (n - 1) / 2, found by rearranging the array */
  method Select(a: array<real>) returns (v: real)
    requires a.Length >= 1
    modifies a
    ensures multiset(a[..]) == multiset(old(a[..]))
    ensures v == a[(a.Length - 1) / 2]
    ensures Settled(a[..], (a.Length - 1) / 2)
    ensures IsMedian(old(a[..]), v)
  {
    var low, high := 0, a.Length - 1;
    var median := (low + high) / 2;
    while low < high
      invariant Permutes(old(a[..]), a[..])
      invariant Searching(a[..], low, high, median)
      decreases high - low
    {
      low, high := Narrow(a, low, high, median);
    }
    SearchEnds(a[..], low, high, median);
    v := a[median];
    PartitionedHasRank(a[..], median);
    CountsOfPermutation(a[..], old(a[..]), v);
  }

  /** Median of x; x itself is left alone */
  method Median(x: array<real>) returns (v: real)
    requires x.Length >= 1
    ensures IsMedian(x[..], v)
  {
    var arr := new real[x.Length](i requires 0 <= i < x.Length reads x => x[i]);
    assert arr[..] == x[..];
    v := Select(arr);
  }

  /** Median of x, and the median of the absolute deviations of x from it */
  method MedianMad(x: array<real>) returns (v: real, mad: real)
    requires x.Length >= 1
    ensures IsMedian(x[..], v)
    ensures IsMedian(Deviations(x[..], v), mad)
  {
    var n := x.Length;
    var arr := new real[n](i requires 0 <= i < x.Length reads x => x[i]);
    assert arr[..] == x[..];
    v := Select(arr);
    ghost var mixed := arr[..];
    for i := 0 to n
      invariant arr.Length == n && |mixed| == n
      invariant forall j :: 0 <= j < i ==> arr[j] == Abs(mixed[j] - v)
      invariant forall j :: i <= j < n ==> arr[j] == mixed[j]
    {
      arr[i] := Abs(arr[i] - v);
    }
    assert arr[..] == Deviations(mixed, v);
    mad := Select(arr);
    DeviationCounts(x[..], mixed, v, mad);
  }
}
