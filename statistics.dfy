/** Order statistics: `median` and `interquartile_range` of matiq.py.
    Samples are sequences of reals, so the mean of the two middle elements
    in the even case is exact. */
module Statistics {
  import opened Wrappers

  // ---------------------------------------------------------------------------
  // Python's `sorted`, as a function on sequences

  predicate Sorted(s: seq<real>) {
    forall i, j :: 0 <= i < j < |s| ==> s[i] <= s[j]
  }

  lemma HeadTail(a: seq<real>)
    requires a != []
    ensures a == [a[0]] + a[1..]
    ensures multiset(a) == multiset{a[0]} + multiset(a[1..])
  {
    assert a == [a[0]] + a[1..];
  }

  lemma MultisetCancel(x: real, m1: multiset<real>, m2: multiset<real>)
    requires multiset{x} + m1 == multiset{x} + m2
    ensures m1 == m2
  {
    forall e
      ensures m1[e] == m2[e]
    {
      assert (multiset{x} + m1)[e] == multiset{x}[e] + m1[e];
      assert (multiset{x} + m2)[e] == multiset{x}[e] + m2[e];
    }
  }

  /** Putting a value no larger than any element in front keeps the order. */
  lemma ConsSorted(x: real, t: seq<real>)
    requires Sorted(t) && forall e :: e in t ==> x <= e
    ensures Sorted([x] + t)
  {
    forall i, j | 0 <= i < j < |[x] + t|
      ensures ([x] + t)[i] <= ([x] + t)[j]
    {
      assert t[j - 1] in t;
      if i > 0 {
        assert ([x] + t)[i] == t[i - 1];
      }
    }
  }

  lemma LowerBoundOfElements(s: seq<real>, t: seq<real>, x: real)
    requires Sorted(s) && s != [] && s[0] < x
    requires multiset(t) == multiset(s[1..]) + multiset{x}
    ensures forall e :: e in t ==> s[0] <= e
  {
    forall e | e in t
      ensures s[0] <= e
    {
      assert e in multiset(t);
      if e != x {
        assert e in multiset(s[1..]);
        assert e in s[1..];
      }
    }
  }

  function Insert(x: real, s: seq<real>): (r: seq<real>)
    requires Sorted(s)
    ensures Sorted(r) && multiset(r) == multiset(s) + multiset{x} && |r| == |s| + 1
  {
    if s == [] || x <= s[0] then
      ConsSorted(x, s);
      [x] + s
    else
      var t := Insert(x, s[1..]);
      HeadTail(s);
      LowerBoundOfElements(s, t, x);
      ConsSorted(s[0], t);
      [s[0]] + t
  }

  /** `sorted(xs)`: ascending, and a permutation of `xs`. */
  function Sort(xs: seq<real>): (r: seq<real>)
    ensures Sorted(r) && multiset(r) == multiset(xs) && |r| == |xs|
  {
    if xs == [] then
      []
    else
      assert xs == [xs[0]] + xs[1..];
      Insert(xs[0], Sort(xs[1..]))
  }

  lemma SortedHeadIsLeast(a: seq<real>, x: real)
    requires Sorted(a) && x in multiset(a)
    ensures a[0] <= x
  {
    assert x in a;
  }

  /** Sorting is determined by the multiset of elements: two ascending
      sequences with the same elements are equal. */
  lemma {:induction false} SortedUnique(a: seq<real>, b: seq<real>)
    requires Sorted(a) && Sorted(b) && multiset(a) == multiset(b)
    ensures a == b
    decreases |a|
  {
    if a != [] {
      assert |b| == |multiset(b)| == |a|;
      assert a[0] in multiset(b) && b[0] in multiset(a) by {
        assert a[0] in a && b[0] in b;
      }
      SortedHeadIsLeast(b, a[0]);
      SortedHeadIsLeast(a, b[0]);
      assert a[0] == b[0];
      HeadTail(a);
      HeadTail(b);
      MultisetCancel(a[0], multiset(a[1..]), multiset(b[1..]));
      SortedUnique(a[1..], b[1..]);
    } else {
      assert |b| == |multiset(b)| == 0;
    }
  }

  lemma SortOfSorted(a: seq<real>)
    requires Sorted(a)
    ensures Sort(a) == a
  {
    SortedUnique(Sort(a), a);
  }

  lemma SortPermutationInvariant(xs: seq<real>, ys: seq<real>)
    requires multiset(xs) == multiset(ys)
    ensures Sort(xs) == Sort(ys)
  {
    SortedUnique(Sort(xs), Sort(ys));
  }

  // ---------------------------------------------------------------------------
  // Counting the elements on either side of a value

  /** How many elements of `s` are strictly below `v`. */
  function CountBelow(s: seq<real>, v: real): nat {
    if s == [] then 0 else (if s[0] < v then 1 else 0) + CountBelow(s[1..], v)
  }

  /** How many elements of `s` are strictly above `v`. */
  function CountAbove(s: seq<real>, v: real): nat {
    if s == [] then 0 else (if s[0] > v then 1 else 0) + CountAbove(s[1..], v)
  }

  lemma {:induction false} CountConcat(a: seq<real>, b: seq<real>, v: real)
    ensures CountBelow(a + b, v) == CountBelow(a, v) + CountBelow(b, v)
    ensures CountAbove(a + b, v) == CountAbove(a, v) + CountAbove(b, v)
    decreases |a|
  {
    if a != [] {
      assert (a + b)[1..] == a[1..] + b;
      CountConcat(a[1..], b, v);
    } else {
      assert a + b == b;
    }
  }

  lemma {:induction false} CountBounds(s: seq<real>, v: real)
    ensures CountBelow(s, v) <= |s| && CountAbove(s, v) <= |s|
    ensures (forall i :: 0 <= i < |s| ==> s[i] >= v) ==> CountBelow(s, v) == 0
    ensures (forall i :: 0 <= i < |s| ==> s[i] <= v) ==> CountAbove(s, v) == 0
    decreases |s|
  {
    if s != [] {
      CountBounds(s[1..], v);
      assert forall i :: 1 <= i < |s| ==> s[1..][i - 1] == s[i];
    }
  }

  /** The counts depend only on the multiset of elements. */
  lemma {:induction false} CountPermutationInvariant(a: seq<real>, b: seq<real>, v: real)
    requires multiset(a) == multiset(b)
    ensures CountBelow(a, v) == CountBelow(b, v) && CountAbove(a, v) == CountAbove(b, v)
    decreases |a|
  {
    if a == [] {
      assert |b| == |multiset(b)| == 0;
    } else {
      var x := a[0];
      assert x in multiset(b) by {
        assert x in a;
      }
      assert x in b;
      var j :| 0 <= j < |b| && b[j] == x;
      var rest := b[..j] + b[j + 1..];
      assert b == b[..j] + [x] + b[j + 1..];
      assert multiset(rest) == multiset(a[1..]) by {
        assert multiset(rest) == multiset(b[..j]) + multiset(b[j + 1..]);
        assert multiset(b) == multiset{x} + multiset(rest) by {
          assert multiset(b) == multiset(b[..j]) + multiset([x]) + multiset(b[j + 1..]);
        }
        HeadTail(a);
        MultisetCancel(x, multiset(rest), multiset(a[1..]));
      }
      CountPermutationInvariant(a[1..], rest, v);
      CountConcat(b[..j] + [x], b[j + 1..], v);
      CountConcat(b[..j], [x], v);
      CountConcat(b[..j], b[j + 1..], v);
    }
  }

  /** In an ascending sequence, nothing from position `k` on is below a
      value `v <= a[k]`, and nothing before `k` is above `v >= a[k - 1]`. */
  lemma SortedCounts(a: seq<real>, v: real, k: int)
    requires Sorted(a) && 0 <= k <= |a|
    ensures k < |a| && v <= a[k] ==> CountBelow(a, v) <= k
    ensures 0 < k && a[k - 1] <= v ==> CountAbove(a, v) <= |a| - k
  {
    assert a == a[..k] + a[k..];
    CountConcat(a[..k], a[k..], v);
    CountBounds(a[..k], v);
    CountBounds(a[k..], v);
  }

  // ---------------------------------------------------------------------------
  // median

  /** The index arithmetic of `median` applied to an already sorted list:
      the middle element for an odd count, the mean of the two middle
      elements for an even count; `sorted_list[0]` of an empty list fails
      with IndexError. */
  function MiddleOf(s: seq<real>): (r: Result<real>)
    ensures r.Err? <==> s == []
    ensures r.Err? ==> r.error == IndexError
  {
    var n := |s|;
    if n % 2 == 1 then
      Ok(s[(n - 1) / 2])
    else if n == 0 then
      Err(IndexError)
    else
      Ok((s[n / 2] + s[n / 2 - 1]) / 2.0)
  }

  /** `median(xs)`: the middle of the sorted sample. */
  function Median(xs: seq<real>): (r: Result<real>)
    ensures r.Err? <==> xs == []
    ensures r.Err? ==> r.error == IndexError
  {
    MiddleOf(Sort(xs))
  }

  lemma MiddleOfBalances(s: seq<real>)
    requires Sorted(s) && s != []
    ensures CountBelow(s, MiddleOf(s).value) <= |s| / 2
    ensures CountAbove(s, MiddleOf(s).value) <= |s| / 2
  {
    var n, m := |s|, MiddleOf(s).value;
    if n % 2 == 1 {
      SortedCounts(s, m, (n - 1) / 2);
      SortedCounts(s, m, (n + 1) / 2);
    } else {
      SortedCounts(s, m, n / 2);
    }
  }

  /** The median splits the sample: at most half of it lies strictly below
      the result and at most half strictly above. */
  lemma MedianBalances(xs: seq<real>)
    requires xs != []
    ensures CountBelow(xs, Median(xs).value) <= |xs| / 2
    ensures CountAbove(xs, Median(xs).value) <= |xs| / 2
  {
    var s := Sort(xs);
    MiddleOfBalances(s);
    CountPermutationInvariant(xs, s, MiddleOf(s).value);
  }

  lemma MiddleOfWithin(s: seq<real>)
    requires Sorted(s) && s != []
    ensures s[0] <= MiddleOf(s).value <= s[|s| - 1]
    ensures |s| % 2 == 1 ==> MiddleOf(s).value == s[(|s| - 1) / 2]
  {
  }

  /** The median lies between the least and the greatest element, and for
      an odd count it is one of the elements. */
  lemma MedianWithin(xs: seq<real>)
    requires xs != []
    ensures exists i :: 0 <= i < |xs| && xs[i] <= Median(xs).value
    ensures exists j :: 0 <= j < |xs| && Median(xs).value <= xs[j]
    ensures |xs| % 2 == 1 ==> Median(xs).value in xs
  {
    var s := Sort(xs);
    MiddleOfWithin(s);
    assert s[0] in multiset(xs) && s[|s| - 1] in multiset(xs) by {
      assert s[0] in s && s[|s| - 1] in s;
    }
    assert s[(|s| - 1) / 2] in multiset(xs) by {
      assert s[(|s| - 1) / 2] in s;
    }
  }

  /** Reordering the sample does not change the median. */
  lemma MedianPermutationInvariant(xs: seq<real>, ys: seq<real>)
    requires multiset(xs) == multiset(ys)
    ensures Median(xs) == Median(ys)
  {
    SortPermutationInvariant(xs, ys);
  }

  // ---------------------------------------------------------------------------
  // interquartile_range

  function Clamp(x: int, n: nat): nat {
    if x < 0 then 0 else if x > n then n else x
  }

  /** Python's `s[lo:hi]`: a negative bound counts from the end, and bounds
      outside the sequence are clamped to it. */
  function PySlice(s: seq<real>, lo: int, hi: int): (r: seq<real>)
    ensures |r| <= |s|
  {
    var n := |s|;
    var l := Clamp(if lo < 0 then lo + n else lo, n);
    var h := Clamp(if hi < 0 then hi + n else hi, n);
    if l < h then s[l..h] else []
  }

  /** The start of the lower half's exclusion window and of the upper half,
      as `interquartile_range` computes them from the sample size. */
  function LowerEnd(n: nat): int {
    if n % 2 == 1 then (n - 3) / 2 else n / 2 - 1
  }

  function UpperStart(n: nat): int {
    if n % 2 == 1 then (n + 1) / 2 else n / 2 + 1
  }

  /** The two parts `interquartile_range` takes of the sorted list `s`,
      written with Python slices: for an odd count `s[0:(n-3)//2]` and
      `s[(n+1)//2:]`, for an even count `s[0:n//2-1]` and `s[n//2+1:]`.
      They resolve to a proper prefix and a disjoint suffix from four
      elements on; below that the lower part is empty. */
  function Parts(s: seq<real>): (p: (seq<real>, seq<real>))
    ensures |s| < 4 ==> p.0 == []
    ensures |s| >= 4 ==>
      0 < LowerEnd(|s|) < UpperStart(|s|) < |s| &&
      p.0 == s[..LowerEnd(|s|)] && p.1 == s[UpperStart(|s|)..]
  {
    var n := |s|;
    (PySlice(s, 0, LowerEnd(n)), PySlice(s, UpperStart(n), n))
  }

  /** What `interquartile_range` does once the list is sorted: median of
      the upper part minus median of the lower part, the upper one first. */
  function SpreadOf(s: seq<real>): (r: Result<real>)
    ensures r.Err? <==> |s| < 4
    ensures r.Err? ==> r.error == IndexError
  {
    var (lower, upper) := Parts(s);
    match Median(upper)
    case Err(e) => Err(e)
    case Ok(high) =>
      match Median(lower)
      case Err(e) => Err(e)
      case Ok(low) => Ok(high - low)
  }

  /** `interquartile_range(xs)`: the spread of the sorted sample. Samples of
      fewer than four elements leave a part empty, whose median fails with
      IndexError. */
  function InterquartileRange(xs: seq<real>): (r: Result<real>)
    ensures r.Err? <==> |xs| < 4
    ensures r.Err? ==> r.error == IndexError
  {
    SpreadOf(Sort(xs))
  }

  /** For an odd count n the lower part has (n - 3) / 2 elements and the
      upper part (n - 1) / 2: the split is one element off centre. For an
      even count both parts have n / 2 - 1 elements. */
  lemma PartSizes(s: seq<real>)
    requires |s| >= 4
    ensures var n := |s|;
      (n % 2 == 1 ==> |Parts(s).0| == (n - 3) / 2 && |Parts(s).1| == (n - 1) / 2) &&
      (n % 2 == 0 ==> |Parts(s).0| == |Parts(s).1| == n / 2 - 1)
  {
  }

  /** The upper part's median is never below the lower part's, so the
      interquartile range is non-negative. */
  lemma SpreadNonNegative(s: seq<real>)
    requires Sorted(s) && |s| >= 4
    ensures SpreadOf(s).value >= 0.0
  {
    var n := |s|;
    var (lower, upper) := Parts(s);
    SortOfSorted(lower);
    SortOfSorted(upper);
    MiddleOfWithin(lower);
    MiddleOfWithin(upper);
    assert lower[|lower| - 1] == s[LowerEnd(n) - 1] && upper[0] == s[UpperStart(n)];
  }

  /** The interquartile range of four or more values is never negative. */
  lemma InterquartileNonNegative(xs: seq<real>)
    requires |xs| >= 4
    ensures InterquartileRange(xs).value >= 0.0
  {
    SpreadNonNegative(Sort(xs));
  }

  /** Reordering the sample does not change the interquartile range. */
  lemma InterquartilePermutationInvariant(xs: seq<real>, ys: seq<real>)
    requires multiset(xs) == multiset(ys)
    ensures InterquartileRange(xs) == InterquartileRange(ys)
  {
    SortPermutationInvariant(xs, ys);
  }
}
