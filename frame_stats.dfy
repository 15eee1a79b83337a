/**
 The statistics engine of the FPS overlay: the "1% low" frame rate computed from the
 window of recent inter-frame durations, and the truncating integer conversion used
 for both reported rates.

 Durations are exact reals here; the source computes with IEEE doubles.
 */
module FrameStats {

  /** A window of at most this many samples reports the sentinel 0 as its 1% low. */
  const FewSamples: nat := 20

  /** Swift's `Int(x)` on a finite value: it drops the fraction, rounding toward zero. */
  function Truncate(x: real): (r: int)
    ensures 0.0 <= x ==> r as real <= x < r as real + 1.0
    ensures x < 0.0 ==> r as real - 1.0 < x <= r as real
  {
    if x >= 0.0 then x.Floor else -((-x).Floor)
  }

  /** `reduce(0, +)`: the left fold of addition, starting from 0. */
  function Sum(s: seq<real>): real
  {
    if s == [] then 0.0 else Sum(s[..|s| - 1]) + s[|s| - 1]
  }

  /** A sum of durations lies between its count times a lower and an upper bound. */
  lemma {:induction false} SumBounds(s: seq<real>, lo: real, hi: real)
    requires forall i :: 0 <= i < |s| ==> lo <= s[i] <= hi
    ensures |s| as real * lo <= Sum(s) <= |s| as real * hi
  {
    if s != [] {
      var init := s[..|s| - 1];
      SumBounds(init, lo, hi);
      assert |s| as real * lo == |init| as real * lo + lo;
      assert |s| as real * hi == |init| as real * hi + hi;
    }
  }

  /** The longest duration of a non-empty window: the worst frame. */
  function LongestFrame(s: seq<real>): (m: real)
    requires |s| > 0
    ensures m in s
    ensures forall i :: 0 <= i < |s| ==> s[i] <= m
  {
    if |s| == 1 then s[0]
    else
      var rest := LongestFrame(s[1..]);
      if s[0] >= rest then s[0] else rest
  }

  /** The shortest duration of a non-empty window: the best frame. */
  function ShortestFrame(s: seq<real>): (m: real)
    requires |s| > 0
    ensures m in s
    ensures forall i :: 0 <= i < |s| ==> m <= s[i]
  {
    if |s| == 1 then s[0]
    else
      var rest := ShortestFrame(s[1..]);
      if s[0] <= rest then s[0] else rest
  }

  /** Longest durations first, as `sorted(by: >)` orders them. */
  ghost predicate Descending(s: seq<real>)
  {
    forall i, j :: 0 <= i < j < |s| ==> s[i] >= s[j]
  }

  /** Places `x` into a descending sequence, keeping it descending. */
  function Insert(x: real, s: seq<real>): (r: seq<real>)
    requires Descending(s)
    ensures Descending(r)
    ensures multiset(r) == multiset(s) + multiset{x}
  {
    if s == [] || x >= s[0] then
      [x] + s
    else
      DescendingTail(s);
      var rest := Insert(x, s[1..]);
      InsertBehindHead(x, s, rest);
      [s[0]] + rest
  }

  /** Putting the head of `s` back in front of `x` inserted into its tail keeps the order. */
  lemma InsertBehindHead(x: real, s: seq<real>, rest: seq<real>)
    requires Descending(s) && s != [] && x < s[0]
    requires Descending(rest) && multiset(rest) == multiset(s[1..]) + multiset{x}
    ensures Descending([s[0]] + rest)
    ensures multiset([s[0]] + rest) == multiset(s) + multiset{x}
  {
    assert s == [s[0]] + s[1..];
    forall i | 0 <= i < |rest|
      ensures rest[i] <= s[0]
    {
      assert rest[i] in multiset(rest);
      if rest[i] != x {
        assert rest[i] in multiset(s);
        HeadIsGreatest(s, rest[i]);
      }
    }
    var r := [s[0]] + rest;
    forall i, j | 0 <= i < j < |r|
      ensures r[i] >= r[j]
    {
      if i > 0 {
        assert r[i] == rest[i - 1] && r[j] == rest[j - 1];
      } else {
        assert r[j] == rest[j - 1];
      }
    }
  }

  /**
   The copy of the window that `frameTimes.sorted(by: >)` returns: the same durations,
   longest first. Which sorting algorithm produces it does not matter (see SortedUnique).
   */
  function SortDescending(s: seq<real>): (r: seq<real>)
    ensures Descending(r)
    ensures multiset(r) == multiset(s)
    ensures |r| == |s|
  {
    if s == [] then []
    else
      assert s == [s[0]] + s[1..];
      Insert(s[0], SortDescending(s[1..]))
  }

  /** `max(1, Int(Double(n) * 0.01))`: how many of the worst frames make up the 1%. */
  function WorstCount(n: nat): (c: nat)
    ensures 1 <= c
    ensures n > 0 ==> c <= n
    ensures n < 200 ==> c == 1
    ensures 100 <= n ==> c * 100 <= n < c * 100 + 100
  {
    if n / 100 < 1 then 1 else n / 100
  }

  /** `sorted.prefix(count)`: the longest WorstCount durations of the window. */
  function Worst(s: seq<real>): (w: seq<real>)
    requires FewSamples < |s|
    ensures |w| == WorstCount(|s|)
  {
    SortDescending(s)[..WorstCount(|s|)]
  }

  /**
   The 1% low is computable: either the guard returns the sentinel, or the average it
   inverts is not zero (`Int(1.0 / 0)` would trap).
   */
  ghost predicate LowDefined(s: seq<real>)
  {
    |s| <= FewSamples || Sum(Worst(s)) != 0.0
  }

  /**
   `calc1PercentLow`: 0 while the window holds at most 20 samples; otherwise the inverse of
   the mean of the longest 1% of durations, truncated to an integer.
   */
  function Calc1PercentLow(s: seq<real>): (r: int)
    requires LowDefined(s)
    ensures |s| <= FewSamples ==> r == 0
  {
    if |s| <= FewSamples then 0
    else
      var worst := Worst(s);
      var avg := Sum(worst) / WorstCount(|s|) as real;
      Truncate(1.0 / avg)
  }

  /** The head of a descending sequence is at least every element it holds. */
  lemma HeadIsGreatest(a: seq<real>, x: real)
    requires Descending(a)
    requires x in multiset(a)
    ensures x <= a[0]
  {
    var j :| 0 <= j < |a| && a[j] == x;
  }

  /** A descending sequence is determined by its multiset of elements. */
  lemma {:induction false} SortedUnique(a: seq<real>, b: seq<real>)
    requires Descending(a) && Descending(b)
    requires multiset(a) == multiset(b)
    ensures a == b
  {
    assert |a| == |multiset(a)| == |multiset(b)| == |b|;
    if a != [] {
      SameHeads(a, b);
      DescendingTail(a);
      DescendingTail(b);
      SortedUnique(a[1..], b[1..]);
      assert a == [a[0]] + a[1..] && b == [b[0]] + b[1..];
    }
  }

  /**
   Two non-empty descending sequences with the same elements start with the same element, and
   their tails hold the same elements.
   */
  lemma SameHeads(a: seq<real>, b: seq<real>)
    requires Descending(a) && Descending(b) && a != [] && b != []
    requires multiset(a) == multiset(b)
    ensures a[0] == b[0]
    ensures multiset(a[1..]) == multiset(b[1..])
  {
    assert a[0] in multiset(b) && b[0] in multiset(a) by {
      assert a[0] in a && b[0] in b;
    }
    HeadIsGreatest(b, a[0]);
    HeadIsGreatest(a, b[0]);
    TailElements(a);
    TailElements(b);
  }

  /** The tail of a non-empty sequence holds its elements less one copy of the head. */
  lemma TailElements(a: seq<real>)
    requires a != []
    ensures multiset(a[1..]) == multiset(a) - multiset{a[0]}
  {
    assert a == [a[0]] + a[1..];
  }

  /** Dropping the head of a descending sequence leaves it descending. */
  lemma DescendingTail(a: seq<real>)
    requires Descending(a) && a != []
    ensures Descending(a[1..])
  {
    forall i, j | 0 <= i < j < |a| - 1
      ensures a[1..][i] >= a[1..][j]
    {
      assert a[1..][i] == a[i + 1] && a[1..][j] == a[j + 1];
    }
  }

  /** The head of the sorted copy is the longest frame of the window. */
  lemma HeadIsLongest(s: seq<real>)
    requires |s| > 0
    ensures SortDescending(s)[0] == LongestFrame(s)
  {
    var t := SortDescending(s);
    var m := LongestFrame(s);
    assert t[0] in multiset(s);
    assert m in multiset(t);
    var j :| 0 <= j < |t| && t[j] == m;
  }

  /**
   The selected worst frames are drawn from the window, and every selected duration is at
   least as long as every duration left out.
   */
  lemma WorstIsTopK(s: seq<real>)
    requires FewSamples < |s|
    ensures multiset(Worst(s)) <= multiset(s)
    ensures forall x, y ::
      x in multiset(Worst(s)) && y in multiset(s) - multiset(Worst(s)) ==> x >= y
  {
    var t := SortDescending(s);
    var k := WorstCount(|s|);
    var top, rest := t[..k], t[k..];
    assert t == top + rest;
    assert multiset(t) == multiset(top) + multiset(rest);
    assert multiset(s) - multiset(top) == multiset(rest);
    forall x, y | x in multiset(top) && y in multiset(rest)
      ensures x >= y
    {
      SelectedBeforeRest(t, k, x, y);
    }
  }

  /** In a descending sequence, anything in the first `k` elements is at least anything after them. */
  lemma SelectedBeforeRest(t: seq<real>, k: nat, x: real, y: real)
    requires Descending(t) && k <= |t|
    requires x in multiset(t[..k]) && y in multiset(t[k..])
    ensures x >= y
  {
    var i :| 0 <= i < k && t[..k][i] == x;
    var j :| 0 <= j < |t| - k && t[k..][j] == y;
    assert t[i] == x && t[k + j] == y;
  }

  /** Every selected worst frame is a duration of the window, so it lies between the extremes. */
  lemma WorstWithinWindow(s: seq<real>)
    requires FewSamples < |s|
    ensures forall i :: 0 <= i < |Worst(s)| ==>
      ShortestFrame(s) <= Worst(s)[i] <= LongestFrame(s)
  {
    var w := Worst(s);
    WorstIsTopK(s);
    forall i | 0 <= i < |w|
      ensures ShortestFrame(s) <= w[i] <= LongestFrame(s)
    {
      assert w[i] in multiset(w);
      assert w[i] in multiset(s);
    }
  }

  /** A window of positive durations always has a computable 1% low. */
  lemma PositiveLowDefined(s: seq<real>)
    requires forall i :: 0 <= i < |s| ==> s[i] > 0.0
    ensures LowDefined(s)
    ensures FewSamples < |s| ==> Sum(Worst(s)) > 0.0
  {
    if FewSamples < |s| {
      var lo := ShortestFrame(s);
      assert lo > 0.0 by {
        var i :| 0 <= i < |s| && s[i] == lo;
      }
      WorstWithinWindow(s);
      PositiveSum(Worst(s), lo, LongestFrame(s));
    }
  }

  /** A non-empty sum of durations that are all at least a positive bound is positive. */
  lemma PositiveSum(w: seq<real>, lo: real, hi: real)
    requires |w| > 0 && lo > 0.0
    requires forall i :: 0 <= i < |w| ==> lo <= w[i] <= hi
    ensures Sum(w) > 0.0
  {
    SumBounds(w, lo, hi);
    MulPositive(|w| as real, lo, |w| as real * lo);
  }

  /**
   With positive durations and more than 20 of them, the 1% low lies between the rate of the
   longest frame and the rate of the shortest: averaging the worst durations never reports
   a rate slower than the single worst frame.
   */
  lemma LowBounds(s: seq<real>)
    requires FewSamples < |s|
    requires forall i :: 0 <= i < |s| ==> s[i] > 0.0
    ensures LowDefined(s)
    ensures Truncate(1.0 / LongestFrame(s)) <= Calc1PercentLow(s) <= Truncate(1.0 / ShortestFrame(s))
  {
    PositiveLowDefined(s);
    WorstMeanWithin(s);
    RateOfMeanWithin(Sum(Worst(s)), WorstCount(|s|) as real, ShortestFrame(s), LongestFrame(s));
    LowIsRateOfMean(s);
  }

  /** A mean duration between two positive durations reports a rate between their rates. */
  lemma RateOfMeanWithin(total: real, c: real, lo: real, hi: real)
    requires 0.0 < lo && 0.0 < c
    requires lo <= total / c <= hi
    ensures Truncate(1.0 / hi) <= Truncate(1.0 / (total / c)) <= Truncate(1.0 / lo)
  {
    var avg := total / c;
    InverseAntitone(lo, avg);
    InverseAntitone(avg, hi);
    TruncateMonotone(1.0 / hi, 1.0 / avg);
    TruncateMonotone(1.0 / avg, 1.0 / lo);
  }

  /** Past the guard, the 1% low is the truncated inverse of the mean worst duration. */
  lemma LowIsRateOfMean(s: seq<real>)
    requires FewSamples < |s| && LowDefined(s)
    ensures Calc1PercentLow(s) == Truncate(1.0 / (Sum(Worst(s)) / WorstCount(|s|) as real))
  {
  }

  /** The mean of the worst frames lies between the shortest and the longest frame. */
  lemma WorstMeanWithin(s: seq<real>)
    requires FewSamples < |s|
    ensures ShortestFrame(s) <= Sum(Worst(s)) / WorstCount(|s|) as real <= LongestFrame(s)
  {
    WorstWithinWindow(s);
    MeanWithin(Worst(s), ShortestFrame(s), LongestFrame(s));
  }

  /** The mean of a non-empty sequence lies within any bounds of its elements. */
  lemma MeanWithin(w: seq<real>, lo: real, hi: real)
    requires |w| > 0
    requires forall i :: 0 <= i < |w| ==> lo <= w[i] <= hi
    ensures lo <= Sum(w) / |w| as real <= hi
  {
    SumBounds(w, lo, hi);
    AverageWithin(Sum(w), |w| as real, lo, hi);
  }

  /** Truncation keeps the order of non-negative values. */
  lemma TruncateMonotone(x: real, y: real)
    requires 0.0 <= x <= y
    ensures Truncate(x) <= Truncate(y)
  {
  }

  /** The mean of `c` values whose sum lies within `c*lo .. c*hi` lies within `lo .. hi`. */
  lemma AverageWithin(total: real, c: real, lo: real, hi: real)
    requires c > 0.0
    requires c * lo <= total <= c * hi
    ensures lo <= total / c <= hi
  {
  }

  /** Shorter durations invert to higher rates. */
  lemma InverseAntitone(x: real, y: real)
    requires 0.0 < x <= y
    ensures 1.0 / y <= 1.0 / x
  {
  }

  /**
   Below 200 samples only the single worst frame counts, so the 1% low is the truncated rate
   of the longest frame.
   */
  lemma LowOfSmallWindow(s: seq<real>)
    requires FewSamples < |s| < 200
    requires LongestFrame(s) != 0.0
    ensures LowDefined(s)
    ensures Calc1PercentLow(s) == Truncate(1.0 / LongestFrame(s))
  {
    HeadIsLongest(s);
    var w := Worst(s);
    assert w == [SortDescending(s)[0]];
    assert Sum(w) == Sum([]) + w[0];
  }

  /**
   From 200 to 299 samples the two longest frames `a` and `b` count: their durations are
   averaged first and the mean is inverted, so the 1% low is the truncation of 2 / (a + b).
   */
  lemma LowOfTwoWorst(s: seq<real>, a: real, b: real)
    requires 200 <= |s| < 300
    requires a == SortDescending(s)[0] && b == SortDescending(s)[1]
    requires a + b != 0.0
    ensures LowDefined(s)
    ensures Calc1PercentLow(s) == Truncate(2.0 / (a + b))
  {
    WorstPairSum(s);
    LowIsRateOfMean(s);
    InverseOfHalf(Sum(Worst(s)), WorstCount(|s|) as real, a + b);
  }

  /** A window of 200 to 299 samples averages its two longest durations. */
  lemma WorstPairSum(s: seq<real>)
    requires 200 <= |s| < 300
    ensures WorstCount(|s|) == 2
    ensures Sum(Worst(s)) == SortDescending(s)[0] + SortDescending(s)[1]
  {
    PairCount(|s|);
    SumOfFirstTwo(SortDescending(s));
  }

  /** Windows of 200 to 299 samples take their two longest durations. */
  lemma PairCount(n: nat)
    requires 200 <= n < 300
    ensures WorstCount(n) == 2
  {
  }

  /** The sum of the first two elements of a sequence. */
  lemma SumOfFirstTwo(t: seq<real>)
    requires |t| >= 2
    ensures Sum(t[..2]) == t[0] + t[1]
  {
    assert t[..2] == [t[0], t[1]];
    SumOfTwo(t[0], t[1]);
  }

  lemma SumOfTwo(x: real, y: real)
    ensures Sum([x, y]) == x + y
  {
    assert [x][..0] == [];
    assert Sum([x]) == x;
    assert [x, y][..1] == [x];
  }

  /** Inverting the mean of two durations is inverting their sum and doubling the result. */
  lemma InverseOfHalf(total: real, c: real, pair: real)
    requires c == 2.0 && total == pair && pair != 0.0
    ensures 1.0 / (total / c) == 2.0 / pair
  {
  }

  /** The square of a duration difference. */
  function Square(d: real): real
  {
    d * d
  }

  /** The square of a non-negative number is positive exactly when the number is. */
  lemma SquareSign(d: real)
    requires d >= 0.0
    ensures d > 0.0 ==> Square(d) > 0.0
    ensures d == 0.0 ==> Square(d) == 0.0
  {
    if d > 0.0 {
      MulPositive(d, d, Square(d));
    }
  }

  /** The product of two positive numbers is positive. */
  lemma MulPositive(x: real, y: real, p: real)
    requires x > 0.0 && y > 0.0 && p == x * y
    ensures p > 0.0
  {
    assert p / x == y;
  }

  /**
   Averaging durations before inverting never reports a higher rate than averaging the two
   rates: for two frames the 1% low is a harmonic, not an arithmetic, mean of their rates,
   and the two agree only when the frames are equally long.
   */
  lemma MeanDurationRateAtMostMeanRate(a: real, b: real)
    requires 0.0 < a && 0.0 < b
    ensures 2.0 / (a + b) <= (1.0 / a + 1.0 / b) / 2.0
    ensures 2.0 / (a + b) == (1.0 / a + 1.0 / b) / 2.0 <==> a == b
  {
    var x, y, h := 1.0 / a, 1.0 / b, 2.0 / (a + b);
    assert x * a == 1.0 && y * b == 1.0 && h * (a + b) == 2.0;
    var d := if a >= b then a - b else b - a;
    MulPositive(a, b, a * b);
    var p := a * b * (a + b);
    MulPositive(a * b, a + b, p);
    assert (x + y) * p == (a + b) * (a + b);
    assert h * p == 2.0 * a * b;
    assert ((x + y) / 2.0 - h) * p == Square(d) / 2.0;
    SquareSign(d);
    ProductSign((x + y) / 2.0 - h, p, Square(d) / 2.0);
  }

  /** A factor of a product with a positive factor has the sign of the product. */
  lemma ProductSign(g: real, p: real, v: real)
    requires p > 0.0 && g * p == v
    ensures v >= 0.0 ==> g >= 0.0
    ensures v > 0.0 ==> g > 0.0
    ensures v == 0.0 ==> g == 0.0
  {
    assert g == v / p;
  }

  /**
   With 200 to 299 positive durations, the 1% low never exceeds the truncated mean of the rates
   of the two worst frames `a` and `b`: the code averages their durations, not their rates.
   */
  lemma LowAtMostMeanRateOfTwoWorst(s: seq<real>, a: real, b: real)
    requires 200 <= |s| < 300
    requires forall i :: 0 <= i < |s| ==> s[i] > 0.0
    requires a == SortDescending(s)[0] && b == SortDescending(s)[1]
    ensures a > 0.0 && b > 0.0
    ensures LowDefined(s)
    ensures Calc1PercentLow(s) <= Truncate((1.0 / a + 1.0 / b) / 2.0)
  {
    TwoWorstPositive(s, a, b);
    LowOfTwoWorst(s, a, b);
    HarmonicTruncatesLower(a, b, Calc1PercentLow(s));
  }

  /** The two longest durations of a window of positive durations are positive. */
  lemma TwoWorstPositive(s: seq<real>, a: real, b: real)
    requires 2 <= |s|
    requires forall i :: 0 <= i < |s| ==> s[i] > 0.0
    requires a == SortDescending(s)[0] && b == SortDescending(s)[1]
    ensures a > 0.0 && b > 0.0 && a + b != 0.0
  {
    var t := SortDescending(s);
    assert a in multiset(s) && b in multiset(s) by {
      assert t[0] in t && t[1] in t;
    }
  }

  /** A rate equal to that of the mean of two durations is at most their truncated mean rate. */
  lemma HarmonicTruncatesLower(a: real, b: real, low: int)
    requires 0.0 < a && 0.0 < b
    requires low == Truncate(2.0 / (a + b))
    ensures low <= Truncate((1.0 / a + 1.0 / b) / 2.0)
  {
    MeanDurationRateAtMostMeanRate(a, b);
    assert 0.0 < 2.0 / (a + b);
    TruncateMonotone(2.0 / (a + b), (1.0 / a + 1.0 / b) / 2.0);
  }

  /**
   The 1% low depends only on which durations the window holds, not on their order: the
   sorted copy is the same for every arrangement of them.
   */
  lemma LowIgnoresOrder(s: seq<real>, t: seq<real>)
    requires multiset(s) == multiset(t)
    requires LowDefined(s)
    ensures |s| == |t|
    ensures LowDefined(t)
    ensures Calc1PercentLow(s) == Calc1PercentLow(t)
  {
    assert |s| == |multiset(s)| == |multiset(t)| == |t|;
    SortedUnique(SortDescending(s), SortDescending(t));
  }

  /**
   The instantaneous rate truncates rather than rounds: a frame of 0.01667 s, about 59.99 per
   second, reports 59.
   */
  lemma FpsTruncatesNotRounds()
    ensures Truncate(1.0 / 0.01667) == 59
  {
    assert 59.0 <= 1.0 / 0.01667 < 60.0;
  }
}
