/**
 The column statistics the pipeline relies on: sorting, the median, the
 linearly interpolated quantile (the default of `Series.quantile`) and the
 mode of a column.
 */
module Stats {

  predicate Sorted(s: seq<real>) {
    forall a, b | 0 <= a < b < |s| :: s[a] <= s[b]
  }

  /** Insert `x` into the sorted sequence `s`. */
  function Insert(x: real, s: seq<real>): (r: seq<real>)
    requires Sorted(s)
    ensures Sorted(r)
    ensures forall i | 0 <= i < |r| :: r[i] == x || r[i] in s
    ensures multiset(r) == multiset(s) + multiset{x}
  {
    if |s| == 0 then [x]
    else if x <= s[0] then [x] + s
    else
      var rest := Insert(x, s[1..]);
      assert s == [s[0]] + s[1..];
      HeadBelowInsert(x, s, rest);
      [s[0]] + rest
  }

  /** Everything inserted behind the head of a sorted sequence stays at or above that head. */
  lemma HeadBelowInsert(x: real, s: seq<real>, rest: seq<real>)
    requires Sorted(s) && |s| > 0 && s[0] < x
    requires forall i | 0 <= i < |rest| :: rest[i] == x || rest[i] in s[1..]
    ensures forall i | 0 <= i < |rest| :: s[0] <= rest[i]
  {
    forall i | 0 <= i < |rest|
      ensures s[0] <= rest[i]
    {
      if rest[i] != x {
        var k :| 0 <= k < |s[1..]| && s[1..][k] == rest[i];
        assert s[k + 1] == rest[i];
      }
    }
  }

  /** Insertion sort. */
  function Sort(s: seq<real>): (r: seq<real>)
    ensures Sorted(r)
    ensures multiset(r) == multiset(s)
    ensures |r| == |s|
  {
    if |s| == 0 then []
    else
      assert s == [s[0]] + s[1..];
      Insert(s[0], Sort(s[1..]))
  }

  /** How many elements of `s` are at most `v`. */
  function CountAtMost(s: seq<real>, v: real): nat {
    if |s| == 0 then 0 else (if s[0] <= v then 1 else 0) + CountAtMost(s[1..], v)
  }

  /** How many elements of `s` are at least `v`. */
  function CountAtLeast(s: seq<real>, v: real): nat {
    if |s| == 0 then 0 else (if s[0] >= v then 1 else 0) + CountAtLeast(s[1..], v)
  }

  lemma {:induction false} CountAppend(a: seq<real>, b: seq<real>, v: real)
    ensures CountAtMost(a + b, v) == CountAtMost(a, v) + CountAtMost(b, v)
    ensures CountAtLeast(a + b, v) == CountAtLeast(a, v) + CountAtLeast(b, v)
  {
    if |a| > 0 {
      assert (a + b)[0] == a[0];
      assert (a + b)[1..] == a[1..] + b;
      CountAppend(a[1..], b, v);
    } else {
      assert a + b == b;
    }
  }

  /** Removing a matching element from two equal multisets leaves equal multisets. */
  lemma MultisetRemove(a: seq<real>, b: seq<real>, k: nat)
    requires multiset(a) == multiset(b) && |a| > 0 && k < |b| && b[k] == a[0]
    ensures multiset(a[1..]) == multiset(b[..k] + b[k + 1..])
  {
    var rest := b[..k] + b[k + 1..];
    assert a == [a[0]] + a[1..];
    assert b == b[..k] + [b[k]] + b[k + 1..];
    assert multiset(a) == multiset{a[0]} + multiset(a[1..]);
    assert multiset(b) == multiset(b[..k]) + multiset{b[k]} + multiset(b[k + 1..]);
    assert multiset(rest) == multiset(b[..k]) + multiset(b[k + 1..]);
    assert multiset(b) == multiset{a[0]} + multiset(rest);
    assert multiset(a[1..]) == multiset(a) - multiset{a[0]};
    assert multiset(rest) == multiset(b) - multiset{a[0]};
  }

  /** The counts of `b` are those of `b` without position `k`, plus that element's share. */
  lemma CountRemove(b: seq<real>, k: nat, v: real)
    requires k < |b|
    ensures CountAtMost(b, v) == (if b[k] <= v then 1 else 0) + CountAtMost(b[..k] + b[k + 1..], v)
    ensures CountAtLeast(b, v) == (if b[k] >= v then 1 else 0) + CountAtLeast(b[..k] + b[k + 1..], v)
  {
    assert b == b[..k] + ([b[k]] + b[k + 1..]);
    CountAppend(b[..k], [b[k]] + b[k + 1..], v);
    CountAppend([b[k]], b[k + 1..], v);
    CountAppend(b[..k], b[k + 1..], v);
  }

  /** The counts depend only on the multiset of elements. */
  lemma {:induction false} CountPermutation(a: seq<real>, b: seq<real>, v: real)
    requires multiset(a) == multiset(b)
    ensures CountAtMost(a, v) == CountAtMost(b, v)
    ensures CountAtLeast(a, v) == CountAtLeast(b, v)
    decreases |a|
  {
    if |a| > 0 {
      assert a[0] in multiset(b);
      var k :| 0 <= k < |b| && b[k] == a[0];
      MultisetRemove(a, b, k);
      CountPermutation(a[1..], b[..k] + b[k + 1..], v);
      CountRemove(b, k, v);
    } else {
      assert |b| == |multiset(b)| == 0;
    }
  }

  /** If the first `k` elements are at most `v`, at least `k` elements are. */
  lemma {:induction false} CountAtMostPrefix(s: seq<real>, v: real, k: nat)
    requires k <= |s|
    requires forall i | 0 <= i < k :: s[i] <= v
    ensures CountAtMost(s, v) >= k
  {
    if k > 0 {
      CountAtMostPrefix(s[1..], v, k - 1);
    }
  }

  /** If the elements from `k` on are at least `v`, at least `|s| - k` elements are. */
  lemma {:induction false} CountAtLeastSuffix(s: seq<real>, v: real, k: nat)
    requires k <= |s|
    requires forall i | k <= i < |s| :: s[i] >= v
    ensures CountAtLeast(s, v) >= |s| - k
  {
    if |s| > 0 {
      if k == 0 {
        CountAtLeastSuffix(s[1..], v, 0);
      } else {
        CountAtLeastSuffix(s[1..], v, k - 1);
      }
    }
  }

  /** If the elements from position `k` on all exceed `v`, at most `k` elements are at most `v`. */
  lemma {:induction false} CountAtMostBelow(s: seq<real>, v: real, k: nat)
    requires k <= |s|
    requires forall i | k <= i < |s| :: s[i] > v
    ensures CountAtMost(s, v) <= k
  {
    if |s| > 0 {
      CountAtMostBelow(s[1..], v, if k == 0 then 0 else k - 1);
    }
  }

  /** If the first `k` elements all lie below `v`, at most `|s| - k` elements are at least `v`. */
  lemma {:induction false} CountAtLeastAbove(s: seq<real>, v: real, k: nat)
    requires k <= |s|
    requires forall i | 0 <= i < k :: s[i] < v
    ensures CountAtLeast(s, v) <= |s| - k
  {
    if |s| > 0 {
      CountAtLeastAbove(s[1..], v, if k == 0 then 0 else k - 1);
    }
  }

  /**
   `a` is the lower median of `s`: an element with at least half of the
   sample at or below it, and the least such element.
   */
  predicate LowerMedian(s: seq<real>, a: real) {
    && a in s
    && 2 * CountAtMost(s, a) >= |s|
    && forall x | x in s && x < a :: 2 * CountAtMost(s, x) < |s|
  }

  /**
   `b` is the upper median of `s`: an element with at least half of the
   sample at or above it, and the greatest such element.
   */
  predicate UpperMedian(s: seq<real>, b: real) {
    && b in s
    && 2 * CountAtLeast(s, b) >= |s|
    && forall x | x in s && x > b :: 2 * CountAtLeast(s, x) < |s|
  }

  /** A sample has one lower and one upper median. */
  lemma MediansUnique(s: seq<real>, a: real, a': real, b: real, b': real)
    requires LowerMedian(s, a) && LowerMedian(s, a') && UpperMedian(s, b) && UpperMedian(s, b')
    ensures a == a' && b == b'
  {
  }

  /** The element at position `(|ss| - 1) / 2` of the sorted sample is the lower median. */
  lemma LowerMedianOfSorted(s: seq<real>, ss: seq<real>)
    requires |s| > 0 && Sorted(ss) && multiset(ss) == multiset(s)
    ensures LowerMedian(s, ss[(|ss| - 1) / 2])
  {
    var k := (|ss| - 1) / 2;
    var a := ss[k];
    assert a in multiset(s);
    CountPermutation(s, ss, a);
    CountAtMostPrefix(ss, a, k + 1);
    forall x | x in s && x < a
      ensures 2 * CountAtMost(s, x) < |s|
    {
      CountPermutation(s, ss, x);
      CountAtMostBelow(ss, x, k);
    }
  }

  /** The element at position `|ss| / 2` of the sorted sample is the upper median. */
  lemma UpperMedianOfSorted(s: seq<real>, ss: seq<real>)
    requires |s| > 0 && Sorted(ss) && multiset(ss) == multiset(s)
    ensures UpperMedian(s, ss[|ss| / 2])
  {
    var k := |ss| / 2;
    var b := ss[k];
    assert b in multiset(s);
    CountPermutation(s, ss, b);
    CountAtLeastSuffix(ss, b, k);
    forall x | x in s && x > b
      ensures 2 * CountAtLeast(s, x) < |s|
    {
      CountPermutation(s, ss, x);
      CountAtLeastAbove(ss, x, k + 1);
    }
  }

  /**
   The median of a non-empty sample (`Series.median`): the middle element of
   the sorted sample, or the mean of the two middle elements when the sample
   has even size. It is the mean of the lower and the upper median (the two
   coincide on odd sizes), and at least half of the sample lies on each
   side of it.
   */
  function Median(s: seq<real>): (m: real)
    requires |s| > 0
    ensures exists a, b | LowerMedian(s, a) && UpperMedian(s, b) :: m == (a + b) / 2.0
    ensures 2 * CountAtMost(s, m) >= |s|
    ensures 2 * CountAtLeast(s, m) >= |s|
    ensures exists a, b :: a in s && b in s && a <= m <= b
  {
    var ss := Sort(s);
    var n := |ss|;
    var m := if n % 2 == 1 then ss[n / 2] else (ss[n / 2 - 1] + ss[n / 2]) / 2.0;
    MedianFacts(s, ss, m);
    MedianOfMedians(s, ss, m);
    m
  }

  /** The value `Median` computes is the mean of the lower and the upper median. */
  lemma MedianOfMedians(s: seq<real>, ss: seq<real>, m: real)
    requires |s| > 0 && Sorted(ss) && multiset(ss) == multiset(s)
    requires m == if |ss| % 2 == 1 then ss[|ss| / 2] else (ss[|ss| / 2 - 1] + ss[|ss| / 2]) / 2.0
    ensures exists a, b | LowerMedian(s, a) && UpperMedian(s, b) :: m == (a + b) / 2.0
  {
    var a, b := ss[(|ss| - 1) / 2], ss[|ss| / 2];
    LowerMedianOfSorted(s, ss);
    UpperMedianOfSorted(s, ss);
    assert m == (a + b) / 2.0;
  }

  lemma MedianFacts(s: seq<real>, ss: seq<real>, m: real)
    requires |s| > 0 && Sorted(ss) && multiset(ss) == multiset(s)
    requires m == if |ss| % 2 == 1 then ss[|ss| / 2] else (ss[|ss| / 2 - 1] + ss[|ss| / 2]) / 2.0
    ensures 2 * CountAtMost(s, m) >= |s|
    ensures 2 * CountAtLeast(s, m) >= |s|
    ensures exists a, b :: a in s && b in s && a <= m <= b
  {
    CountPermutation(s, ss, m);
    if |ss| % 2 == 1 {
      MedianOdd(ss, m);
      assert ss[|ss| / 2] in multiset(s);
      assert m in s && m <= m <= m;
    } else {
      MedianEven(ss, m);
      var a, b := ss[|ss| / 2 - 1], ss[|ss| / 2];
      assert a in multiset(s) && b in multiset(s);
      assert a in s && b in s && a <= m <= b;
    }
  }

  lemma MedianOdd(ss: seq<real>, m: real)
    requires Sorted(ss) && |ss| % 2 == 1 && m == ss[|ss| / 2]
    ensures 2 * CountAtMost(ss, m) >= |ss|
    ensures 2 * CountAtLeast(ss, m) >= |ss|
  {
    var h := |ss| / 2;
    assert forall i | 0 <= i < h + 1 :: ss[i] <= m;
    CountAtMostPrefix(ss, m, h + 1);
    CountAtLeastSuffix(ss, m, h);
  }

  lemma MedianEven(ss: seq<real>, m: real)
    requires Sorted(ss) && |ss| > 0 && |ss| % 2 == 0 && m == (ss[|ss| / 2 - 1] + ss[|ss| / 2]) / 2.0
    ensures 2 * CountAtMost(ss, m) >= |ss|
    ensures 2 * CountAtLeast(ss, m) >= |ss|
    ensures ss[|ss| / 2 - 1] <= m <= ss[|ss| / 2]
  {
    var h := |ss| / 2;
    assert ss[h - 1] <= ss[h];
    assert forall i | 0 <= i < h :: ss[i] <= ss[h - 1];
    CountAtMostPrefix(ss, m, h);
    assert forall i | h <= i < |ss| :: ss[h] <= ss[i];
    CountAtLeastSuffix(ss, m, h);
  }

  /** `a * d <= b * d` for `a <= b` and `d >= 0`. */
  lemma ScaleMonotone(a: real, b: real, d: real)
    requires a <= b && 0.0 <= d
    ensures a * d <= b * d
  {
    assert b * d - a * d == (b - a) * d;
    assert (b - a) * d >= 0.0;
  }

  /** Position of quantile `p` in a sample of `n` elements, as `Series.quantile` computes it. */
  function QuantilePosition(n: nat, p: real): (pos: real)
    requires n > 0 && 0.0 <= p <= 1.0
    ensures 0.0 <= pos <= (n - 1) as real
  {
    var d := (n - 1) as real;
    ScaleMonotone(0.0, p, d);
    ScaleMonotone(p, 1.0, d);
    assert 0.0 * d == 0.0 && 1.0 * d == d;
    assert 0.0 <= p * d <= d;
    p * d
  }

  /** The point at fraction `f` of the way from `lo` to `hi`. */
  function Interpolate(lo: real, hi: real, f: real): (x: real)
    requires lo <= hi && 0.0 <= f <= 1.0
    ensures lo <= x <= hi
  {
    var d := hi - lo;
    ScaleMonotone(0.0, f, d);
    ScaleMonotone(f, 1.0, d);
    assert 0.0 * d == 0.0 && 1.0 * d == d;
    lo + f * d
  }

  /** The interpolated point moves towards `hi` as the fraction grows. */
  lemma InterpolateMonotone(lo: real, hi: real, f: real, f': real)
    requires lo <= hi && 0.0 <= f <= f' <= 1.0
    ensures Interpolate(lo, hi, f) <= Interpolate(lo, hi, f')
  {
    var d := hi - lo;
    var x, x' := Interpolate(lo, hi, f), Interpolate(lo, hi, f');
    assert x == lo + f * d;
    assert x' == lo + f' * d;
    assert (f' - f) * d >= 0.0 by {
      assert f' - f >= 0.0 && d >= 0.0;
    }
    assert f' * d - f * d == (f' - f) * d;
  }

  /**
   The quantile `p` of a sorted non-empty sample with linear interpolation
   between the two closest ranks (the default of `Series.quantile`). It lies
   between the two ranks it interpolates, hence inside the sample's range.
   */
  function Quantile(ss: seq<real>, p: real): (q: real)
    requires Sorted(ss) && |ss| > 0 && 0.0 <= p <= 1.0
    ensures ss[0] <= q <= ss[|ss| - 1]
    ensures var h := QuantilePosition(|ss|, p).Floor;
              ss[h] <= q && (h + 1 < |ss| ==> q <= ss[h + 1]) && (h + 1 == |ss| ==> q == ss[h])
  {
    var pos := QuantilePosition(|ss|, p);
    var h := pos.Floor;
    assert ss[0] <= ss[h];
    if h + 1 < |ss| then
      assert ss[h + 1] <= ss[|ss| - 1];
      Interpolate(ss[h], ss[h + 1], pos - h as real)
    else
      ss[h]
  }

  lemma QuantilePositionMonotone(n: nat, p: real, p': real)
    requires n > 0 && 0.0 <= p <= p' <= 1.0
    ensures QuantilePosition(n, p) <= QuantilePosition(n, p')
  {
    ScaleMonotone(p, p', (n - 1) as real);
  }

  /** The quantile grows with `p`; in particular the first quartile never exceeds the third. */
  lemma QuantileMonotone(ss: seq<real>, p: real, p': real)
    requires Sorted(ss) && |ss| > 0 && 0.0 <= p <= p' <= 1.0
    ensures Quantile(ss, p) <= Quantile(ss, p')
  {
    var n := |ss|;
    QuantilePositionMonotone(n, p, p');
    var pos, pos' := QuantilePosition(n, p), QuantilePosition(n, p');
    var h, h' := pos.Floor, pos'.Floor;
    var q, q' := Quantile(ss, p), Quantile(ss, p');
    assert h <= h';
    if h < h' {
      assert q <= ss[h + 1] <= ss[h'] <= q';
    } else if h + 1 < n {
      InterpolateMonotone(ss[h], ss[h + 1], pos - h as real, pos' - h as real);
    } else {
      assert q == ss[h] == q';
    }
  }

  /** How often `v` occurs in `vals`. */
  function Count<T(==)>(vals: seq<T>, v: T): nat {
    multiset(vals)[v]
  }

  /** Scan for the first position holding a value of maximal count; `b` is the best position among the first `i`. */
  function ModeIndex<T(==)>(vals: seq<T>, i: nat, b: nat): (r: nat)
    requires b < i <= |vals|
    requires forall j | 0 <= j < i :: Count(vals, vals[j]) <= Count(vals, vals[b])
    requires forall j | 0 <= j < b :: Count(vals, vals[j]) < Count(vals, vals[b])
    ensures r < |vals|
    ensures forall j | 0 <= j < |vals| :: Count(vals, vals[j]) <= Count(vals, vals[r])
    ensures forall j | 0 <= j < r :: Count(vals, vals[j]) < Count(vals, vals[r])
    decreases |vals| - i
  {
    if i == |vals| then b
    else if Count(vals, vals[i]) > Count(vals, vals[b]) then ModeIndex(vals, i + 1, i)
    else ModeIndex(vals, i + 1, b)
  }

  /** The mode of a non-empty column (`Series.mode()[0]`): a value of maximal frequency. */
  function Mode<T(==, !new)>(vals: seq<T>): (m: T)
    requires |vals| > 0
    ensures m in vals
    ensures forall v :: Count(vals, v) <= Count(vals, m)
  {
    var r := ModeIndex(vals, 1, 0);
    var m := vals[r];
    assert forall v :: Count(vals, v) <= Count(vals, m) by {
      forall v
        ensures Count(vals, v) <= Count(vals, m)
      {
        if v in vals {
          var j :| 0 <= j < |vals| && vals[j] == v;
        }
      }
    }
    m
  }

  /**
   The tie-break of `Mode`: among several values of maximal frequency, the
   one occurring first is chosen, so the mode is a deterministic function of
   the column.
   */
  lemma ModeFirstOfMaximal<T(!new)>(vals: seq<T>, j: nat)
    requires j < |vals| && Count(vals, vals[j]) == Count(vals, Mode(vals))
    ensures Mode(vals) in vals[..j + 1]
  {
    var r := ModeIndex(vals, 1, 0);
    assert r <= j;
    assert vals[..j + 1][r] == Mode(vals);
  }
}
