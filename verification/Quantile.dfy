/**
 The Prometheus-style `histogram_quantile` of the load test: linear interpolation over cumulative buckets, with
 reals for floating-point numbers.
 */
module Quantile {
  import opened Options

  datatype Bound = Finite(value: real) | Inf

  /** A cumulative bucket: how many observations were at most `le`. */
  datatype Bucket = Bucket(le: Bound, count: real)

  predicate AtMost(a: Bound, b: Bound) {
    b.Inf? || (a.Finite? && a.value <= b.value)
  }

  // ----- The stable sort by bound -----

  function Insert(b: Bucket, s: seq<Bucket>): seq<Bucket> {
    if s == [] || AtMost(b.le, s[0].le) then [b] + s else [s[0]] + Insert(b, s[1..])
  }

  function Sorted(s: seq<Bucket>): seq<Bucket> {
    if s == [] then [] else Insert(s[0], Sorted(s[1..]))
  }

  ghost predicate Ordered(s: seq<Bucket>) {
    forall i, j :: 0 <= i < j < |s| ==> AtMost(s[i].le, s[j].le)
  }

  lemma {:induction false} InsertOrdered(b: Bucket, s: seq<Bucket>)
    requires Ordered(s)
    ensures Ordered(Insert(b, s)) && multiset(Insert(b, s)) == multiset(s) + multiset{b}
  {
    if s == [] || AtMost(b.le, s[0].le) {
    } else {
      InsertOrdered(b, s[1..]);
      var rest := Insert(b, s[1..]);
      assert s == [s[0]] + s[1..];
      forall j | 0 <= j < |rest| ensures AtMost(s[0].le, rest[j].le) {
        assert rest[j] in multiset(rest);
        assert rest[j] == b || rest[j] in s[1..];
      }
    }
  }

  /** Sorting orders the buckets and neither loses nor invents one. */
  lemma {:induction false} SortedIsOrdered(s: seq<Bucket>)
    ensures Ordered(Sorted(s)) && multiset(Sorted(s)) == multiset(s) && |Sorted(s)| == |s|
  {
    if s != [] {
      SortedIsOrdered(s[1..]);
      InsertOrdered(s[0], Sorted(s[1..]));
      assert s == [s[0]] + s[1..];
      assert |multiset(Sorted(s))| == |Sorted(s)| && |multiset(s)| == |s|;
    }
  }

  // ----- What a rank selects -----

  /** The first bucket whose cumulative count reaches the rank. */
  ghost predicate Holds(ordered: seq<Bucket>, rank: real, k: nat) {
    && k < |ordered| && ordered[k].count >= rank
    && forall j :: 0 <= j < k ==> ordered[j].count < rank
  }

  /** Where bucket `k` starts, and what was counted before it. */
  function LowerBound(ordered: seq<Bucket>, k: nat): Bound
    requires k <= |ordered|
  {
    if k == 0 then Finite(0.0) else ordered[k - 1].le
  }

  function LowerCount(ordered: seq<Bucket>, k: nat): real
    requires k <= |ordered|
  {
    if k == 0 then 0.0 else ordered[k - 1].count
  }

  function Interpolate(lo: real, hi: real, before: real, upto: real, rank: real): real
    requires upto > before
  {
    lo + (hi - lo) * (rank - before) / (upto - before)
  }

  /** The estimate for a rank that bucket `k` holds. */
  function Estimate(ordered: seq<Bucket>, k: nat, rank: real): Bound
    requires k < |ordered| && (ordered[k].le.Finite? ==> LowerBound(ordered, k).Finite?)
  {
    var before, upto := LowerCount(ordered, k), ordered[k].count;
    if ordered[k].le.Inf? then LowerBound(ordered, k)
    else if upto <= before then ordered[k].le
    else Finite(Interpolate(LowerBound(ordered, k).value, ordered[k].le.value, before, upto, rank))
  }

  lemma FiniteBefore(ordered: seq<Bucket>, k: nat)
    requires Ordered(ordered) && k < |ordered| && ordered[k].le.Finite?
    ensures LowerBound(ordered, k).Finite?
  {
    if k > 0 {
      assert AtMost(ordered[k - 1].le, ordered[k].le);
    }
  }

  function Total(s: seq<Bucket>): real
    requires s != []
  {
    s[|s| - 1].count
  }

  function Rank(q: real, s: seq<Bucket>): real
    requires s != []
  {
    q * Total(s)
  }

  ghost predicate EstimatedAt(s: seq<Bucket>, rank: real, r: Bound, k: nat) {
    && Holds(s, rank, k)
    && (s[k].le.Finite? ==> LowerBound(s, k).Finite?)
    && r == Estimate(s, k, rank)
  }

  ghost predicate Estimated(s: seq<Bucket>, rank: real, r: Bound) {
    exists k :: EstimatedAt(s, rank, r, k)
  }

  /** `r` answers for the ordered buckets `s`: nothing without observations; else the estimate in the first bucket
      that reaches the rank; else, when none does, the last bound. */
  ghost predicate IsQuantile(q: real, s: seq<Bucket>, r: Option<Bound>) {
    && (r.None? <==> s == [] || Total(s) <= 0.0)
    && (r.Some? ==>
          || Estimated(s, Rank(q, s), r.value)
          || ((forall j :: 0 <= j < |s| ==> s[j].count < Rank(q, s)) && r.value == s[|s| - 1].le))
  }

  method HistogramQuantile(q: real, buckets: seq<Bucket>) returns (r: Option<Bound>)
    ensures IsQuantile(q, Sorted(buckets), r)
  {
    hide Sorted, Interpolate, Rank, Ordered, AtMost;
    SortedIsOrdered(buckets);
    if buckets == [] {
      return None;
    }
    var ordered := Sorted(buckets);
    var total := ordered[|ordered| - 1].count;
    if total <= 0.0 {
      return None;
    }
    var rank := Rank(q, ordered);
    var prevLe, prevCount := Finite(0.0), 0.0;
    var i := 0;
    while i < |ordered|
      invariant 0 <= i <= |ordered|
      invariant prevLe == LowerBound(ordered, i) && prevCount == LowerCount(ordered, i)
      invariant forall j :: 0 <= j < i ==> ordered[j].count < rank
    {
      var le, count := ordered[i].le, ordered[i].count;
      if count >= rank {
        if le.Inf? {
          assert EstimatedAt(ordered, rank, prevLe, i);
          return Some(prevLe);
        }
        FiniteBefore(ordered, i);
        var inBucket := count - prevCount;
        if inBucket <= 0.0 {
          assert EstimatedAt(ordered, rank, le, i);
          return Some(le);
        }
        r := Some(Finite(Interpolate(prevLe.value, le.value, prevCount, count, rank)));
        assert EstimatedAt(ordered, rank, r.value, i);
        return;
      }
      prevLe, prevCount := le, count;
      i := i + 1;
    }
    return Some(prevLe);
  }

  // ----- On a real histogram -----

  /** Positive bounds, strictly increasing, and counts that are cumulative. */
  ghost predicate Histogram(s: seq<Bucket>) {
    && (forall i :: 0 <= i < |s| ==> s[i].count >= 0.0)
    && (forall i, j :: 0 <= i < j < |s| ==> s[i].count <= s[j].count)
    && (forall i :: 0 <= i < |s| - 1 ==> s[i].le.Finite?)
    && (forall i :: 0 <= i < |s| && s[i].le.Finite? ==> s[i].le.value > 0.0)
    && (forall i, j :: 0 <= i < j < |s| && s[j].le.Finite? ==> s[i].le.value < s[j].le.value)
  }

  /** The last bucket holds everything, so for q <= 1 the loop always returns. */
  lemma {:induction false} SomeBucketHolds(s: seq<Bucket>, rank: real) returns (k: nat)
    requires s != [] && s[|s| - 1].count >= rank
    ensures Holds(s, rank, k)
  {
    k := 0;
    while s[k].count < rank
      invariant k < |s|
      invariant forall j :: 0 <= j < k ==> s[j].count < rank
      decreases |s| - k
    {
      k := k + 1;
    }
  }

  lemma RankInRange(q: real, s: seq<Bucket>)
    requires 0.0 <= q <= 1.0 && s != [] && Total(s) > 0.0
    ensures 0.0 <= Rank(q, s) <= Total(s)
  {
  }

  lemma RankMonotone(p: real, q: real, s: seq<Bucket>)
    requires p <= q && s != [] && Total(s) > 0.0
    ensures Rank(p, s) <= Rank(q, s)
  {
  }

  lemma MulDiv(a: real, b: real, c: real)
    requires c > 0.0
    ensures a * b / c == a * (b / c)
  {
  }

  lemma ShareInRange(rank: real, before: real, upto: real)
    requires before <= rank <= upto && before < upto
    ensures 0.0 <= (rank - before) / (upto - before) <= 1.0
  {
    ShareOf(rank - before, upto - before);
  }

  lemma ShareOf(part: real, whole: real)
    requires 0.0 <= part <= whole && whole > 0.0
    ensures 0.0 <= part / whole <= 1.0
  {
    var share := part / whole;
    assert share * whole == part;
    assert share > 1.0 ==> share * whole > whole;
    assert share < 0.0 ==> share * whole < 0.0;
  }

  lemma ScaleInRange(width: real, share: real)
    requires width >= 0.0 && 0.0 <= share <= 1.0
    ensures 0.0 <= width * share <= width
  {
  }

  lemma InterpolateInRange(lo: real, hi: real, before: real, upto: real, rank: real)
    requires lo <= hi && before <= rank <= upto && before < upto
    ensures lo <= Interpolate(lo, hi, before, upto, rank) <= hi
  {
    var share := (rank - before) / (upto - before);
    MulDiv(hi - lo, rank - before, upto - before);
    assert Interpolate(lo, hi, before, upto, rank) == lo + (hi - lo) * share;
    hide Interpolate;
    ShareInRange(rank, before, upto);
    ScaleInRange(hi - lo, share);
  }

  lemma ShareMonotone(a: real, b: real, before: real, upto: real)
    requires a <= b && before < upto
    ensures (a - before) / (upto - before) <= (b - before) / (upto - before)
  {
  }

  lemma ScaleMonotone(width: real, a: real, b: real)
    requires width >= 0.0 && a <= b
    ensures width * a <= width * b
  {
  }

  lemma InterpolateMonotone(lo: real, hi: real, before: real, upto: real, a: real, b: real)
    requires lo <= hi && before < upto && a <= b
    ensures Interpolate(lo, hi, before, upto, a) <= Interpolate(lo, hi, before, upto, b)
  {
    MulDiv(hi - lo, a - before, upto - before);
    MulDiv(hi - lo, b - before, upto - before);
    ShareMonotone(a, b, before, upto);
    ScaleMonotone(hi - lo, (a - before) / (upto - before), (b - before) / (upto - before));
  }

  lemma BucketOrder(s: seq<Bucket>, k: nat)
    requires Histogram(s) && k < |s|
    ensures LowerBound(s, k).Finite?
    ensures 0.0 <= LowerBound(s, k).value && 0.0 <= LowerCount(s, k) <= s[k].count
    ensures s[k].le.Finite? ==> LowerBound(s, k).value < s[k].le.value
  {
    if k > 0 {
      assert s[k - 1].le.Finite?;
    }
  }

  /** The estimate lies in the bucket that holds the rank; for the +Inf bucket it is the highest finite bound. */
  lemma EstimateInBucket(s: seq<Bucket>, k: nat, rank: real)
    requires Histogram(s) && Holds(s, rank, k) && rank >= 0.0
    ensures LowerBound(s, k).Finite? && Estimate(s, k, rank).Finite?
    ensures s[k].le.Inf? ==> Estimate(s, k, rank) == LowerBound(s, k)
    ensures s[k].le.Finite? ==> LowerBound(s, k).value <= Estimate(s, k, rank).value <= s[k].le.value
  {
    BucketOrder(s, k);
    if s[k].le.Finite? && s[k].count > LowerCount(s, k) {
      InterpolateInRange(LowerBound(s, k).value, s[k].le.value, LowerCount(s, k), s[k].count, rank);
    }
    hide Histogram, Interpolate;
  }

  /** How many observations the histogram puts at or below `x`, spreading each bucket evenly. */
  function CountUpTo(s: seq<Bucket>, x: real, k: nat): real
    requires k < |s| && s[k].le.Finite? && LowerBound(s, k).Finite? && LowerBound(s, k).value < s[k].le.value
  {
    Interpolate(LowerCount(s, k), s[k].count, LowerBound(s, k).value, s[k].le.value, x)
  }

  lemma DivMul(a: real, b: real)
    requires b != 0.0
    ensures a / b * b == a
  {
  }

  lemma InterpolateInverse(lo: real, hi: real, before: real, upto: real, rank: real)
    requires lo < hi && before < upto
    ensures Interpolate(before, upto, lo, hi, Interpolate(lo, hi, before, upto, rank)) == rank
  {
    var share := (rank - before) / (upto - before);
    MulDiv(hi - lo, rank - before, upto - before);
    var x := Interpolate(lo, hi, before, upto, rank);
    assert x - lo == (hi - lo) * share;
    MulDiv(upto - before, x - lo, hi - lo);
    ScaleBack(hi - lo, share);
    DivMul(rank - before, upto - before);
  }

  lemma ScaleBack(width: real, share: real)
    requires width > 0.0
    ensures width * share / width == share
  {
  }

  lemma InterpolateEnd(lo: real, hi: real, before: real, upto: real)
    requires before < upto
    ensures Interpolate(lo, hi, before, upto, upto) == hi
  {
    MulDiv(hi - lo, upto - before, upto - before);
  }

  /** In a finite bucket the estimate inverts the counting: exactly `rank` observations lie at or below it. */
  lemma EstimateInverts(s: seq<Bucket>, k: nat, rank: real)
    requires Histogram(s) && Holds(s, rank, k) && rank >= 0.0 && s[k].le.Finite?
    ensures LowerBound(s, k).Finite? && LowerBound(s, k).value < s[k].le.value && Estimate(s, k, rank).Finite?
    ensures CountUpTo(s, Estimate(s, k, rank).value, k) == rank
  {
    BucketOrder(s, k);
    EstimateInBucket(s, k, rank);
    var lo, hi, before, upto := LowerBound(s, k).value, s[k].le.value, LowerCount(s, k), s[k].count;
    if upto > before {
      InterpolateInverse(lo, hi, before, upto, rank);
    } else {
      assert k == 0 && rank == 0.0 && upto == 0.0;
      InterpolateEnd(before, upto, lo, hi);
    }
    hide Interpolate, Histogram;
  }

  lemma HoldsMonotone(s: seq<Bucket>, a: real, b: real, i: nat, j: nat)
    requires a <= b && Holds(s, a, i) && Holds(s, b, j)
    ensures i <= j
  {
  }

  lemma BoundsGrow(s: seq<Bucket>, i: nat, j: nat)
    requires Histogram(s) && i < j < |s|
    ensures s[i].le.Finite? && LowerBound(s, j).Finite? && s[i].le.value <= LowerBound(s, j).value
  {
    assert s[i].le.Finite? && s[j - 1].le.Finite?;
  }

  /** A higher rank never gets a lower estimate. */
  lemma EstimateMonotone(s: seq<Bucket>, a: real, b: real, i: nat, j: nat)
    requires Histogram(s) && 0.0 <= a <= b && Holds(s, a, i) && Holds(s, b, j)
    ensures LowerBound(s, i).Finite? && LowerBound(s, j).Finite?
    ensures Estimate(s, i, a).Finite? && Estimate(s, j, b).Finite?
    ensures Estimate(s, i, a).value <= Estimate(s, j, b).value
  {
    EstimateInBucket(s, i, a);
    EstimateInBucket(s, j, b);
    HoldsMonotone(s, a, b, i, j);
    if i < j {
      BoundsGrow(s, i, j);
    } else if s[i].le.Finite? && s[i].count > LowerCount(s, i) {
      BucketOrder(s, i);
      InterpolateMonotone(LowerBound(s, i).value, s[i].le.value, LowerCount(s, i), s[i].count, a, b);
    }
    hide Interpolate, Histogram;
  }

  /** On a histogram with observations and 0 <= q <= 1 there is an answer, it is finite, and it comes from the
      bucket that holds the rank: the return after the loop is never taken. */
  lemma QuantileInBucket(q: real, s: seq<Bucket>, r: Option<Bound>) returns (k: nat)
    requires Histogram(s) && s != [] && Total(s) > 0.0 && 0.0 <= q <= 1.0 && IsQuantile(q, s, r)
    ensures r.Some? && r.value.Finite? && EstimatedAt(s, Rank(q, s), r.value, k) && LowerBound(s, k).Finite?
    ensures if s[k].le.Inf? then r.value == LowerBound(s, k)
            else LowerBound(s, k).value <= r.value.value <= s[k].le.value
                 && LowerBound(s, k).value < s[k].le.value
                 && CountUpTo(s, r.value.value, k) == Rank(q, s)
  {
    var rank := Rank(q, s);
    RankInRange(q, s);
    hide Rank, Interpolate, Histogram, CountUpTo, Estimate;
    var holds := SomeBucketHolds(s, rank);
    assert s[holds].count >= rank;
    k :| EstimatedAt(s, rank, r.value, k);
    EstimateInBucket(s, k, rank);
    if s[k].le.Finite? {
      EstimateInverts(s, k, rank);
    }
  }

  /** The quantile grows with q. */
  lemma QuantileMonotone(p: real, q: real, s: seq<Bucket>, a: Option<Bound>, b: Option<Bound>)
    requires Histogram(s) && s != [] && Total(s) > 0.0 && 0.0 <= p <= q <= 1.0
    requires IsQuantile(p, s, a) && IsQuantile(q, s, b)
    ensures a.Some? && b.Some? && a.value.Finite? && b.value.Finite? && 0.0 <= a.value.value <= b.value.value
  {
    hide Histogram, Rank, IsQuantile, Estimate, CountUpTo, Interpolate;
    var i := QuantileInBucket(p, s, a);
    var j := QuantileInBucket(q, s, b);
    RankInRange(p, s);
    RankMonotone(p, q, s);
    BucketOrder(s, i);
    EstimateMonotone(s, Rank(p, s), Rank(q, s), i, j);
  }
}
