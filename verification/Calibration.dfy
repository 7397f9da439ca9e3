/** The conformal abstention floor and the bucket loop of the calibration sidecar. */
module Calibration {
  import opened Basics
  import opened Sorting
  import opened WilsonBound

  // ---- Conformal floor ----

  /** A window row; both fields may be missing. */
  datatype WindowRow = WindowRow(confidence: Option<real>, verdict: Option<string>)

  function Rejected(window: seq<WindowRow>): seq<real> {
    if window == [] then []
    else if window[0].verdict == Some("rejected") && window[0].confidence.Some?
    then [window[0].confidence.value] + Rejected(window[1..])
    else Rejected(window[1..])
  }

  predicate AtMost(a: real, b: real) {
    a <= b
  }

  function Ceil(x: real): int {
    -(-x).Floor
  }

  /** (1 - epsilon) of `n` rows. */
  function Share(n: nat, epsilon: real): real {
    (1.0 - epsilon) * n as real
  }

  /** The index before the clamp. */
  function RawIndex(n: nat, epsilon: real): int {
    Ceil(Share(n, epsilon)) - 1
  }

  function Clamp(i: int, n: nat): nat
    requires n > 0
  {
    if i > n - 1 then n - 1 else if i < 0 then 0 else i
  }

  function ConformalFloor(window: seq<WindowRow>, epsilon: real): real {
    var sorted := Sort(Rejected(window), AtMost);
    if sorted == [] then 0.0 else sorted[Clamp(RawIndex(|sorted|, epsilon), |sorted|)]
  }

  function CountAtMost(xs: seq<real>, v: real): nat {
    if xs == [] then 0 else (if xs[0] <= v then 1 else 0) + CountAtMost(xs[1..], v)
  }

  lemma {:induction false} CountInsert(x: real, xs: seq<real>, v: real)
    ensures CountAtMost(Insert(x, xs, AtMost), v) == (if x <= v then 1 else 0) + CountAtMost(xs, v)
  {
    if xs != [] && !AtMost(x, xs[0]) {
      CountInsert(x, xs[1..], v);
    }
  }

  lemma {:induction false} CountSort(xs: seq<real>, v: real)
    ensures CountAtMost(Sort(xs, AtMost), v) == CountAtMost(xs, v)
  {
    if xs != [] {
      CountSort(xs[1..], v);
      CountInsert(xs[0], Sort(xs[1..], AtMost), v);
    }
  }

  lemma {:induction false} CountAtLeast(xs: seq<real>, v: real, m: nat)
    requires m <= |xs| && forall k :: 0 <= k < m ==> xs[k] <= v
    ensures CountAtMost(xs, v) >= m
  {
    if m > 0 {
      CountAtLeast(xs[1..], v, m - 1);
    }
  }

  lemma {:induction false} CountBelow(xs: seq<real>, v: real, m: nat)
    requires m <= |xs| && forall k :: m <= k < |xs| ==> xs[k] > v
    ensures CountAtMost(xs, v) <= m
  {
    if xs != [] {
      CountBelow(xs[1..], v, if m == 0 then 0 else m - 1);
    }
  }

  /** The rejected confidences: those of the rows with verdict "rejected" and a confidence, in order, none twice. */
  lemma {:induction false} RejectedAppend(window: seq<WindowRow>, row: WindowRow)
    ensures Rejected(window + [row]) ==
            Rejected(window) + if row.verdict == Some("rejected") && row.confidence.Some? then [row.confidence.value] else []
  {
    if window == [] {
      assert (window + [row])[1..] == [];
    } else {
      assert (window + [row])[1..] == window[1..] + [row];
      RejectedAppend(window[1..], row);
    }
  }

  /** Without any the floor is 0. */
  lemma {:induction false} NoRejectionNoFloor(window: seq<WindowRow>, epsilon: real)
    requires forall row <- window :: row.verdict != Some("rejected") || row.confidence.None?
    ensures Rejected(window) == [] && ConformalFloor(window, epsilon) == 0.0
  {
    if window != [] {
      assert window[0] in window;
      NoRejectionNoFloor(window[1..], epsilon);
    }
  }

  /** For 0 <= epsilon < 1 the clamp never changes the index. */
  lemma ClampIsIdle(n: nat, epsilon: real)
    requires n > 0 && 0.0 <= epsilon < 1.0
    ensures Clamp(RawIndex(n, epsilon), n) == RawIndex(n, epsilon)
    ensures RawIndex(n, epsilon) as real < Share(n, epsilon) <= (RawIndex(n, epsilon) + 1) as real
  {
    ShareInRange(n, epsilon);
    CeilIndex(Share(n, epsilon), n);
  }

  lemma ShareInRange(n: nat, epsilon: real)
    requires n > 0 && 0.0 <= epsilon < 1.0
    ensures 0.0 < Share(n, epsilon) <= n as real
  {
    var r, k := 1.0 - epsilon, n as real;
    assert 0.0 < r * k <= k;
  }

  lemma CeilIndex(share: real, n: nat)
    requires 0.0 < share <= n as real
    ensures 0 <= Ceil(share) - 1 < n && (Ceil(share) - 1) as real < share <= Ceil(share) as real
  {}

  /** In a sorted list, position `idx` splits the values that cover `share` elements from those that do not. */
  lemma QuantileOfSorted(sorted: seq<real>, idx: nat, share: real)
    requires Sorted(sorted, AtMost) && idx < |sorted| && idx as real < share <= (idx + 1) as real
    ensures CountAtMost(sorted, sorted[idx]) as real >= share
    ensures forall v :: v < sorted[idx] ==> (CountAtMost(sorted, v) as real) < share
  {
    CountAtLeast(sorted, sorted[idx], idx + 1);
    forall v | v < sorted[idx] ensures CountAtMost(sorted, v) <= idx {
      CountBelow(sorted, v, idx);
    }
  }

  /** The floor is the least rejected confidence that at least (1 - epsilon) of the rejected confidences do not exceed. */
  lemma FloorIsQuantile(window: seq<WindowRow>, epsilon: real)
    requires 0.0 <= epsilon < 1.0 && Rejected(window) != []
    ensures
      var rejected, floor := Rejected(window), ConformalFloor(window, epsilon);
      && floor in rejected
      && CountAtMost(rejected, floor) as real >= (1.0 - epsilon) * |rejected| as real
      && (forall v <- rejected :: CountAtMost(rejected, v) as real >= (1.0 - epsilon) * |rejected| as real ==> floor <= v)
  {
    FloorCoversShare(window, epsilon);
  }

  lemma FloorCoversShare(window: seq<WindowRow>, epsilon: real)
    requires 0.0 <= epsilon < 1.0 && Rejected(window) != []
    ensures
      var rejected, floor := Rejected(window), ConformalFloor(window, epsilon);
      && floor in rejected
      && CountAtMost(rejected, floor) as real >= Share(|rejected|, epsilon)
      && (forall v <- rejected :: CountAtMost(rejected, v) as real >= Share(|rejected|, epsilon) ==> floor <= v)
  {
    var rejected := Rejected(window);
    var sorted := Sort(rejected, AtMost);
    SortPermutes(rejected, AtMost);
    SortSorts(rejected, AtMost);
    ClampIsIdle(|sorted|, epsilon);
    var idx, share := RawIndex(|sorted|, epsilon), Share(|sorted|, epsilon);
    QuantileOfSorted(sorted, idx, share);
    assert sorted[idx] in multiset(rejected);
    forall v ensures CountAtMost(sorted, v) == CountAtMost(rejected, v) {
      CountSort(rejected, v);
    }
  }

  lemma CeilMonotone(a: real, b: real)
    requires a <= b
    ensures Ceil(a) <= Ceil(b)
  {}

  lemma ShareFalls(n: nat, e: real, e': real)
    requires e <= e'
    ensures Share(n, e') <= Share(n, e)
  {
    var k := n as real;
    assert (e' - e) * k >= 0.0;
  }

  lemma IndexMonotone(n: nat, e: real, e': real)
    requires n > 0 && e <= e'
    ensures Clamp(RawIndex(n, e'), n) <= Clamp(RawIndex(n, e), n)
  {
    ShareFalls(n, e, e');
    CeilMonotone(Share(n, e'), Share(n, e));
  }

  /** A larger tolerance never raises the floor, whatever the two tolerances are. */
  lemma FloorFallsWithEpsilon(window: seq<WindowRow>, e: real, e': real)
    requires e <= e'
    ensures ConformalFloor(window, e') <= ConformalFloor(window, e)
  {
    var sorted := Sort(Rejected(window), AtMost);
    SortSorts(Rejected(window), AtMost);
    if sorted != [] {
      IndexMonotone(|sorted|, e, e');
    }
  }

  // ---- Bucket loop ----

  datatype RawBucket = RawBucket(lo: real, hi: real, accepted: int, rejected: int)

  datatype Bucket = Bucket(lo: real, hi: real, alpha: real, beta: real, bound: real, sample: int)

  predicate Near(a: real, b: real) {
    Abs(a - b) < 0.000000001
  }

  predicate Covers(b: RawBucket, lo: real, hi: real) {
    Near(b.lo, lo) && Near(b.hi, hi)
  }

  function Edge(i: int, n: int): real
    requires n > 0
  {
    i as real / n as real
  }

  /** The counts the loop attributes to one range: those of the first raw bucket on it. */
  ghost predicate Attributed(raw: seq<RawBucket>, lo: real, hi: real, acc: int, rej: int) {
    || (acc == 0 && rej == 0 && forall k :: 0 <= k < |raw| ==> !Covers(raw[k], lo, hi))
    || (exists k :: 0 <= k < |raw| && Covers(raw[k], lo, hi) && acc == raw[k].accepted && rej == raw[k].rejected
         && forall j :: 0 <= j < k ==> !Covers(raw[j], lo, hi))
  }

  /** A raw bucket is on a range if both ends agree to within a billionth. */
  lemma CoversMeans(b: RawBucket, lo: real, hi: real)
    ensures Covers(b, lo, hi) <==>
            -0.000000001 < b.lo - lo < 0.000000001 && -0.000000001 < b.hi - hi < 0.000000001
  {
  }

  /** Ranges meet at their ends, the first starts at 0 and the last ends at 1. */
  lemma EdgesTile(i: int, n: int)
    requires n > 0
    ensures Edge(0, n) == 0.0 && Edge(n, n) == 1.0 && Edge(i, n) * n as real == i as real && Edge(i, n) < Edge(i + 1, n)
  {
    QuotientPositive(1.0, n as real);
    Quotient(i as real, n as real);
    Quotient((i + 1) as real, n as real);
    Compare(Edge(i, n), Edge(i + 1, n), n as real);
  }

  method FindCounts(raw: seq<RawBucket>, lo: real, hi: real) returns (acc: int, rej: int)
    ensures Attributed(raw, lo, hi, acc, rej)
  {
    for k := 0 to |raw|
      invariant forall j :: 0 <= j < k ==> !Covers(raw[j], lo, hi)
    {
      if Covers(raw[k], lo, hi) {
        return raw[k].accepted, raw[k].rejected;
      }
    }
    return 0, 0;
  }

  function Mean(alpha: real, beta: real): real {
    if alpha + beta > 0.0 then alpha / (alpha + beta) else 0.0
  }

  ghost predicate FittedFrom(b: Bucket, raw: seq<RawBucket>, alpha0: real, beta0: real, z: real, sqrt: real -> real, acc: int, rej: int) {
    && Attributed(raw, b.lo, b.hi, acc, rej) && b.sample == acc + rej
    && b.alpha == alpha0 + acc as real && b.beta == beta0 + rej as real
    && b.bound == LowerBound(b.alpha, b.beta, z, sqrt)
  }

  /** Bucket `i` of `n`: its range, the posterior of its own counts, and a bound in [0, mean] where that is a
      posterior at all. */
  ghost predicate Fitted(b: Bucket, i: int, n: int, raw: seq<RawBucket>, alpha0: real, beta0: real, z: real, sqrt: real -> real)
    requires n > 0
  {
    && b.lo == Edge(i, n) && b.hi == Edge(i + 1, n)
    && 0.0 <= b.bound && (b.alpha >= 0.0 && b.beta >= 0.0 ==> b.bound <= Mean(b.alpha, b.beta))
    && exists acc: int, rej: int :: FittedFrom(b, raw, alpha0, beta0, z, sqrt, acc, rej)
  }

  lemma BoundWithinMean(alpha: real, beta: real, z: real, sqrt: real -> real)
    requires IsSqrt(sqrt) && alpha >= 0.0 && beta >= 0.0
    ensures 0.0 <= LowerBound(alpha, beta, z, sqrt) <= Mean(alpha, beta)
  {
    if alpha + beta >= 2.0 {
      BoundBelowMean(alpha, beta, z, sqrt);
    } else if alpha + beta > 0.0 {
      QuotientNonNegative(alpha, alpha + beta);
    }
  }

  function SumSamples(bs: seq<Bucket>): int {
    if bs == [] then 0 else SumSamples(bs[..|bs| - 1]) + bs[|bs| - 1].sample
  }

  function SumAlpha(bs: seq<Bucket>): real {
    if bs == [] then 0.0 else SumAlpha(bs[..|bs| - 1]) + bs[|bs| - 1].alpha
  }

  lemma SumsAppend(bs: seq<Bucket>, b: Bucket)
    ensures SumSamples(bs + [b]) == SumSamples(bs) + b.sample && SumAlpha(bs + [b]) == SumAlpha(bs) + b.alpha
  {
    assert (bs + [b])[..|bs|] == bs;
  }

  /** `k` priors of weight `a`. */
  function Priors(k: nat, a: real): real {
    if k == 0 then 0.0 else Priors(k - 1, a) + a
  }

  /** math.sqrt raises an error: the counts and priors are no posterior, and the radicand is negative. */
  predicate Raises(alpha: real, beta: real, z: real) {
    alpha + beta >= 2.0 && RadicandOf(alpha / (alpha + beta), alpha + beta, z * z) < 0.0
  }

  lemma PosteriorNeverRaises(alpha: real, beta: real, z: real)
    requires alpha >= 0.0 && beta >= 0.0
    ensures !Raises(alpha, beta, z)
  {
    if alpha + beta >= 2.0 {
      var n, w := alpha + beta, z * z;
      Proportion(alpha, beta);
      RadicandValue(n, alpha / n, w, w / n);
    }
  }

  /** Bucket `i` raises for the counts attributed to it. */
  ghost predicate RaisesAt(raw: seq<RawBucket>, alpha0: real, beta0: real, i: int, n: int, z: real)
    requires n > 0
  {
    exists acc: int, rej: int :: RaisesWith(raw, alpha0, beta0, i, n, z, acc, rej)
  }

  ghost predicate RaisesWith(raw: seq<RawBucket>, alpha0: real, beta0: real, i: int, n: int, z: real, acc: int, rej: int)
    requires n > 0
  {
    Attributed(raw, Edge(i, n), Edge(i + 1, n), acc, rej) && Raises(alpha0 + acc as real, beta0 + rej as real, z)
  }

  lemma {:induction false} ProperCountsNeverRaise(raw: seq<RawBucket>, alpha0: real, beta0: real, i: int, n: int, z: real)
    requires n > 0 && alpha0 >= 0.0 && beta0 >= 0.0 && (forall b <- raw :: b.accepted >= 0 && b.rejected >= 0)
    ensures !RaisesAt(raw, alpha0, beta0, i, n, z)
  {
    forall acc: int, rej: int ensures !RaisesWith(raw, alpha0, beta0, i, n, z, acc, rej) {
      if Attributed(raw, Edge(i, n), Edge(i + 1, n), acc, rej) {
        assert acc >= 0 && rej >= 0;
        PosteriorNeverRaises(alpha0 + acc as real, beta0 + rej as real, z);
      }
    }
  }

  lemma AttributedIsUnique(raw: seq<RawBucket>, lo: real, hi: real, a: int, r: int, a': int, r': int)
    ensures Attributed(raw, lo, hi, a, r) && Attributed(raw, lo, hi, a', r') ==> a == a' && r == r'
  {
  }

  lemma {:induction false} PriorsAdd(k: nat, a: real)
    ensures Priors(k, a) == k as real * a
  {
    if k > 0 {
      PriorsAdd(k - 1, a);
      assert k as real * a == (k - 1) as real * a + a;
    }
  }

  ghost predicate FitsAt(b: Bucket, i: int, n: int, raw: seq<RawBucket>, alpha0: real, beta0: real, z: real, sqrt: real -> real)
    requires n > 0
  {
    Fitted(b, i, n, raw, alpha0, beta0, z, sqrt) && !RaisesAt(raw, alpha0, beta0, i, n, z)
  }

  /** The buckets so far all fit their ranges. */
  ghost predicate AllFit(bs: seq<Bucket>, n: int, raw: seq<RawBucket>, alpha0: real, beta0: real, z: real, sqrt: real -> real)
    requires n > 0
  {
    bs == [] || (var last := |bs| - 1;
                 AllFit(bs[..last], n, raw, alpha0, beta0, z, sqrt) && FitsAt(bs[last], last, n, raw, alpha0, beta0, z, sqrt))
  }

  lemma {:induction false} AllFitAt(bs: seq<Bucket>, k: nat, n: int, raw: seq<RawBucket>, alpha0: real, beta0: real, z: real, sqrt: real -> real)
    requires n > 0 && AllFit(bs, n, raw, alpha0, beta0, z, sqrt) && k < |bs|
    ensures FitsAt(bs[k], k, n, raw, alpha0, beta0, z, sqrt)
  {
    if k < |bs| - 1 {
      AllFitAt(bs[..|bs| - 1], k, n, raw, alpha0, beta0, z, sqrt);
    }
  }

  method FitOne(raw: seq<RawBucket>, alpha0: real, beta0: real, i: int, n: int, z: real, sqrt: real -> real)
    returns (ok: bool, b: Bucket, acc: int, rej: int)
    requires IsSqrt(sqrt) && n > 0
    ensures ok <==> !RaisesAt(raw, alpha0, beta0, i, n, z)
    ensures ok ==> FitsAt(b, i, n, raw, alpha0, beta0, z, sqrt)
    ensures ok ==> b.alpha == alpha0 + acc as real && b.beta == beta0 + rej as real && b.sample == acc + rej
  {
    var lo, hi := Edge(i, n), Edge(i + 1, n);
    acc, rej := FindCounts(raw, lo, hi);
    var alpha, beta := alpha0 + acc as real, beta0 + rej as real;
    ok := !Raises(alpha, beta, z);
    assert !ok ==> RaisesWith(raw, alpha0, beta0, i, n, z, acc, rej);
    forall a: int, r: int ensures RaisesWith(raw, alpha0, beta0, i, n, z, a, r) ==> a == acc && r == rej {
      AttributedIsUnique(raw, lo, hi, a, r, acc, rej);
    }
    b := Bucket(lo, hi, alpha, beta, if ok then LowerBound(alpha, beta, z, sqrt) else 0.0, acc + rej);
    if ok {
      if alpha >= 0.0 && beta >= 0.0 {
        BoundWithinMean(alpha, beta, z, sqrt);
      }
      assert FittedFrom(b, raw, alpha0, beta0, z, sqrt, acc, rej);
    }
  }

  /** The buckets tile [0, 1] in order, each is fitted to the first raw bucket on its range, and the
      totals are exactly what the posteriors gained over the priors; or some bucket raises, which proper
      counts and priors never do (`ProperCountsNeverRaise`). */
  method FitBuckets(raw: seq<RawBucket>, alpha0: real, beta0: real, n: int, z: real, sqrt: real -> real)
    returns (ok: bool, fitted: seq<Bucket>, accepted: int, rejected: int, sample: int)
    requires IsSqrt(sqrt)
    ensures !ok ==> exists i :: 0 <= i < n && RaisesAt(raw, alpha0, beta0, i, n, z)
    ensures ok ==> forall i :: 0 <= i < n ==> !RaisesAt(raw, alpha0, beta0, i, n, z)
    ensures ok ==> |fitted| == if n < 0 then 0 else n
    ensures ok ==> forall i :: 0 <= i < |fitted| ==> Fitted(fitted[i], i, n, raw, alpha0, beta0, z, sqrt)
    ensures ok ==> sample == accepted + rejected == SumSamples(fitted)
    ensures ok ==> SumAlpha(fitted) == Priors(|fitted|, alpha0) + accepted as real
  {
    ok, fitted, accepted, rejected, sample := FitLoop(raw, alpha0, beta0, n, z, sqrt);
    if ok && n > 0 {
      AllFitMeans(fitted, n, raw, alpha0, beta0, z, sqrt);
    }
  }

  lemma {:induction false} AllFitMeans(bs: seq<Bucket>, n: int, raw: seq<RawBucket>, alpha0: real, beta0: real, z: real, sqrt: real -> real)
    requires n > 0 && |bs| == n && AllFit(bs, n, raw, alpha0, beta0, z, sqrt)
    ensures forall i :: 0 <= i < n ==> !RaisesAt(raw, alpha0, beta0, i, n, z)
    ensures forall i :: 0 <= i < n ==> Fitted(bs[i], i, n, raw, alpha0, beta0, z, sqrt)
  {
    forall k | 0 <= k < n
      ensures !RaisesAt(raw, alpha0, beta0, k, n, z) && Fitted(bs[k], k, n, raw, alpha0, beta0, z, sqrt)
    {
      AllFitAt(bs, k, n, raw, alpha0, beta0, z, sqrt);
    }
  }

  method FitLoop(raw: seq<RawBucket>, alpha0: real, beta0: real, n: int, z: real, sqrt: real -> real)
    returns (ok: bool, fitted: seq<Bucket>, accepted: int, rejected: int, sample: int)
    requires IsSqrt(sqrt)
    ensures !ok ==> |fitted| < n && RaisesAt(raw, alpha0, beta0, |fitted|, n, z)
    ensures ok ==> |fitted| == (if n < 0 then 0 else n) && (n > 0 ==> AllFit(fitted, n, raw, alpha0, beta0, z, sqrt))
    ensures ok ==> sample == accepted + rejected == SumSamples(fitted)
    ensures ok ==> SumAlpha(fitted) == Priors(|fitted|, alpha0) + accepted as real
  {
    ok, fitted, accepted, rejected, sample := true, [], 0, 0, 0;
    for i := 0 to if n < 0 then 0 else n
      invariant |fitted| == i
      invariant n > 0 ==> AllFit(fitted, n, raw, alpha0, beta0, z, sqrt)
      invariant sample == accepted + rejected == SumSamples(fitted)
      invariant SumAlpha(fitted) == Priors(i, alpha0) + accepted as real
    {
      var fits, b, acc, rej := FitOne(raw, alpha0, beta0, i, n, z, sqrt);
      if !fits {
        ok := false;
        return;
      }
      SumsAppend(fitted, b);
      assert (fitted + [b])[..i] == fitted;
      fitted := fitted + [b];
      accepted, rejected, sample := accepted + acc, rejected + rej, sample + (acc + rej);
    }
  }
}
