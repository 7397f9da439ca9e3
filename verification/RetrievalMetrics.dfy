/** nDCG@k and recall@k of the BEIR gate, over exact reals with an abstract discount. */
module RetrievalMetrics {
  import opened Basics
  import opened Sorting

  /** Judgements of one query: a dictionary in insertion order. */
  type Gold = seq<(string, int)>

  /** The discount 1/log2(i+2), of which only positivity and monotonicity matter. */
  ghost predicate IsDiscount(d: nat -> real) {
    forall i: nat :: d(i) > 0.0 && d(i) >= d(i + 1)
  }

  function Pow2(r: int): real
    decreases if r < 0 then -r else r
  {
    if r == 0 then 1.0 else if r > 0 then 2.0 * Pow2(r - 1) else Pow2(r + 1) / 2.0
  }

  function Gain(r: int): real {
    Pow2(r) - 1.0
  }

  /** Discounted gain of `rels` when its first element stands at rank `i`. */
  function Dcg(rels: seq<int>, d: nat -> real, i: nat): real {
    if rels == [] then 0.0 else Gain(rels[0]) * d(i) + Dcg(rels[1..], d, i + 1)
  }

  function Get(gold: Gold, cid: string): int {
    if gold == [] then 0 else if gold[0].0 == cid then gold[0].1 else Get(gold[1..], cid)
  }

  function Values(gold: Gold): seq<int> {
    seq(|gold|, i requires 0 <= i < |gold| => gold[i].1)
  }

  function Rels(ranked: seq<string>, gold: Gold): seq<int> {
    seq(|ranked|, i requires 0 <= i < |ranked| => Get(gold, ranked[i]))
  }

  predicate Descending(a: int, b: int) {
    a >= b
  }

  function Ideal(gold: Gold, k: nat): seq<int> {
    Take(Sort(Values(gold), Descending), k)
  }

  function Ndcg(ranked: seq<string>, gold: Gold, k: nat, d: nat -> real): real {
    var idcg := Dcg(Ideal(gold, k), d, 0);
    if idcg > 0.0 then Dcg(Rels(Take(ranked, k), gold), d, 0) / idcg else 0.0
  }

  ghost predicate IsDict(gold: Gold) {
    forall i, j :: 0 <= i < j < |gold| ==> gold[i].0 != gold[j].0
  }

  ghost predicate NonNegative(xs: seq<int>) {
    forall i :: 0 <= i < |xs| ==> xs[i] >= 0
  }

  // ---- Gains ----

  /** A grade is worth 2^r - 1: nothing at 0, and one more than twice as much with each grade. */
  lemma GainDoubles(r: int)
    ensures Gain(0) == 0.0 && Gain(r + 1) == 2.0 * Gain(r) + 1.0
  {
  }

  /** The sum is over ranks: each document adds its gain times the discount of its own rank. */
  lemma {:induction false} DcgAppend(rels: seq<int>, r: int, d: nat -> real, i: nat)
    ensures Dcg(rels + [r], d, i) == Dcg(rels, d, i) + Gain(r) * d(i + |rels|)
  {
    if rels == [] {
      assert (rels + [r])[1..] == [];
    } else {
      assert (rels + [r])[1..] == rels[1..] + [r];
      DcgAppend(rels[1..], r, d, i + 1);
    }
  }

  lemma {:induction false} GainMonotone(a: int, b: int)
    requires 0 <= a <= b
    ensures 0.0 <= Gain(a) <= Gain(b)
    decreases b
  {
    if a < b {
      GainMonotone(a, b - 1);
    } else if a > 0 {
      GainMonotone(a - 1, b - 1);
    }
  }

  function SumGain(xs: seq<int>): real {
    if xs == [] then 0.0 else Gain(xs[0]) + SumGain(xs[1..])
  }

  lemma {:induction false} SumGainAppend(xs: seq<int>, ys: seq<int>)
    ensures SumGain(xs + ys) == SumGain(xs) + SumGain(ys)
  {
    if xs == [] {
      assert xs + ys == ys;
    } else {
      assert (xs + ys)[1..] == xs[1..] + ys;
      SumGainAppend(xs[1..], ys);
    }
  }

  lemma {:induction false} SumGainNonNegative(xs: seq<int>)
    requires NonNegative(xs)
    ensures SumGain(xs) >= 0.0
  {
    if xs != [] {
      GainMonotone(0, xs[0]);
      SumGainNonNegative(xs[1..]);
    }
  }

  lemma {:induction false} DcgNonNegative(xs: seq<int>, d: nat -> real, i: nat)
    requires IsDiscount(d) && NonNegative(xs)
    ensures Dcg(xs, d, i) >= 0.0
  {
    if xs != [] {
      GainMonotone(0, xs[0]);
      DcgNonNegative(xs[1..], d, i + 1);
    }
  }

  // ---- Summation by parts: prefix dominance carries over to discounted sums ----

  ghost predicate Dominates(ys: seq<int>, xs: seq<int>, slack: real) {
    forall m: nat :: SumGain(Take(xs, m)) <= SumGain(Take(ys, m)) + slack
  }

  function Head(xs: seq<int>): int {
    if xs == [] then 0 else xs[0]
  }

  function Tail(xs: seq<int>): seq<int> {
    if xs == [] then [] else xs[1..]
  }

  lemma TakeSum(xs: seq<int>, m: nat)
    ensures SumGain(Take(xs, m + 1)) == Gain(Head(xs)) + SumGain(Take(Tail(xs), m))
  {
    if xs != [] {
      assert Take(xs, m + 1)[1..] == Take(Tail(xs), m);
    }
  }

  lemma DcgUnfold(xs: seq<int>, d: nat -> real, i: nat)
    ensures Dcg(xs, d, i) == Gain(Head(xs)) * d(i) + Dcg(Tail(xs), d, i + 1)
  {}

  lemma PartsStep(x: real, y: real, slack: real, a: real, b: real, restX: real, restY: real)
    requires a >= b && slack + y - x >= 0.0
    requires restX <= restY + (slack + y - x) * b
    ensures x * a + restX <= y * a + restY + slack * a
  {
    assert (slack + y - x) * b <= (slack + y - x) * a;
  }

  /** Dominance passes to the tails, with the slack the heads leave. */
  lemma {:induction false} TailDominates(xs: seq<int>, ys: seq<int>, slack: real)
    requires xs != [] && Dominates(ys, xs, slack)
    ensures slack + Gain(Head(ys)) - Gain(xs[0]) >= 0.0
    ensures Dominates(Tail(ys), xs[1..], slack + Gain(Head(ys)) - Gain(xs[0]))
  {
    forall m: nat
      ensures SumGain(Take(xs[1..], m)) <= SumGain(Take(Tail(ys), m)) + (slack + Gain(Head(ys)) - Gain(xs[0]))
    {
      TakeSum(xs, m);
      TakeSum(ys, m);
      assert SumGain(Take(xs, m + 1)) <= SumGain(Take(ys, m + 1)) + slack;
    }
    TakeSum(xs, 0);
    TakeSum(ys, 0);
    assert SumGain(Take(xs, 1)) <= SumGain(Take(ys, 1)) + slack;
  }

  lemma {:induction false} DominanceOrdersDcg(xs: seq<int>, ys: seq<int>, d: nat -> real, i: nat, slack: real)
    requires IsDiscount(d) && NonNegative(xs) && NonNegative(ys) && slack >= 0.0
    requires Dominates(ys, xs, slack)
    ensures Dcg(xs, d, i) <= Dcg(ys, d, i) + slack * d(i)
    decreases |xs|
  {
    if xs == [] {
      DcgNonNegative(ys, d, i);
      assert slack * d(i) >= 0.0;
    } else {
      TailDominates(xs, ys, slack);
      DominanceOrdersDcg(xs[1..], Tail(ys), d, i + 1, slack + Gain(Head(ys)) - Gain(xs[0]));
      DcgCombine(xs, ys, d, i, slack);
    }
  }

  lemma {:induction false} DcgCombine(xs: seq<int>, ys: seq<int>, d: nat -> real, i: nat, slack: real)
    requires IsDiscount(d) && xs != [] && slack + Gain(Head(ys)) - Gain(xs[0]) >= 0.0
    requires Dcg(xs[1..], d, i + 1) <= Dcg(Tail(ys), d, i + 1) + (slack + Gain(Head(ys)) - Gain(xs[0])) * d(i + 1)
    ensures Dcg(xs, d, i) <= Dcg(ys, d, i) + slack * d(i)
  {
    DcgUnfold(xs, d, i);
    DcgUnfold(ys, d, i);
    DcgSum(Gain(Head(xs)), Gain(Head(ys)), slack, d(i), d(i + 1), Dcg(Tail(xs), d, i + 1), Dcg(Tail(ys), d, i + 1),
           Dcg(xs, d, i), Dcg(ys, d, i));
  }

  lemma DcgSum(x: real, y: real, slack: real, a: real, b: real, restX: real, restY: real, sumX: real, sumY: real)
    requires a >= b && slack + y - x >= 0.0 && restX <= restY + (slack + y - x) * b
    requires sumX == x * a + restX && sumY == y * a + restY
    ensures sumX <= sumY + slack * a
  {
    PartsStep(x, y, slack, a, b, restX, restY);
  }

  // ---- No selection of judgements beats the sorted top ----

  lemma RemoveAt(xs: seq<int>, j: nat)
    requires j < |xs|
    ensures
      var rest := xs[..j] + xs[j + 1..];
      multiset(xs) == multiset(rest) + multiset{xs[j]} && SumGain(xs) == SumGain(rest) + Gain(xs[j])
  {
    assert xs == xs[..j] + ([xs[j]] + xs[j + 1..]);
    SumGainAppend(xs[..j], [xs[j]] + xs[j + 1..]);
    SumGainAppend([xs[j]], xs[j + 1..]);
    SumGainAppend(xs[..j], xs[j + 1..]);
  }

  /** An element to set against the greatest judgement `v[0]`, so that the others still fit into the rest of `v`. */
  lemma Opponent(xs: seq<int>, v: seq<int>) returns (j: nat)
    requires Sorted(v, Descending) && multiset(xs) <= multiset(v) && xs != []
    ensures j < |xs| && v != [] && xs[j] in v && xs[j] <= v[0]
    ensures multiset(xs[..j] + xs[j + 1..]) <= multiset(v[1..])
  {
    assert xs[0] in multiset(v);
    if v[0] in xs {
      j :| j < |xs| && xs[j] == v[0];
    } else {
      j := 0;
    }
    assert xs[j] in multiset(v);
    RemoveAt(xs, j);
    TailMultiset(v);
  }

  lemma {:induction false} TopIsBest(xs: seq<int>, v: seq<int>)
    requires Sorted(v, Descending) && multiset(xs) <= multiset(v) && NonNegative(v)
    ensures |xs| <= |v| && SumGain(xs) <= SumGain(v[..|xs|])
    decreases |v|
  {
    if xs != [] {
      var j := Opponent(xs, v);
      var rest := xs[..j] + xs[j + 1..];
      TopIsBest(rest, v[1..]);
      RemoveAt(xs, j);
      GainMonotone(xs[j], v[0]);
      assert v[..|xs|][1..] == v[1..][..|rest|];
    }
  }

  // ---- The judged part of a ranking ----

  predicate Judged?(gold: Gold, cid: string) {
    exists i :: 0 <= i < |gold| && gold[i].0 == cid
  }

  /** The scores of the judged documents among `ids`. */
  function Judged(ids: seq<string>, gold: Gold): seq<int> {
    if ids == [] then []
    else if Judged?(gold, ids[0]) then [Get(gold, ids[0])] + Judged(ids[1..], gold)
    else Judged(ids[1..], gold)
  }

  lemma {:induction false} GetUnjudged(gold: Gold, cid: string)
    requires !Judged?(gold, cid)
    ensures Get(gold, cid) == 0
  {
    if gold != [] {
      assert gold[0].0 != cid;
      assert forall i :: 0 <= i < |gold[1..]| ==> gold[1..][i] == gold[i + 1];
      GetUnjudged(gold[1..], cid);
    }
  }

  lemma {:induction false} GetAt(gold: Gold, i: nat)
    requires IsDict(gold) && i < |gold|
    ensures Get(gold, gold[i].0) == gold[i].1
  {
    if i > 0 {
      GetAt(gold[1..], i - 1);
    }
  }

  lemma {:induction false} RelsSum(ids: seq<string>, gold: Gold)
    ensures SumGain(Rels(ids, gold)) == SumGain(Judged(ids, gold))
  {
    if ids != [] {
      assert Rels(ids, gold)[1..] == Rels(ids[1..], gold);
      RelsSum(ids[1..], gold);
      if !Judged?(gold, ids[0]) {
        GetUnjudged(gold, ids[0]);
      }
    }
  }

  function Without(gold: Gold, i: nat): Gold
    requires i < |gold|
  {
    gold[..i] + gold[i + 1..]
  }

  lemma WithoutKeepsOthers(gold: Gold, i: nat, cid: string)
    requires IsDict(gold) && i < |gold| && cid != gold[i].0
    ensures IsDict(Without(gold, i))
    ensures Judged?(Without(gold, i), cid) == Judged?(gold, cid)
    ensures Get(Without(gold, i), cid) == Get(gold, cid)
  {
    var less := Without(gold, i);
    forall k | 0 <= k < |gold| && k != i ensures gold[k] == less[if k < i then k else k - 1] {}
    if k :| 0 <= k < |gold| && gold[k].0 == cid {
      GetAt(gold, k);
      GetAt(less, if k < i then k else k - 1);
    } else {
      GetUnjudged(gold, cid);
      GetUnjudged(less, cid);
    }
  }

  lemma {:induction false} JudgedWithout(ids: seq<string>, gold: Gold, i: nat)
    requires IsDict(gold) && i < |gold| && gold[i].0 !in ids
    ensures Judged(ids, Without(gold, i)) == Judged(ids, gold)
  {
    if ids != [] {
      WithoutKeepsOthers(gold, i, ids[0]);
      JudgedWithout(ids[1..], gold, i);
    }
  }

  lemma ValuesWithout(gold: Gold, i: nat)
    requires i < |gold|
    ensures multiset(Values(gold)) == multiset(Values(Without(gold, i))) + multiset{gold[i].1}
  {
    var v := Values(gold);
    assert v == v[..i] + ([v[i]] + v[i + 1..]);
    assert Values(Without(gold, i)) == v[..i] + v[i + 1..];
  }

  /** Distinct documents spend each judgement at most once. */
  lemma {:induction false} JudgedFits(ids: seq<string>, gold: Gold)
    requires IsDict(gold) && Distinct(ids)
    ensures multiset(Judged(ids, gold)) <= multiset(Values(gold))
    decreases |ids|
  {
    if ids != [] {
      if Judged?(gold, ids[0]) {
        var i :| 0 <= i < |gold| && gold[i].0 == ids[0];
        GetAt(gold, i);
        JudgedWithout(ids[1..], gold, i);
        if |gold| > 1 {
          var k := if i == 0 then 1 else 0;
          WithoutKeepsOthers(gold, i, gold[k].0);
        }
        JudgedFits(ids[1..], Without(gold, i));
        ValuesWithout(gold, i);
      } else {
        JudgedFits(ids[1..], gold);
      }
    }
  }

  lemma SortedJudgements(gold: Gold)
    requires NonNegative(Values(gold))
    ensures
      var v := Sort(Values(gold), Descending);
      Sorted(v, Descending) && multiset(v) == multiset(Values(gold)) && NonNegative(v)
  {
    SortSorts(Values(gold), Descending);
    SortPermutes(Values(gold), Descending);
    var v := Sort(Values(gold), Descending);
    forall i | 0 <= i < |v| ensures v[i] >= 0 {
      assert v[i] in multiset(Values(gold));
    }
  }

  lemma {:induction false} GetNonNegative(gold: Gold, cid: string)
    requires NonNegative(Values(gold))
    ensures Get(gold, cid) >= 0
  {
    if gold != [] {
      assert Values(gold)[0] == gold[0].1;
      assert Values(gold[1..]) == Values(gold)[1..];
      GetNonNegative(gold[1..], cid);
    }
  }

  lemma LongerGainsMore(v: seq<int>, n: nat, m: nat)
    requires NonNegative(v) && n <= m
    ensures SumGain(Take(v, n)) <= SumGain(Take(v, m))
  {
    var short, long := Take(v, n), Take(v, m);
    assert long == short + long[|short|..];
    SumGainAppend(short, long[|short|..]);
    SumGainNonNegative(long[|short|..]);
  }

  /** The first `m` of any distinct ranking gain at most what the best `m` judgements gain. */
  lemma PrefixDominated(ids: seq<string>, gold: Gold)
    requires IsDict(gold) && NonNegative(Values(gold)) && Distinct(ids)
    ensures SumGain(Rels(ids, gold)) <= SumGain(Take(Sort(Values(gold), Descending), |ids|))
  {
    var v := Sort(Values(gold), Descending);
    var xs := Judged(ids, gold);
    RelsSum(ids, gold);
    JudgedFits(ids, gold);
    SortedJudgements(gold);
    TopIsBest(xs, v);
    JudgedLength(ids, gold);
    assert Take(v, |xs|) == v[..|xs|];
    LongerGainsMore(v, |xs|, |ids|);
  }

  lemma {:induction false} JudgedLength(ids: seq<string>, gold: Gold)
    ensures |Judged(ids, gold)| <= |ids|
  {
    if ids != [] {
      JudgedLength(ids[1..], gold);
    }
  }

  lemma IdealDominates(ranked: seq<string>, gold: Gold, k: nat)
    requires IsDict(gold) && NonNegative(Values(gold)) && Distinct(ranked)
    ensures Dominates(Ideal(gold, k), Rels(Take(ranked, k), gold), 0.0)
  {
    var v := Sort(Values(gold), Descending);
    var top := Take(ranked, k);
    forall m: nat ensures SumGain(Take(Rels(top, gold), m)) <= SumGain(Take(Ideal(gold, k), m)) {
      var ids := Take(top, m);
      assert Take(Rels(top, gold), m) == Rels(ids, gold);
      PrefixDominated(ids, gold);
      SortedJudgements(gold);
      assert Take(Ideal(gold, k), m) == Take(v, if k < m then k else m);
      LongerGainsMore(v, |ids|, if k < m then k else m);
    }
  }

  /** For non-negative judgements and a ranking of distinct documents, nDCG@k lies in [0, 1]. */
  lemma NdcgInUnitInterval(ranked: seq<string>, gold: Gold, k: nat, d: nat -> real)
    requires IsDiscount(d) && IsDict(gold) && NonNegative(Values(gold)) && Distinct(ranked)
    ensures 0.0 <= Ndcg(ranked, gold, k, d) <= 1.0
  {
    var rels, ideal := Rels(Take(ranked, k), gold), Ideal(gold, k);
    forall i | 0 <= i < |rels| ensures rels[i] >= 0 {
      GetNonNegative(gold, Take(ranked, k)[i]);
    }
    SortedJudgements(gold);
    IdealDominates(ranked, gold, k);
    DominanceOrdersDcg(rels, ideal, d, 0, 0.0);
    DcgNonNegative(rels, d, 0);
    if Dcg(ideal, d, 0) > 0.0 {
      QuotientInUnitInterval(Dcg(rels, d, 0), Dcg(ideal, d, 0));
    }
  }

  lemma QuotientInUnitInterval(a: real, b: real)
    requires 0.0 <= a <= b && b > 0.0
    ensures 0.0 <= a / b <= 1.0
  {}

  /** nDCG is the quotient of the ranking's sum by the ideal one, and 0 without an ideal gain. */
  lemma NdcgIsQuotient(ranked: seq<string>, gold: Gold, k: nat, d: nat -> real)
    ensures
      var rels, ideal := Rels(Take(ranked, k), gold), Take(Sort(Values(gold), Descending), k);
      if Dcg(ideal, d, 0) > 0.0 then Ndcg(ranked, gold, k, d) * Dcg(ideal, d, 0) == Dcg(rels, d, 0)
      else Ndcg(ranked, gold, k, d) == 0.0
  {
    var rels, ideal := Rels(Take(ranked, k), gold), Ideal(gold, k);
    if Dcg(ideal, d, 0) > 0.0 {
      QuotientTimes(Dcg(rels, d, 0), Dcg(ideal, d, 0));
    }
  }

  lemma QuotientTimes(a: real, b: real)
    requires b > 0.0
    ensures a / b * b == a
  {}

  // ---- The bound is attained ----

  predicate ScoreDescending(a: (string, int), b: (string, int)) {
    a.1 >= b.1
  }

  function Ids(gold: Gold): seq<string> {
    seq(|gold|, i requires 0 <= i < |gold| => gold[i].0)
  }

  /** The judged documents, best first. */
  function PerfectRanking(gold: Gold): seq<string> {
    Ids(Sort(gold, ScoreDescending))
  }

  lemma {:induction false} ValuesPermute(a: Gold, b: Gold)
    requires multiset(a) == multiset(b)
    ensures multiset(Values(a)) == multiset(Values(b))
  {
    assert |multiset(a)| == |multiset(b)|;
    if a != [] {
      assert a[0] in multiset(b);
      var j :| 0 <= j < |b| && b[j] == a[0];
      TailMultiset(a);
      assert b == b[..j] + ([b[j]] + b[j + 1..]);
      ValuesPermute(a[1..], Without(b, j));
      ValuesWithout(b, j);
      ValuesWithout(a, 0);
      assert Without(a, 0) == a[1..];
    }
  }

  /** Sorting the judgements by score and reading the scores is sorting the scores. */
  lemma ScoresOfSorted(gold: Gold)
    ensures Values(Sort(gold, ScoreDescending)) == Sort(Values(gold), Descending)
  {
    var byScore := Sort(gold, ScoreDescending);
    SortPermutes(gold, ScoreDescending);
    SortSorts(gold, ScoreDescending);
    ValuesPermute(gold, byScore);
    SortSorts(Values(gold), Descending);
    SortPermutes(Values(gold), Descending);
    assert Sorted(Values(byScore), Descending);
    SortedIsUnique(Values(byScore), Sort(Values(gold), Descending), Descending);
  }

  lemma PerfectRels(gold: Gold)
    requires IsDict(gold)
    ensures Rels(PerfectRanking(gold), gold) == Values(Sort(gold, ScoreDescending))
  {
    var byScore := Sort(gold, ScoreDescending);
    SortPermutes(gold, ScoreDescending);
    forall i | 0 <= i < |byScore| ensures Get(gold, byScore[i].0) == byScore[i].1 {
      assert byScore[i] in multiset(gold);
      var j :| 0 <= j < |gold| && gold[j] == byScore[i];
      GetAt(gold, j);
    }
  }

  /** Ranking the judged documents by score reaches exactly 1 whenever any judgement counts. */
  lemma PerfectRankingScoresOne(gold: Gold, k: nat, d: nat -> real)
    requires IsDict(gold)
    ensures Dcg(Ideal(gold, k), d, 0) > 0.0 ==> Ndcg(PerfectRanking(gold), gold, k, d) == 1.0
  {
    ScoresOfSorted(gold);
    PerfectRels(gold);
    assert Rels(Take(PerfectRanking(gold), k), gold) == Take(Rels(PerfectRanking(gold), gold), k);
  }

  // ---- Recall ----

  function Relevant(gold: Gold): set<string> {
    set i | 0 <= i < |gold| && gold[i].1 > 0 :: gold[i].0
  }

  function Found(ranked: seq<string>, gold: Gold, k: nat): set<string> {
    Relevant(gold) * (set i | 0 <= i < |Take(ranked, k)| :: Take(ranked, k)[i])
  }

  function Recall(ranked: seq<string>, gold: Gold, k: nat): real {
    if Relevant(gold) == {} then 0.0
    else |Found(ranked, gold, k)| as real / |Relevant(gold)| as real
  }

  lemma SubsetSize<T>(a: set<T>, b: set<T>)
    requires a <= b
    ensures |a| <= |b|
  {
    assert b == a + (b - a);
  }

  /** Recall lies in [0, 1] and never falls as the cut-off grows. */
  lemma RecallBoundedAndMonotone(ranked: seq<string>, gold: Gold, k: nat, k': nat)
    requires k <= k'
    ensures 0.0 <= Recall(ranked, gold, k) <= Recall(ranked, gold, k') <= 1.0
  {
    assert forall i :: 0 <= i < |Take(ranked, k)| ==> Take(ranked, k)[i] == Take(ranked, k')[i];
    SubsetSize(Found(ranked, gold, k), Found(ranked, gold, k'));
    SubsetSize(Found(ranked, gold, k'), Relevant(gold));
    if Relevant(gold) != {} {
      SubsetSize({}, Relevant(gold));
      var n := |Relevant(gold)| as real;
      DivideMonotone(|Found(ranked, gold, k)| as real, |Found(ranked, gold, k')| as real, n);
      QuotientInUnitInterval(|Found(ranked, gold, k')| as real, n);
    }
  }

  /** Recall is 1 exactly when every document judged above 0 is among the first k, and 0 exactly when none is. */
  lemma RecallExtremes(ranked: seq<string>, gold: Gold, k: nat)
    requires exists i :: 0 <= i < |gold| && gold[i].1 > 0
    ensures Recall(ranked, gold, k) == 1.0 <==> forall i :: 0 <= i < |gold| && gold[i].1 > 0 ==> gold[i].0 in Take(ranked, k)
    ensures Recall(ranked, gold, k) == 0.0 <==> forall i :: 0 <= i < |gold| && gold[i].1 > 0 ==> gold[i].0 !in Take(ranked, k)
  {
    var relevant, found := Relevant(gold), Found(ranked, gold, k);
    var w :| 0 <= w < |gold| && gold[w].1 > 0;
    assert gold[w].0 in relevant;
    SubsetSize(found, relevant);
    SubsetSize({gold[w].0}, relevant);
    ShareOfWhole(|found|, |relevant|);
    if |found| == |relevant| {
      EqualSize(found, relevant);
    }
    forall i | 0 <= i < |gold| && gold[i].1 > 0 ensures gold[i].0 in found <==> gold[i].0 in Take(ranked, k) {
      assert gold[i].0 in relevant;
    }
    assert |found| == |relevant| <==> forall i :: 0 <= i < |gold| && gold[i].1 > 0 ==> gold[i].0 in found by {
      if forall i :: 0 <= i < |gold| && gold[i].1 > 0 ==> gold[i].0 in found {
        assert found == relevant;
      }
      forall i | 0 <= i < |gold| && gold[i].1 > 0 ensures gold[i].0 in relevant {
      }
    }
    assert |found| == 0 <==> forall i :: 0 <= i < |gold| && gold[i].1 > 0 ==> gold[i].0 !in found by {
      if found != {} {
        var cid :| cid in found;
      }
    }
  }

  lemma ShareOfWhole(a: nat, b: nat)
    requires a <= b && b > 0
    ensures a as real / b as real == 1.0 <==> a == b
    ensures a as real / b as real == 0.0 <==> a == 0
  {}

  lemma EqualSize<T>(a: set<T>, b: set<T>)
    requires a <= b && |a| == |b|
    ensures a == b
  {
    assert b == a + (b - a);
    assert |b| == |a| + |b - a|;
  }

  lemma DivideMonotone(a: real, b: real, n: real)
    requires 0.0 <= a <= b && n > 0.0
    ensures 0.0 <= a / n <= b / n
  {}

  // ---- The ranking `main` builds ----

  /** `order` is a cut of an argsort: distinct indices into the distinct corpus ids. */
  function RankingOf(cids: seq<string>, order: seq<nat>): seq<string>
    requires forall i :: 0 <= i < |order| ==> order[i] < |cids|
  {
    seq(|order|, i requires 0 <= i < |order| => cids[order[i]])
  }

  /** Every score the gate averages is therefore in [0, 1]. */
  lemma GateScoresAreSound(cids: seq<string>, order: seq<nat>, gold: Gold, d: nat -> real)
    requires forall i :: 0 <= i < |order| ==> order[i] < |cids|
    requires Distinct(cids) && Distinct(order)
    requires IsDiscount(d) && IsDict(gold) && NonNegative(Values(gold))
    ensures 0.0 <= Ndcg(RankingOf(cids, order), gold, 10, d) <= 1.0
    ensures 0.0 <= Recall(RankingOf(cids, order), gold, 10) <= 1.0
  {
    var ranked := RankingOf(cids, order);
    forall i, j | 0 <= i < j < |ranked| ensures ranked[i] != ranked[j] {
      assert order[i] != order[j];
    }
    NdcgInUnitInterval(ranked, gold, 10, d);
    RecallBoundedAndMonotone(ranked, gold, 10, 10);
  }
}
