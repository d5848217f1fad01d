/** The expected number of distinct values, as an average over all samples with replacement. */
module SampleAverage {
  import opened Common
  import opened Sums
  import opened Histogram
  import opened Association
  import opened PairScore

  type Sample = seq<string>

  // The summands are named so that a proof can speak of the very function being summed.
  function After(g: Sample -> real, x: string): Sample -> real { (s: Sample) => g(s + [x]) }

  function SumAfter(values: seq<string>, n: nat, g: Sample -> real): string -> real {
    (x: string) => SampleSum(values, n, After(g, x))
  }

  /** The sum of g over all samples of n draws from the values, one draw after the other. */
  function SampleSum(values: seq<string>, n: nat, g: Sample -> real): real
    decreases n, 0
  {
    if n == 0 then g([])
    else Total(values, (x: string) => SampleSum(values, n - 1, After(g, x)))
  }

  ghost predicate DrawnFrom(values: seq<string>, s: Sample, n: nat) {
    |s| == n && forall x | x in s :: x in values
  }

  lemma SumUnfold(values: seq<string>, n: nat, g: Sample -> real)
    requires n > 0
    ensures SampleSum(values, n, g) == Total(values, SumAfter(values, n - 1, g))
  {
    TotalCongruent(values, (x: string) => SampleSum(values, n - 1, After(g, x)), SumAfter(values, n - 1, g));
  }

  lemma {:induction false} SumCongruent(values: seq<string>, n: nat, g: Sample -> real, h: Sample -> real)
    requires forall s | DrawnFrom(values, s, n) :: g(s) == h(s)
    ensures SampleSum(values, n, g) == SampleSum(values, n, h)
    decreases n
  {
    hide Total;
    if n == 0 {
      assert DrawnFrom(values, [], 0);
    } else {
      SumUnfold(values, n, g);
      SumUnfold(values, n, h);
      hide SampleSum;
      forall x | x in values ensures SumAfter(values, n - 1, g)(x) == SumAfter(values, n - 1, h)(x) {
        forall s | DrawnFrom(values, s, n - 1) ensures After(g, x)(s) == After(h, x)(s) {
          assert DrawnFrom(values, s + [x], n);
        }
        SumCongruent(values, n - 1, After(g, x), After(h, x));
      }
      TotalCongruent(values, SumAfter(values, n - 1, g), SumAfter(values, n - 1, h));
    }
  }

  lemma {:induction false} SumLinear(values: seq<string>, n: nat, g: Sample -> real, h: Sample -> real,
                                     k: Sample -> real, b: real)
    requires forall s :: k(s) == g(s) + b * h(s)
    ensures SampleSum(values, n, k) == SampleSum(values, n, g) + b * SampleSum(values, n, h)
    decreases n
  {
    hide Total;
    if n > 0 {
      SumUnfold(values, n, g);
      SumUnfold(values, n, h);
      SumUnfold(values, n, k);
      hide SampleSum;
      var g', h', k' := SumAfter(values, n - 1, g), SumAfter(values, n - 1, h), SumAfter(values, n - 1, k);
      forall x | x in values ensures k'(x) == 1.0 * g'(x) + b * h'(x) {
        SumLinear(values, n - 1, After(g, x), After(h, x), After(k, x), b);
      }
      TotalLinear(values, 1.0, g', b, h', k');
    }
  }

  // ---------- Samples that miss a value ----------

  function One(): Sample -> real { (s: Sample) => 1.0 }

  function Zero(): Sample -> real { (s: Sample) => 0.0 }

  function Misses(v: string): Sample -> real { (s: Sample) => if v in s then 0.0 else 1.0 }

  function Hits(v: string): Sample -> real { (s: Sample) => if v in s then 1.0 else 0.0 }

  lemma {:induction false} SumOfZero(values: seq<string>, n: nat)
    ensures SampleSum(values, n, Zero()) == 0.0
  {
    SumLinear(values, n, Zero(), Zero(), Zero(), -1.0);
  }

  function Scale(b: real): string -> real { (x: string) => b }

  function OthersOnly(v: string, b: real): string -> real { (x: string) => if x == v then 0.0 else b }

  lemma {:induction false} TotalOthers(values: seq<string>, v: string, b: real)
    ensures Total(values, OthersOnly(v, b)) == (|values| - Occurrences(values, v)) as real * b
  {
    hide Total;
    hide Occurrences;
    if values == [] {
      NoTotal(OthersOnly(v, b));
      OccurrencesNone(v);
    } else {
      var front, x := values[..|values| - 1], values[|values| - 1];
      assert values == front + [x];
      TotalOthers(front, v, b);
      TotalAppend(front, x, OthersOnly(v, b));
      OccurrencesAppend(front, x, v);
      OneMoreTimes(|front| - Occurrences(front, v), b);
    }
  }

  lemma OccurrencesNone(v: string)
    ensures Occurrences([], v) == 0
  {
  }

  lemma OneMoreTimes(n: int, b: real)
    ensures (n + 1) as real * b == n as real * b + b
  {}

  /** (N - c)^n samples miss a value that occurs c times among N. */
  lemma {:induction false} SumOfMisses(values: seq<string>, v: string, n: nat)
    ensures SampleSum(values, n, Misses(v)) == Pow((|values| - Occurrences(values, v)) as real, n)
    decreases n
  {
    hide Total;
    hide Occurrences;
    if n > 0 {
      var p := Pow((|values| - Occurrences(values, v)) as real, n - 1);
      SumUnfold(values, n, Misses(v));
      SumOfMisses(values, v, n - 1);
      SumOfZero(values, n - 1);
      hide SampleSum;
      forall x | x in values ensures SumAfter(values, n - 1, Misses(v))(x) == OthersOnly(v, p)(x) {
        SumCongruent(values, n - 1, After(Misses(v), x), if x == v then Zero() else Misses(v));
      }
      TotalCongruent(values, SumAfter(values, n - 1, Misses(v)), OthersOnly(v, p));
      TotalOthers(values, v, p);
    }
  }

  /** There are N^n samples. */
  lemma {:induction false} SumOfOnes(values: seq<string>, n: nat)
    ensures SampleSum(values, n, One()) == Pow(|values| as real, n)
    decreases n
  {
    hide Total;
    if n > 0 {
      var p := Pow(|values| as real, n - 1);
      SumUnfold(values, n, One());
      SumOfOnes(values, n - 1);
      hide SampleSum;
      forall x | x in values ensures SumAfter(values, n - 1, One())(x) == Scale(p)(x) {
        SumCongruent(values, n - 1, After(One(), x), One());
      }
      TotalCongruent(values, SumAfter(values, n - 1, One()), Scale(p));
      TotalConstant(values, p);
    }
  }

  lemma {:induction false} TotalConstant(values: seq<string>, b: real)
    ensures Total(values, Scale(b)) == |values| as real * b
  {
    if values != [] {
      TotalConstant(values[..|values| - 1], b);
      OneMoreTimes(|values| - 1, b);
    }
  }

  lemma {:induction false} PowQuotient(a: real, b: real, n: nat)
    requires b > 0.0
    ensures Pow(b, n) > 0.0 && Pow(a / b, n) * Pow(b, n) == Pow(a, n)
  {
    if n > 0 {
      PowQuotient(a, b, n - 1);
      QuotientStep(a, b, Pow(a / b, n - 1), Pow(b, n - 1), Pow(a, n - 1));
    }
  }

  lemma QuotientStep(a: real, b: real, q: real, d: real, p: real)
    requires b > 0.0 && d > 0.0 && q * d == p
    ensures b * d > 0.0 && (a / b * q) * (b * d) == a * p
  {
    var r := a / b;
    assert r * b == a;
    assert (r * q) * (b * d) == (r * b) * (q * d);
  }

  /** The samples that show a value, as a share of all samples. */
  lemma SumOfHits(values: seq<string>, v: string, n: nat)
    requires values != []
    ensures SampleSum(values, n, Hits(v))
         == Pow(|values| as real, n) * Hit(Occurrences(values, v), |values|, n)
  {
    hide SampleSum;
    hide Occurrences;
    hide Pow;
    var c, total := Occurrences(values, v), |values|;
    SumLinear(values, n, One(), Misses(v), Hits(v), -1.0);
    SumOfOnes(values, n);
    SumOfMisses(values, v, n);
    PowQuotient((total - c) as real, total as real, n);
    ComplementShare(c as real, total as real);
    var all, q := Pow(total as real, n), Pow(1.0 - c as real / total as real, n);
    ShareOfAll(all, q, Pow((total - c) as real, n));
  }

  lemma ComplementShare(c: real, total: real)
    requires total > 0.0
    ensures 1.0 - c / total == (total - c) / total
  {
    DifferenceOfQuotients(total, c, total);
    assert total / total == 1.0;
  }

  lemma DifferenceOfQuotients(a: real, b: real, m: real)
    requires m != 0.0
    ensures a / m - b / m == (a - b) / m
  {}

  lemma ShareOfAll(all: real, q: real, missed: real)
    requires q * all == missed
    ensures all - missed == all * (1.0 - q)
  {}

  // ---------- The average number of distinct values ----------

  function DistinctCount(): Sample -> real { (s: Sample) => |Distinct(s)| as real }

  function HitsAmong(ds: seq<string>): Sample -> real { (s: Sample) => Total(ds, InSample(s)) }

  function InSample(s: Sample): string -> real { (v: string) => if v in s then 1.0 else 0.0 }

  /** A sample shows as many distinct values as there are values that it hits. */
  lemma DistinctAreHits(values: seq<string>, s: Sample)
    requires forall x | x in s :: x in values
    ensures DistinctCount()(s) == HitsAmong(Distinct(values))(s)
  {
    hide Distinct;
    CountHits(Distinct(values), Distinct(s), s);
  }

  lemma {:induction false} CountHits(ds: seq<string>, es: seq<string>, s: Sample)
    requires NoDuplicates(ds) && NoDuplicates(es) && forall x :: x in es <==> x in ds && x in s
    ensures Total(ds, InSample(s)) == |es| as real
    decreases |ds|
  {
    hide Total;
    assert |es| > 0 ==> es[0] in es;
    if ds == [] {
      NoTotal(InSample(s));
    } else {
      var front, d := ds[..|ds| - 1], ds[|ds| - 1];
      assert ds == front + [d];
      NoDuplicatesFront(front, d);
      TotalAppend(front, d, InSample(s));
      if d in s {
        assert d in es;
        var i :| 0 <= i < |es| && es[i] == d;
        var rest := es[..i] + es[i + 1..];
        RemoveOne(es, i);
        CountHits(front, rest, s);
      } else {
        CountHits(front, es, s);
      }
    }
  }

  lemma NoTotal(f: string -> real)
    ensures Total([], f) == 0.0
  {}

  lemma RemoveOne(es: seq<string>, i: nat)
    requires NoDuplicates(es) && i < |es|
    ensures var rest := es[..i] + es[i + 1..];
            |rest| == |es| - 1 && NoDuplicates(rest) && forall x :: x in rest <==> x in es && x != es[i]
  {
    var rest := es[..i] + es[i + 1..];
    forall x ensures x in rest <==> x in es && x != es[i] {
      if x in es && x != es[i] {
        var j :| 0 <= j < |es| && es[j] == x;
        assert rest[if j < i then j else j - 1] == x;
      }
    }
  }

  function HitSum(values: seq<string>, n: nat): string -> real { (v: string) => SampleSum(values, n, Hits(v)) }

  /** Summing over the samples and summing over the values can be exchanged. */
  lemma {:induction false} ExchangeSums(values: seq<string>, n: nat, ds: seq<string>)
    ensures SampleSum(values, n, HitsAmong(ds)) == Total(ds, HitSum(values, n))
  {
    hide SampleSum;
    hide Total;
    if ds == [] {
      forall s ensures HitsAmong(ds)(s) == Zero()(s) {
        NoTotal(InSample(s));
      }
      SumCongruent(values, n, HitsAmong(ds), Zero());
      SumOfZero(values, n);
      NoTotal(HitSum(values, n));
    } else {
      var front, d := ds[..|ds| - 1], ds[|ds| - 1];
      assert ds == front + [d];
      ExchangeSums(values, n, front);
      forall s ensures HitsAmong(ds)(s) == HitsAmong(front)(s) + 1.0 * Hits(d)(s) {
        TotalAppend(front, d, InSample(s));
      }
      SumLinear(values, n, HitsAmong(front), Hits(d), HitsAmong(ds), 1.0);
      TotalAppend(front, d, HitSum(values, n));
    }
  }

  function ScaledHit(values: seq<string>, n: nat): string -> real
    requires values != []
  {
    (v: string) => HitTerm(|values|, n)(Occurrences(values, v))
  }

  /**
   The expected number of distinct values in n draws is the average of the number of distinct values over all N^n
   samples of n draws with replacement, for every column and every walk of its histogram.
   */
  lemma ExpectedIsAverage(f: NLogN, values: seq<string>, order: seq<string>, n: nat)
    requires values != [] && n > 0 && IsWalk(order, HistOf(f, values).counts.Keys)
    ensures SampleSum(values, n, One()) * ExpectedDistinct(MarginalAlong(HistOf(f, values), order), n)
         == SampleSum(values, n, DistinctCount())
  {
    hide SampleSum;
    hide Total;
    hide Distinct;
    hide HistOf;
    hide MarginalAlong;
    hide Pow;
    hide Hit;
    hide Occurrences;
    var ds, all := Distinct(values), Pow(|values| as real, n);
    DistinctIsWalk(f, values);
    ExpectedOfWalk(f, values, order, ds, n);
    WalkCounts(f, values, ds);
    CountsTotal(HitTerm(|values|, n), ds, values);
    SumOfOnes(values, n);
    forall s | DrawnFrom(values, s, n) ensures DistinctCount()(s) == HitsAmong(ds)(s) {
      DistinctAreHits(values, s);
    }
    SumCongruent(values, n, DistinctCount(), HitsAmong(ds));
    ExchangeSums(values, n, ds);
    forall v | v in ds ensures HitSum(values, n)(v) == all * ScaledHit(values, n)(v) + 0.0 * ScaledHit(values, n)(v) {
      SumOfHits(values, v, n);
      OccurrencesPositive(values, v);
    }
    TotalLinear(ds, all, ScaledHit(values, n), 0.0, ScaledHit(values, n), HitSum(values, n));
    TotalCongruent(ds, (v: string) => HitTerm(|values|, n)(Occurrences(values, v)), ScaledHit(values, n));
  }
}
