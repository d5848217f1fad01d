/**
 The association measures of one column pair.

 The score the partition consumes compares the number of occupied cells of the joint table with two
 ends of a scale: the number of groups, reached under functional dependency, and the ceiling that
 independence predicts, a sum of expected distinct counts. The logarithm is a parameter.
 */
module Association {
  import opened Sums
  import opened Histogram

  // ---------- Powers ----------

  function Pow(x: real, n: nat): real {
    if n == 0 then 1.0 else x * Pow(x, n - 1)
  }

  lemma {:induction false} PowInUnit(x: real, n: nat)
    requires 0.0 <= x <= 1.0
    ensures 0.0 <= Pow(x, n) <= 1.0
    ensures n > 0 ==> Pow(x, n) <= x
  {
    if n > 0 {
      PowInUnit(x, n - 1);
      Product(x, Pow(x, n - 1));
    }
  }

  lemma Product(x: real, p: real)
    requires 0.0 <= x <= 1.0 && 0.0 <= p <= 1.0
    ensures 0.0 <= x * p <= x
  {}

  lemma PowStrict(x: real, n: nat)
    requires 0.0 < x < 1.0 && n > 1
    ensures Pow(x, n) < x
  {
    PowInUnit(x, n - 1);
    var p := Pow(x, n - 1);
    assert p <= x < 1.0;
    assert x * p < x * 1.0;
  }

  /** Bernoulli's inequality, as the probability of hitting a value in n draws. */
  lemma {:induction false} Bernoulli(q: real, n: nat)
    requires 0.0 <= q <= 1.0
    ensures 1.0 - Pow(1.0 - q, n) <= n as real * q
  {
    if n > 0 {
      Bernoulli(q, n - 1);
      PowInUnit(1.0 - q, n - 1);
      BernoulliStep(q, Pow(1.0 - q, n - 1), (n - 1) as real * q);
      assert n as real * q == (n - 1) as real * q + q;
    }
  }

  lemma BernoulliStep(q: real, p: real, b: real)
    requires 0.0 <= q <= 1.0 && 0.0 <= p <= 1.0 && 1.0 - p <= b
    ensures 1.0 - (1.0 - q) * p <= b + q
  {
    assert (1.0 - q) * p == p - q * p;
    assert q * p <= q;
  }

  // ---------- Expected distinct values ----------

  /** One column's value distribution over the whole input. */
  datatype Marginal = Marginal(counts: seq<nat>, total: nat, sumNLogN: real)

  function AsReal(): nat -> real { (c: nat) => c as real }

  ghost predicate ValidMarginal(m: Marginal) {
    && m.total > 0
    && (forall c | c in m.counts :: 0 < c <= m.total)
    && Total(m.counts, AsReal()) == m.total as real
  }

  /** The probability that a value of count c shows up in n draws. */
  function Hit(c: nat, total: nat, n: nat): real
    requires total > 0
  {
    1.0 - Pow(1.0 - c as real / total as real, n)
  }

  function HitTerm(total: nat, n: nat): nat -> real
    requires total > 0
  {
    (c: nat) => if c == 0 then 0.0 else Hit(c, total, n)
  }

  function ExpectedDistinct(m: Marginal, n: nat): real {
    if m.total == 0 || n == 0 then 0.0 else Total(m.counts, HitTerm(m.total, n))
  }

  method ComputeExpectedDistinct(m: Marginal, n: nat) returns (e: real)
    ensures e == ExpectedDistinct(m, n)
  {
    if m.total == 0 || n == 0 {
      return 0.0;
    }
    e := 0.0;
    for i := 0 to |m.counts|
      invariant e == Total(m.counts[..i], HitTerm(m.total, n))
    {
      assert m.counts[..i + 1] == m.counts[..i] + [m.counts[i]];
      TotalAppend(m.counts[..i], m.counts[i], HitTerm(m.total, n));
      if m.counts[i] == 0 {
        continue;
      }
      var q := m.counts[i] as real / m.total as real;
      e := e + (1.0 - Pow(1.0 - q, n));
    }
    assert m.counts[..|m.counts|] == m.counts;
  }

  function Share(total: nat): nat -> real
    requires total > 0
  {
    (c: nat) => c as real / total as real
  }

  lemma SharesSumToOne(m: Marginal)
    requires ValidMarginal(m)
    ensures Total(m.counts, Share(m.total)) == 1.0
  {
    hide Total;
    var t := 1.0 / m.total as real;
    forall c | c in m.counts ensures Share(m.total)(c) == t * AsReal()(c) + 0.0 * AsReal()(c) {
      Reciprocal(c as real, m.total as real);
    }
    TotalLinear(m.counts, t, AsReal(), 0.0, AsReal(), Share(m.total));
    Reciprocal(m.total as real, m.total as real);
  }

  lemma Reciprocal(x: real, y: real)
    requires y > 0.0
    ensures 1.0 / y * x == x / y
    ensures x == y ==> x / y == 1.0
  {}

  lemma ShareInUnit(c: nat, total: nat)
    requires 0 < c <= total
    ensures 0.0 < c as real / total as real <= 1.0
    ensures c < total ==> c as real / total as real < 1.0
  {
    var q := c as real / total as real;
    assert q * total as real == c as real;
  }

  function ScaledShare(total: nat, n: nat): nat -> real
    requires total > 0
  {
    (c: nat) => n as real * (c as real / total as real)
  }

  lemma HitBounds(c: nat, total: nat, n: nat)
    requires 0 < c <= total && n > 0
    ensures Share(total)(c) <= HitTerm(total, n)(c) <= ScaledShare(total, n)(c)
  {
    hide Pow;
    ShareInUnit(c, total);
    PowInUnit(1.0 - c as real / total as real, n);
    Bernoulli(c as real / total as real, n);
  }

  lemma ScaledShareSum(m: Marginal, n: nat)
    requires ValidMarginal(m)
    ensures Total(m.counts, ScaledShare(m.total, n)) == n as real
  {
    SharesSumToOne(m);
    var k := n as real;
    forall c | c in m.counts ensures ScaledShare(m.total, n)(c) == k * Share(m.total)(c) + 0.0 * Share(m.total)(c) {}
    TotalLinear(m.counts, k, Share(m.total), 0.0, Share(m.total), ScaledShare(m.total, n));
  }

  /** A sample of n >= 1 draws shows at least one distinct value and at most n on average. */
  lemma ExpectedDistinctBounds(m: Marginal, n: nat)
    requires ValidMarginal(m) && n > 0
    ensures 1.0 <= ExpectedDistinct(m, n) <= n as real
  {
    hide Total;
    hide Share;
    hide ScaledShare;
    hide HitTerm;
    SharesSumToOne(m);
    ScaledShareSum(m, n);
    forall c | c in m.counts
      ensures Share(m.total)(c) <= HitTerm(m.total, n)(c) <= ScaledShare(m.total, n)(c)
    {
      HitBounds(c, m.total, n);
    }
    TotalMonotone(m.counts, Share(m.total), HitTerm(m.total, n));
    TotalMonotone(m.counts, HitTerm(m.total, n), ScaledShare(m.total, n));
  }

  lemma {:induction false} TotalStrict(s: seq<nat>, f: nat -> real, g: nat -> real)
    requires s != [] && forall x | x in s :: f(x) < g(x)
    ensures Total(s, f) < Total(s, g)
  {
    var front, last := s[..|s| - 1], s[|s| - 1];
    assert last in s && forall x | x in front :: x in s;
    if front != [] {
      TotalStrict(front, f, g);
    }
  }

  lemma {:induction false} TotalAtLeast(s: seq<nat>, x: nat)
    requires x in s
    ensures Total(s, AsReal()) >= x as real
    ensures |s| > 1 && (forall y | y in s :: y > 0) ==> Total(s, AsReal()) > x as real
    decreases |s|
  {
    var front, last := s[..|s| - 1], s[|s| - 1];
    assert s == front + [last] && last in s;
    assert forall y | y in front :: y in s;
    TotalNonNegative(front);
    if x in front {
      TotalAtLeast(front, x);
    } else if |s| > 1 {
      assert front[0] in front;
      TotalAtLeast(front, front[0]);
    }
  }

  lemma {:induction false} TotalNonNegative(s: seq<nat>)
    ensures Total(s, AsReal()) >= 0.0
  {
    if s != [] {
      TotalNonNegative(s[..|s| - 1]);
    }
  }

  /** The expectation is exactly one only for a single draw or for a constant column. */
  lemma ExpectedDistinctIsOne(m: Marginal, n: nat)
    requires ValidMarginal(m) && n > 0
    ensures ExpectedDistinct(m, n) == 1.0 <==> n == 1 || |m.counts| == 1
  {
    SharesSumToOne(m);
    assert m.counts != [];
    if n == 1 {
      forall c | c in m.counts ensures HitTerm(m.total, n)(c) == Share(m.total)(c) {
        assert Pow(1.0 - c as real / m.total as real, 1) == 1.0 - c as real / m.total as real;
      }
      TotalCongruent(m.counts, HitTerm(m.total, n), Share(m.total));
    } else if |m.counts| == 1 {
      ConstantColumn(m, n);
    } else {
      hide Pow;
      forall c | c in m.counts ensures Share(m.total)(c) < HitTerm(m.total, n)(c) {
        TotalAtLeast(m.counts, c);
        ShareInUnit(c, m.total);
        PowStrict(1.0 - c as real / m.total as real, n);
      }
      TotalStrict(m.counts, Share(m.total), HitTerm(m.total, n));
    }
  }

  lemma ConstantColumn(m: Marginal, n: nat)
    requires ValidMarginal(m) && n > 0 && |m.counts| == 1
    ensures ExpectedDistinct(m, n) == 1.0
  {
    var c := m.counts[0];
    assert m.counts == [] + [c];
    TotalAppend([], c, AsReal());
    TotalAppend([], c, HitTerm(m.total, n));
    assert c == m.total;
    assert c as real / m.total as real == 1.0;
    assert Pow(0.0, n) == 0.0;
  }

  // ---------- The independence ceiling ----------

  /** The sum of e over the members of a multiset. */
  ghost function SumOver(ms: multiset<nat>, e: nat -> real): real
    decreases |ms|
  {
    if |ms| == 0 then 0.0 else e(Pick(ms)) + SumOver(ms - multiset{Pick(ms)}, e)
  }

  ghost function Pick(ms: multiset<nat>): (x: nat)
    requires |ms| > 0
    ensures x in ms
  {
    var x :| x in ms;
    x
  }

  lemma SumOverPick(ms: multiset<nat>, e: nat -> real) returns (y: nat)
    requires |ms| > 0
    ensures y in ms && SumOver(ms, e) == e(y) + SumOver(ms - multiset{y}, e)
  {
    hide Pick;
    y := Pick(ms);
  }

  /** The order in which the members are taken does not matter. */
  lemma {:induction false} SumOverTake(ms: multiset<nat>, e: nat -> real, x: nat)
    requires x in ms
    ensures SumOver(ms, e) == e(x) + SumOver(ms - multiset{x}, e)
    decreases |ms|
  {
    hide SumOver;
    var y := SumOverPick(ms, e);
    if y != x {
      var a, b := ms - multiset{y}, ms - multiset{x};
      SumOverTake(a, e, x);
      SumOverTake(b, e, y);
      assert a - multiset{x} == b - multiset{y};
    }
  }

  lemma OneMore(n: nat, v: real)
    requires n > 0
    ensures n as real * v == (n - 1) as real * v + v
  {}

  /** All members equal to x at once, as the operator walks its size counts. */
  lemma {:induction false} SumOverTakeAll(ms: multiset<nat>, e: nat -> real, x: nat)
    ensures SumOver(ms, e) == ms[x] as real * e(x) + SumOver(ms[x := 0], e)
    decreases |ms|
  {
    hide SumOver;
    if ms[x] == 0 {
      assert ms[x := 0] == ms;
    } else {
      var less := ms - multiset{x};
      SumOverTake(ms, e, x);
      SumOverTakeAll(less, e, x);
      assert less[x := 0] == ms[x := 0];
      OneMore(ms[x], e(x));
    }
  }

  function ExpectedAt(m: Marginal): nat -> real { (n: nat) => ExpectedDistinct(m, n) }

  /** What independence predicts for the number of occupied cells. */
  ghost function Ceiling(m: Marginal, sizes: multiset<nat>): real {
    SumOver(sizes, ExpectedAt(m))
  }

  lemma {:induction false} SumOverCongruent(ms: multiset<nat>, e: nat -> real, e': nat -> real)
    requires forall n: nat :: e(n) == e'(n)
    ensures SumOver(ms, e) == SumOver(ms, e')
    decreases |ms|
  {
    if |ms| > 0 {
      SumOverCongruent(ms - multiset{Pick(ms)}, e, e');
    }
  }

  method ComputeCeiling(m: Marginal, sizes: multiset<nat>) returns (ceiling: real)
    ensures ceiling == Ceiling(m, sizes)
  {
    hide SumOver;
    ceiling := 0.0;
    var rest := sizes;
    while rest != multiset{}
      invariant ceiling + SumOver(rest, ExpectedAt(m)) == Ceiling(m, sizes)
      decreases |rest|
    {
      var size :| size in rest;
      var e := ComputeExpectedDistinct(m, size);
      SumOverTakeAll(rest, ExpectedAt(m), size);
      ceiling := ceiling + rest[size] as real * e;
      SmallerRest(rest, size);
      rest := rest[size := 0];
    }
    EmptySum(ExpectedAt(m));
  }

  lemma SmallerRest(ms: multiset<nat>, x: nat)
    requires x in ms
    ensures |ms[x := 0]| < |ms|
  {}

  lemma EmptySum(e: nat -> real)
    ensures SumOver(multiset{}, e) == 0.0
  {}

  ghost predicate PositiveSizes(sizes: multiset<nat>) {
    forall n | n in sizes :: n > 0
  }

  ghost function Observations(sizes: multiset<nat>): real {
    SumOver(sizes, AsReal())
  }

  /** The ceiling lies between the number of groups and the number of observations, and meets the lower end
      only when every group is a singleton or column2 is constant. */
  lemma {:induction false} CeilingBounds(m: Marginal, sizes: multiset<nat>)
    requires ValidMarginal(m) && PositiveSizes(sizes)
    ensures |sizes| as real <= Ceiling(m, sizes) <= Observations(sizes)
    ensures Ceiling(m, sizes) == |sizes| as real <==> (forall n | n in sizes :: n == 1) || |m.counts| == 1
    decreases |sizes|
  {
    hide SumOver;
    hide ExpectedDistinct;
    if |sizes| == 0 {
      assert sizes == multiset{};
      EmptySum(ExpectedAt(m));
      EmptySum(AsReal());
    } else {
      var x :| x in sizes;
      var rest := sizes - multiset{x};
      SumOverTake(sizes, ExpectedAt(m), x);
      SumOverTake(sizes, AsReal(), x);
      CeilingBounds(m, rest);
      ExpectedDistinctBounds(m, x);
      ExpectedDistinctIsOne(m, x);
      assert forall n :: n in sizes <==> n == x || n in rest;
    }
  }

  // ---------- The score ----------

  ghost function NormalisedDependency(s: Stats, m: Marginal): real {
    if s.groups == 0 || m.total == 0 then 0.0
    else
      var ceiling, floor := Ceiling(m, s.groupSizes), s.groups as real;
      if ceiling <= floor then 0.0
      else
        var d := (ceiling - s.cells as real) / (ceiling - floor);
        if d < 0.0 then 0.0 else if d > 1.0 then 1.0 else d
  }

  method ComputeNormalisedDependency(s: Stats, m: Marginal) returns (score: real)
    ensures score == NormalisedDependency(s, m)
  {
    hide Ceiling;
    if s.groups == 0 || m.total == 0 {
      return 0.0;
    }
    var ceiling := ComputeCeiling(m, s.groupSizes);
    var floor := s.groups as real;
    if ceiling <= floor {
      return 0.0;
    }
    var d := (ceiling - s.cells as real) / (ceiling - floor);
    if d < 0.0 {
      return 0.0;
    }
    if d > 1.0 {
      return 1.0;
    }
    return d;
  }

  /** Statistics built group by group: one size per group, at least one cell per group. */
  ghost predicate ValidStats(s: Stats) {
    && s.groups == |s.groupSizes| <= s.cells && PositiveSizes(s.groupSizes)
    && Observations(s.groupSizes) == s.observations as real
  }

  lemma Ratio(top: real, bottom: real)
    requires top <= bottom && bottom > 0.0
    ensures top / bottom <= 1.0
    ensures top / bottom == 1.0 <==> top == bottom
    ensures top >= 0.0 ==> top / bottom >= 0.0
    ensures top <= 0.0 <==> top / bottom <= 0.0
    ensures top / bottom * bottom == top
  {
    assert top / bottom * bottom == top;
  }

  /** Column2 can show more than one value in some group, so the score can tell anything at all. */
  ghost predicate Discriminates(s: Stats, m: Marginal) {
    s.groups > 0 && |m.counts| != 1 && exists n | n in s.groupSizes :: n != 1
  }

  /** The score is how far the cells have come from the ceiling towards the floor. */
  ghost predicate IsShare(score: real, ceiling: real, floor: real, cells: real) {
    score * (ceiling - floor) == ceiling - cells
  }

  /** The score is in [0,1], its upper clamp never changes it, and it is 1 exactly under functional
      dependency between columns on which the statistic discriminates; it is 0 exactly when the statistic does
      not discriminate or shows as many cells as independence predicts. */
  lemma NormalisedDependencyMeaning(s: Stats, m: Marginal)
    requires ValidMarginal(m) && ValidStats(s)
    ensures 0.0 <= NormalisedDependency(s, m) <= 1.0
    ensures Ceiling(m, s.groupSizes) > s.groups as real
            ==> (Ceiling(m, s.groupSizes) - s.cells as real) / (Ceiling(m, s.groupSizes) - s.groups as real) <= 1.0
    ensures NormalisedDependency(s, m) == 1.0 <==> Discriminates(s, m) && s.cells == s.groups
    ensures NormalisedDependency(s, m) == 0.0 <==> !Discriminates(s, m) || s.cells as real >= Ceiling(m, s.groupSizes)
    ensures Discriminates(s, m) <==> s.groups > 0 && Ceiling(m, s.groupSizes) > s.groups as real
    ensures Discriminates(s, m) && s.cells as real <= Ceiling(m, s.groupSizes) ==>
              IsShare(NormalisedDependency(s, m), Ceiling(m, s.groupSizes), s.groups as real, s.cells as real)
  {
    hide Ceiling;
    CeilingBounds(m, s.groupSizes);
    var ceiling, floor := Ceiling(m, s.groupSizes), s.groups as real;
    if ceiling > floor {
      Ratio(ceiling - s.cells as real, ceiling - floor);
    }
  }

  /** Between its ends the score falls linearly with the number of cells, so every value of it is fixed. */
  lemma ScoreIsLinear(s: Stats, s': Stats, m: Marginal)
    requires ValidMarginal(m) && ValidStats(s) && ValidStats(s')
    requires s.groups == s'.groups > 0 && s.groupSizes == s'.groupSizes
    requires Ceiling(m, s.groupSizes) > s.groups as real
    requires s.cells <= s'.cells && s'.cells as real <= Ceiling(m, s.groupSizes)
    ensures (NormalisedDependency(s, m) - NormalisedDependency(s', m)) * (Ceiling(m, s.groupSizes) - s.groups as real)
         == s'.cells as real - s.cells as real
  {
    hide Ceiling;
    hide NormalisedDependency;
    hide ValidStats;
    NormalisedDependencyMeaning(s, m);
    NormalisedDependencyMeaning(s', m);
    Distribute(NormalisedDependency(s, m), NormalisedDependency(s', m), Ceiling(m, s.groupSizes) - s.groups as real);
  }

  lemma Distribute(x: real, y: real, k: real)
    ensures (x - y) * k == x * k - y * k
  {}

  // ---------- Entropies and mutual information ----------

  datatype Scores = Scores(
    mutualInformation: real, uncertaintyC2GivenC1: real, uncertaintyC1GivenC2: real,
    symmetricUncertainty: real, bias: real, clamped: bool)

  function Entropy(ln: nat -> real, total: nat, sumNLogN: real): real {
    if total == 0 then 0.0
    else
      var h := ln(total) - sumNLogN / total as real;
      if h < 0.0 then 0.0 else h
  }

  function Least(a: real, b: real): real {
    if a < b then a else b
  }

  function RawInformation(ln: nat -> real, s: Stats, m1: Marginal, m2: Marginal): real {
    Entropy(ln, m1.total, m1.sumNLogN) + Entropy(ln, m2.total, m2.sumNLogN)
    - Entropy(ln, s.observations, s.jointNLogN)
  }

  function Clamp(x: real, top: real): real {
    if x < 0.0 then (if 0.0 > top then top else 0.0) else if x > top then top else x
  }

  /** Degrees of freedom estimated from the occupied cells. */
  function Bias(s: Stats, distinct2: nat): real {
    var df := s.cells - s.groups - distinct2 + 1;
    if df > 0 && s.observations > 0 then df as real / (2.0 * s.observations as real) else 0.0
  }

  function Relative(x: real, h: real): real {
    if h > 0.0 then x / h else 0.0
  }

  function ComputeAssociation(ln: nat -> real, s: Stats, m1: Marginal, m2: Marginal): Scores {
    var h1, h2 := Entropy(ln, m1.total, m1.sumNLogN), Entropy(ln, m2.total, m2.sumNLogN);
    var raw, bias := RawInformation(ln, s, m1, m2), Bias(s, |m2.counts|);
    var clamped := Clamp(raw, Least(h1, h2));
    var mi := if bias > clamped then 0.0 else clamped - bias;
    Scores(mi,
           Relative(mi, h2), Relative(mi, h1), Relative(2.0 * mi, h1 + h2),
           bias, raw < 0.0 || raw > Least(h1, h2))
  }

  lemma Fraction(x: real, h: real)
    requires 0.0 <= x <= h && h > 0.0
    ensures 0.0 <= x / h <= 1.0
  {
    Ratio(x, h);
  }

  /** After clamping and bias subtraction the information is admissible and every coefficient is in [0,1]. */
  lemma AssociationInRange(ln: nat -> real, s: Stats, m1: Marginal, m2: Marginal)
    ensures var r := ComputeAssociation(ln, s, m1, m2);
            var h1, h2 := Entropy(ln, m1.total, m1.sumNLogN), Entropy(ln, m2.total, m2.sumNLogN);
            && 0.0 <= r.mutualInformation <= h1 && r.mutualInformation <= h2
            && 0.0 <= r.uncertaintyC2GivenC1 <= 1.0 && 0.0 <= r.uncertaintyC1GivenC2 <= 1.0
            && 0.0 <= r.symmetricUncertainty <= 1.0
            && r.bias >= 0.0
            && (!r.clamped && r.bias == 0.0 ==> r.mutualInformation == RawInformation(ln, s, m1, m2))
  {
    hide Entropy;
    hide Bias;
    EntropyNonNegative(ln, m1.total, m1.sumNLogN);
    EntropyNonNegative(ln, m2.total, m2.sumNLogN);
    BiasNonNegative(s, |m2.counts|);
    var r := ComputeAssociation(ln, s, m1, m2);
    var h1, h2 := Entropy(ln, m1.total, m1.sumNLogN), Entropy(ln, m2.total, m2.sumNLogN);
    if h2 > 0.0 { Fraction(r.mutualInformation, h2); }
    if h1 > 0.0 { Fraction(r.mutualInformation, h1); }
    if h1 + h2 > 0.0 { Fraction(2.0 * r.mutualInformation, h1 + h2); }
  }

  lemma EntropyNonNegative(ln: nat -> real, total: nat, sumNLogN: real)
    ensures Entropy(ln, total, sumNLogN) >= 0.0
  {}

  lemma BiasNonNegative(s: Stats, distinct2: nat)
    ensures Bias(s, distinct2) >= 0.0
  {
    var df := s.cells - s.groups - distinct2 + 1;
    if df > 0 && s.observations > 0 {
      var b := 2.0 * s.observations as real;
      assert df as real / b * b == df as real;
    }
  }
}
