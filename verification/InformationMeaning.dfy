/** What the entropies and the coefficients of a column pair are. */
module InformationMeaning {
  import opened Sums
  import opened Histogram
  import opened Association

  /** A value of count c out of total: its share times the logarithm of total over c. */
  function ShannonTerm(ln: nat -> real, total: nat): nat -> real
    requires total > 0
  {
    (c: nat) => c as real / total as real * (ln(total) - ln(c))
  }

  function LogTerm(ln: nat -> real): nat -> real { (c: nat) => c as real * ln(c) }

  lemma TermSplits(ln: nat -> real, total: nat, c: nat)
    requires total > 0
    ensures ShannonTerm(ln, total)(c)
         == ln(total) / total as real * AsReal()(c) + (-1.0 / total as real) * LogTerm(ln)(c)
  {
    SplitProduct(c as real, total as real, ln(total), ln(c));
  }

  lemma SplitProduct(c: real, n: real, a: real, b: real)
    requires n > 0.0
    ensures c / n * (a - b) == a / n * c + (-1.0 / n) * (c * b)
  {
    var r := 1.0 / n;
    assert c / n == c * r && a / n == a * r && -1.0 / n == -r;
    assert c * r * (a - b) == a * r * c + (-r) * (c * b);
  }

  lemma WholeShare(a: real, b: real, n: real)
    requires n > 0.0
    ensures a / n * n + (-1.0 / n) * b == a - b / n
  {
    var r := 1.0 / n;
    assert a / n * n == a && -1.0 / n == -r && b / n == b * r;
  }

  /** The entropy computed from the running sum is the Shannon entropy of the counts, wherever that is not negative. */
  lemma EntropyIsShannon(ln: nat -> real, counts: seq<nat>, total: nat)
    requires total > 0 && Total(counts, AsReal()) == total as real
    ensures var h := Total(counts, ShannonTerm(ln, total));
            Entropy(ln, total, Total(counts, LogTerm(ln))) == if h < 0.0 then 0.0 else h
  {
    hide Total;
    forall c | c in counts
      ensures ShannonTerm(ln, total)(c)
           == ln(total) / total as real * AsReal()(c) + (-1.0 / total as real) * LogTerm(ln)(c)
    {
      TermSplits(ln, total, c);
    }
    TotalLinear(counts, ln(total) / total as real, AsReal(), -1.0 / total as real, LogTerm(ln), ShannonTerm(ln, total));
    WholeShare(ln(total), Total(counts, LogTerm(ln)), total as real);
  }

  /** The middle one of 0, x and top, for a top that is not negative. */
  ghost predicate IsClamped(x: real, top: real, y: real) {
    && (x < 0.0 ==> y == 0.0) && (x > top ==> y == top) && (0.0 <= x <= top ==> y == x)
  }

  /** q is x over h, or 0 if h is not positive. */
  ghost predicate IsRatio(x: real, h: real, q: real) {
    if h > 0.0 then q * h == x else q == 0.0
  }

  /**
   What the scores of a pair are. The information is the sum of the marginal entropies less the joint one, brought
   into its range, less the bias but never below 0; the bias is the degrees of freedom over twice the observations;
   the coefficients are the information relative to either entropy and to their mean.
   */
  lemma AssociationMeaning(ln: nat -> real, s: Stats, m1: Marginal, m2: Marginal, clamped: real)
    requires var h1, h2 := Entropy(ln, m1.total, m1.sumNLogN), Entropy(ln, m2.total, m2.sumNLogN);
             var h12 := Entropy(ln, s.observations, s.jointNLogN);
             IsClamped(h1 + h2 - h12, if h1 < h2 then h1 else h2, clamped)
    ensures var r := ComputeAssociation(ln, s, m1, m2);
            var h1, h2 := Entropy(ln, m1.total, m1.sumNLogN), Entropy(ln, m2.total, m2.sumNLogN);
            var freedom := s.cells - s.groups - |m2.counts| + 1;
            && IsRatio(if freedom > 0 then freedom as real else 0.0, 2.0 * s.observations as real, r.bias)
            && r.mutualInformation == (if r.bias > clamped then 0.0 else clamped - r.bias)
            && IsRatio(r.mutualInformation, h2, r.uncertaintyC2GivenC1)
            && IsRatio(r.mutualInformation, h1, r.uncertaintyC1GivenC2)
            && IsRatio(2.0 * r.mutualInformation, h1 + h2, r.symmetricUncertainty)
  {
    hide Entropy;
    hide Clamp;
    hide Least;
    hide Bias;
    hide Relative;
    hide IsRatio;
    var r := ComputeAssociation(ln, s, m1, m2);
    var h1, h2 := Entropy(ln, m1.total, m1.sumNLogN), Entropy(ln, m2.total, m2.sumNLogN);
    EntropyNonNegative(ln, m1.total, m1.sumNLogN);
    EntropyNonNegative(ln, m2.total, m2.sumNLogN);
    ClampedIs(RawInformation(ln, s, m1, m2), h1, h2, clamped);
    BiasIs(s, |m2.counts|);
    RelativeIs(r.mutualInformation, h2);
    RelativeIs(r.mutualInformation, h1);
    RelativeIs(2.0 * r.mutualInformation, h1 + h2);
  }

  lemma ClampedIs(x: real, h1: real, h2: real, y: real)
    requires h1 >= 0.0 && h2 >= 0.0 && IsClamped(x, if h1 < h2 then h1 else h2, y)
    ensures y == Clamp(x, Least(h1, h2))
  {}

  lemma BiasIs(s: Stats, distinct2: nat)
    ensures var freedom := s.cells - s.groups - distinct2 + 1;
            IsRatio(if freedom > 0 then freedom as real else 0.0, 2.0 * s.observations as real, Bias(s, distinct2))
  {
    var freedom := s.cells - s.groups - distinct2 + 1;
    if freedom > 0 && s.observations > 0 {
      Undo(freedom as real, 2.0 * s.observations as real);
    }
  }

  lemma RelativeIs(x: real, h: real)
    ensures IsRatio(x, h, Relative(x, h))
  {
    if h > 0.0 {
      Undo(x, h);
    }
  }

  lemma Undo(x: real, y: real)
    requires y > 0.0
    ensures x / y * y == x
  {}
}
