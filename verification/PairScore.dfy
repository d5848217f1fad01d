/** What the score of a column pair says about the rows it was computed from, at the end of every run. */
module PairScore {
  import opened Common
  import opened Sums
  import opened Histogram
  import opened ClusteringPool
  import opened ClusteringPoolProofs
  import opened Association

  ghost predicate AllSingle<K(!new)>(ks: seq<K>, g: K -> Group) {
    forall k | k in ks :: g(k).distinct == 1
  }

  lemma SumOverAdd(sizes: multiset<nat>, n: nat)
    ensures Observations(sizes + multiset{n}) == Observations(sizes) + n as real
  {
    var ms := sizes + multiset{n};
    SumOverTake(ms, AsReal(), n);
    assert ms - multiset{n} == sizes;
  }

  lemma {:induction false} FoldedSizes<K(!new)>(ks: seq<K>, g: K -> Group, n: nat)
    ensures n in FoldKeys(ks, g).groupSizes <==> exists k | k in ks :: g(k).observations == n
  {
    if ks != [] {
      var front, last := ks[..|ks| - 1], ks[|ks| - 1];
      assert ks == front + [last] && last in ks;
      FoldedSizes(front, g, n);
    }
  }

  lemma {:induction false} FoldedStats<K(!new)>(ks: seq<K>, g: K -> Group)
    requires forall k | k in ks :: g(k).observations > 0 && g(k).distinct > 0
    ensures var s := FoldKeys(ks, g);
            && ValidStats(s) && s.groups == |ks|
            && (s.cells == s.groups <==> AllSingle(ks, g))
  {
    hide Observations;
    hide FoldKeys;
    if ks == [] {
      NoObservations();
      NothingFolded(g);
    } else {
      var front, last := ks[..|ks| - 1], ks[|ks| - 1];
      assert ks == front + [last] && last in ks;
      assert forall k | k in front :: k in ks;
      FoldedStats(front, g);
      FoldAppend(front, last, g);
      SumOverAdd(FoldKeys(front, g).groupSizes, g(last).observations);
      SinglesAppend(front, last, g);
    }
  }

  lemma SinglesAppend<K(!new)>(front: seq<K>, last: K, g: K -> Group)
    ensures AllSingle(front + [last], g) <==> AllSingle(front, g) && g(last).distinct == 1
  {
    assert forall k :: k in front + [last] <==> k in front || k == last;
  }

  lemma NothingFolded<K(!new)>(g: K -> Group)
    ensures FoldKeys([], g) == EMPTY_STATS
  {}

  lemma NoObservations()
    ensures Observations(multiset{}) == 0.0
  {}

  /** The value counts of a column, along a list of its values. */
  function CountsOf(ds: seq<string>, values: seq<string>): (r: seq<nat>)
    ensures |r| == |ds| && forall i | 0 <= i < |ds| :: r[i] == Occurrences(values, ds[i])
  {
    seq(|ds|, i requires 0 <= i < |ds| => Occurrences(values, ds[i]))
  }

  /** The marginal distribution read off a histogram by walking its map in the given order. */
  function MarginalAlong(h: Hist, order: seq<string>): (m: Marginal)
    ensures |m.counts| == |order| && forall i | 0 <= i < |order| :: m.counts[i] == CountIn(h.counts, order[i])
    ensures m.total == h.total
  {
    Marginal(seq(|order|, i requires 0 <= i < |order| => CountIn(h.counts, order[i])), h.total, h.sumNLog)
  }

  lemma WalkCounts(f: NLogN, values: seq<string>, order: seq<string>)
    requires IsWalk(order, HistOf(f, values).counts.Keys)
    ensures MarginalAlong(HistOf(f, values), order).counts == CountsOf(order, values)
    ensures MarginalAlong(HistOf(f, values), order).total == |values|
    ensures |order| == |Distinct(values)| && forall v :: v in order <==> v in values
  {
    hide HistOf;
    hide Distinct;
    hide CountIn;
    HistKeys(f, values);
    WalkLength(order, HistOf(f, values).counts.Keys);
    DistinctKeys(f, values);
    HistCounts(f, values, "");
    forall i | 0 <= i < |order| ensures CountIn(HistOf(f, values).counts, order[i]) == Occurrences(values, order[i]) {
      HistCounts(f, values, order[i]);
    }
  }

  lemma {:induction false} CountsTotal(f: nat -> real, ds: seq<string>, values: seq<string>)
    ensures Total(CountsOf(ds, values), f) == Total(ds, (v: string) => f(Occurrences(values, v)))
  {
    var g := (v: string) => f(Occurrences(values, v));
    if ds != [] {
      var front, last := ds[..|ds| - 1], ds[|ds| - 1];
      CountsTotal(f, front, values);
      assert CountsOf(ds, values) == CountsOf(front, values) + [Occurrences(values, last)];
      TotalAppend(CountsOf(front, values), Occurrences(values, last), f);
    }
  }

  lemma {:induction false} OccurrencesSum(f: NLogN, values: seq<string>)
    requires forall n: nat :: f(n) == n as real
    ensures Total(Distinct(values), OccurrenceTerm(f, values)) == |values| as real
  {
    hide Distinct;
    hide OccurrenceTerm;
    hide Occurrences;
    if values == [] {
      NoValues(f);
    } else {
      var front, last := values[..|values| - 1], values[|values| - 1];
      assert values == front + [last];
      OccurrencesSum(f, front);
      DistinctSum(f, front, last, Occurrences(front, last));
    }
  }

  lemma NoValues(f: NLogN)
    ensures Total(Distinct([]), OccurrenceTerm(f, [])) == 0.0
  {}

  lemma CountsSum(values: seq<string>, order: seq<string>)
    requires NoDuplicates(order) && forall v :: v in order <==> v in values
    ensures Total(CountsOf(order, values), AsReal()) == |values| as real
  {
    hide Distinct;
    hide Total;
    hide CountsOf;
    var count: NLogN := (n: nat) => n as real;
    var term := (v: string) => AsReal()(Occurrences(values, v));
    OccurrencesSum(count, values);
    CountsTotal(AsReal(), order, values);
    TotalOfWalk(order, Distinct(values), term);
    TotalCongruent(Distinct(values), OccurrenceTerm(count, values), term);
  }

  /** Whatever the order of the walk, the counts are those of a distribution over the distinct values. */
  lemma MarginalIsValid(f: NLogN, values: seq<string>, order: seq<string>)
    requires values != [] && IsWalk(order, HistOf(f, values).counts.Keys)
    ensures ValidMarginal(MarginalAlong(HistOf(f, values), order)) && |order| == |Distinct(values)|
  {
    hide HistOf;
    hide Distinct;
    hide Total;
    hide MarginalAlong;
    hide Occurrences;
    var m := MarginalAlong(HistOf(f, values), order);
    WalkCounts(f, values, order);
    CountsSum(values, order);
    forall c | c in m.counts ensures 0 < c <= m.total {
      var i :| 0 <= i < |order| && m.counts[i] == c;
      assert order[i] in order;
      OccurrencesPositive(values, order[i]);
      OccurrencesBound(values, order[i]);
    }
  }

  lemma {:induction false} OccurrencesBound(values: seq<string>, v: string)
    ensures Occurrences(values, v) <= |values|
  {
    if values != [] {
      OccurrencesBound(values[..|values| - 1], v);
    }
  }

  /** The column1 values whose group is above the minimum count. */
  function QualifyingKeys(c: Config, rows: seq<Row>, p1: nat, p2: nat): seq<string> {
    Qualifying(c, rows, p1, p2, Distinct(GroupKeys(rows, p1)))
  }

  function GroupValues(rows: seq<Row>, p1: nat, p2: nat, v: string): seq<string> {
    Texts(RowsWith(rows, p1, v), p2)
  }

  /** Within every qualifying group column1 determines column2. */
  ghost predicate Determines(c: Config, rows: seq<Row>, p1: nat, p2: nat) {
    forall v | v in QualifyingKeys(c, rows, p1, p2) :: |Distinct(GroupValues(rows, p1, p2, v))| == 1
  }

  ghost predicate HasRepeatedGroup(c: Config, rows: seq<Row>, p1: nat, p2: nat) {
    exists v | v in QualifyingKeys(c, rows, p1, p2) :: |GroupValues(rows, p1, p2, v)| > 1
  }

  lemma QualifyingGroupsAreFilled(c: Config, rows: seq<Row>, p1: nat, p2: nat, v: string)
    requires v in QualifyingKeys(c, rows, p1, p2)
    ensures |GroupValues(rows, p1, p2, v)| > 0 && |Distinct(GroupValues(rows, p1, p2, v))| > 0
  {
    hide Texts;
    hide RowsWith;
    hide GroupKeys;
    hide Distinct;
    hide Qualifying;
    var values := GroupValues(rows, p1, p2, v);
    assert values[0] in values && values[0] in Distinct(values);
  }

  lemma PairStats(c: Config, rows: seq<Row>, p1: nat, p2: nat)
    ensures var s := DirectStats(c, rows, p1, p2);
            && ValidStats(s) && s.groups == |QualifyingKeys(c, rows, p1, p2)|
            && (s.cells == s.groups <==> Determines(c, rows, p1, p2))
            && ((exists n | n in s.groupSizes :: n != 1) <==> HasRepeatedGroup(c, rows, p1, p2))
  {
    hide Texts;
    hide RowsWith;
    hide Distinct;
    hide QualifyingKeys;
    hide FoldKeys;
    hide ValidStats;
    var vs, g := QualifyingKeys(c, rows, p1, p2), (v: string) => DirectGroup(c, rows, p1, p2, v);
    DirectStatsUnfold(c, rows, p1, p2);
    forall v | v in vs
      ensures g(v).observations == |GroupValues(rows, p1, p2, v)| > 0
      ensures g(v).distinct == |Distinct(GroupValues(rows, p1, p2, v))| > 0
    {
      QualifyingGroupsAreFilled(c, rows, p1, p2, v);
    }
    FoldedStats(vs, g);
    var sizes := FoldKeys(vs, g).groupSizes;
    forall n: nat ensures n in sizes <==> exists v | v in vs :: g(v).observations == n {
      FoldedSizes(vs, g, n);
    }
    if n :| n in sizes && n != 1 {
      var v :| v in vs && g(v).observations == n;
      assert |GroupValues(rows, p1, p2, v)| > 1;
    }
    if v :| v in vs && |GroupValues(rows, p1, p2, v)| > 1 {
      assert g(v).observations in sizes;
    }
  }

  lemma DirectStatsUnfold(c: Config, rows: seq<Row>, p1: nat, p2: nat)
    ensures DirectStats(c, rows, p1, p2)
         == FoldKeys(QualifyingKeys(c, rows, p1, p2), (v: string) => DirectGroup(c, rows, p1, p2, v))
  {}

  lemma ExpectedOfWalk(f: NLogN, values: seq<string>, a: seq<string>, b: seq<string>, n: nat)
    requires IsWalk(a, HistOf(f, values).counts.Keys) && IsWalk(b, HistOf(f, values).counts.Keys)
    ensures ExpectedDistinct(MarginalAlong(HistOf(f, values), a), n)
         == ExpectedDistinct(MarginalAlong(HistOf(f, values), b), n)
  {
    hide HistOf;
    hide Total;
    hide MarginalAlong;
    hide CountsOf;
    WalkCounts(f, values, a);
    WalkCounts(f, values, b);
    if |values| > 0 && n > 0 {
      var hit := HitTerm(|values|, n);
      CountsTotal(hit, a, values);
      CountsTotal(hit, b, values);
      TotalOfWalk(a, b, (v: string) => hit(Occurrences(values, v)));
    }
  }

  /** The ceiling does not depend on the order in which the map of the marginal is walked. */
  lemma CeilingOfWalk(f: NLogN, values: seq<string>, a: seq<string>, b: seq<string>, sizes: multiset<nat>)
    requires IsWalk(a, HistOf(f, values).counts.Keys) && IsWalk(b, HistOf(f, values).counts.Keys)
    ensures Ceiling(MarginalAlong(HistOf(f, values), a), sizes) == Ceiling(MarginalAlong(HistOf(f, values), b), sizes)
  {
    hide HistOf;
    hide MarginalAlong;
    hide ExpectedDistinct;
    hide SumOver;
    var ma, mb := MarginalAlong(HistOf(f, values), a), MarginalAlong(HistOf(f, values), b);
    forall n: nat ensures ExpectedAt(ma)(n) == ExpectedAt(mb)(n) {
      ExpectedOfWalk(f, values, a, b, n);
    }
    SumOverCongruent(sizes, ExpectedAt(ma), ExpectedAt(mb));
  }

  /** The number of cells that independence predicts for a pair, from the rows alone. */
  ghost function ExpectedCells(c: Config, rows: seq<Row>, p1: nat, p2: nat): real {
    var values := Texts(rows, p2);
    Ceiling(MarginalAlong(HistOf(c.f, values), Distinct(values)), DirectStats(c, rows, p1, p2).groupSizes)
  }

  /** The score is 1, from the rows alone: column1 determines column2 in every group that qualifies, and this
      is not vacuous, since some such group has two observations and column2 has two values. */
  ghost predicate PerfectPair(c: Config, rows: seq<Row>, p1: nat, p2: nat) {
    Determines(c, rows, p1, p2) && HasRepeatedGroup(c, rows, p1, p2) && |Distinct(Texts(rows, p2))| != 1
  }

  /** The score is positive, from the rows alone: some qualifying group has two observations, column2 has two
      values, and the groups show fewer cells than independence predicts. */
  ghost predicate Associated(c: Config, rows: seq<Row>, p1: nat, p2: nat) {
    && HasRepeatedGroup(c, rows, p1, p2) && |Distinct(Texts(rows, p2))| != 1
    && DirectStats(c, rows, p1, p2).cells as real < ExpectedCells(c, rows, p1, p2)
  }

  lemma DistinctIsWalk(f: NLogN, values: seq<string>)
    ensures IsWalk(Distinct(values), HistOf(f, values).counts.Keys)
  {
    hide HistOf;
    hide Distinct;
    HistKeys(f, values);
  }

  /** For every input and every walk of the marginal's map: the score of a pair is 1 exactly for a perfect pair,
      and positive exactly for an associated one. */
  lemma ScoreMeaning(c: Config, rows: seq<Row>, p1: nat, p2: nat, order: seq<string>)
    requires IsWalk(order, HistOf(c.f, Texts(rows, p2)).counts.Keys)
    ensures var marginal := MarginalAlong(HistOf(c.f, Texts(rows, p2)), order);
            var score := NormalisedDependency(DirectStats(c, rows, p1, p2), marginal);
            && 0.0 <= score <= 1.0 && (score == 1.0 <==> PerfectPair(c, rows, p1, p2))
            && (score > 0.0 <==> Associated(c, rows, p1, p2))
            && (Associated(c, rows, p1, p2) ==>
                  IsShare(score, ExpectedCells(c, rows, p1, p2), DirectStats(c, rows, p1, p2).groups as real,
                          DirectStats(c, rows, p1, p2).cells as real))
  {
    hide Texts;
    hide Distinct;
    hide DirectStats;
    hide ValidMarginal;
    hide ValidStats;
    hide Determines;
    hide HistOf;
    hide IsWalk;
    hide Ceiling;
    hide IsShare;
    hide QualifyingKeys;
    hide NormalisedDependency;
    var values := Texts(rows, p2);
    if values == [] {
      NothingRepeats(c, rows, p1, p2);
      HistCounts(c.f, values, "");
      NoTextNoScore(DirectStats(c, rows, p1, p2), MarginalAlong(HistOf(c.f, values), order));
    } else {
      var stats := DirectStats(c, rows, p1, p2);
      PairStats(c, rows, p1, p2);
      MarginalIsValid(c.f, values, order);
      NormalisedDependencyMeaning(stats, MarginalAlong(HistOf(c.f, values), order));
      RepeatedGroupIsGroup(c, rows, p1, p2);
      DistinctIsWalk(c.f, values);
      CeilingOfWalk(c.f, values, order, Distinct(values), stats.groupSizes);
    }
  }

  lemma NoTextNoScore(s: Stats, m: Marginal)
    requires m.total == 0
    ensures NormalisedDependency(s, m) == 0.0
  {
    hide Ceiling;
  }

  lemma RepeatedGroupIsGroup(c: Config, rows: seq<Row>, p1: nat, p2: nat)
    ensures HasRepeatedGroup(c, rows, p1, p2) ==> |QualifyingKeys(c, rows, p1, p2)| > 0
  {
    hide QualifyingKeys;
  }

  /** A column without texts has none in any group. */
  lemma NothingRepeats(c: Config, rows: seq<Row>, p1: nat, p2: nat)
    requires Texts(rows, p2) == []
    ensures !HasRepeatedGroup(c, rows, p1, p2)
  {
    hide QualifyingKeys;
    forall v ensures GroupValues(rows, p1, p2, v) == [] {
      GroupTextsBound(rows, p1, p2, v);
    }
  }

  lemma {:induction false} GroupTextsBound(rows: seq<Row>, p1: nat, p2: nat, v: string)
    ensures |GroupValues(rows, p1, p2, v)| <= |Texts(rows, p2)|
  {
    hide Texts;
    hide RowsWith;
    if rows == [] {
      NoTexts(p1, p2, v);
    } else {
      var front, r := rows[..|rows| - 1], rows[|rows| - 1];
      assert rows == front + [r];
      GroupTextsBound(front, p1, p2, v);
      RowsWithAppend(front, r, p1, v);
      TextsAppend(front, r, p2);
      TextsAppend(RowsWith(front, p1, v), r, p2);
    }
  }

  lemma NoTexts(p1: nat, p2: nat, v: string)
    ensures Texts(RowsWith([], p1, v), p2) == []
  {}

  /**
   At the end of every run, whatever the interleaving, the order of arrival and the order in which the map of
   the marginal is walked: the score computed from the pooled data is 1 exactly for a perfect pair of the rows,
   and positive exactly for an associated one.
   */
  lemma RunScoreMeaning(c: Config, rows: seq<Row>, run: seq<Sys>, d: nat, e: nat, order: seq<string>)
    requires DistinctColumns(c) && IsRun(c, rows, run) && run[|run| - 1].scores.Read?
    requires d < |c.columns1| && e < |Evals(c, d)|
    ensures Evals(c, d)[e] in run[|run| - 1].scores.marginals
    ensures var s, p1, p2 := run[|run| - 1], c.columns1[d], Evals(c, d)[e];
            IsWalk(order, s.scores.marginals[p2].counts.Keys) ==>
              var score := NormalisedDependency(StatsAt(s.acc, (p1, p2)), MarginalAlong(s.scores.marginals[p2], order));
              && 0.0 <= score <= 1.0 && (score == 1.0 <==> PerfectPair(c, rows, p1, p2))
              && (score > 0.0 <==> Associated(c, rows, p1, p2))
              && (Associated(c, rows, p1, p2) ==>
                    IsShare(score, ExpectedCells(c, rows, p1, p2), StatsAt(s.acc, (p1, p2)).groups as real,
                            StatsAt(s.acc, (p1, p2)).cells as real))
  {
    hide Next;
    hide IsShare;
    hide ExpectedCells;
    hide HistOf;
    hide Texts;
    hide DirectStats;
    hide NormalisedDependency;
    hide MarginalAlong;
    hide PerfectPair;
    hide Associated;
    hide IsWalk;
    hide StatsAt;
    var s, p1, p2 := run[|run| - 1], c.columns1[d], Evals(c, d)[e];
    assert p2 in Evals(c, d) && p2 in c.columns2;
    PoolComputesGroupBy(c, rows, run, d, e);
    MarginalsAreComplete(c, rows, run);
    if IsWalk(order, s.scores.marginals[p2].counts.Keys) {
      ScoreMeaning(c, rows, p1, p2, order);
    }
  }
}
