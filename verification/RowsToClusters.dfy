/**
 The whole operator, from the rows to the clusters: the measured pairs are those of the pool that hold enough
 observations, and their weights are the scores of the pooled data. What joins two columns of one cluster is
 then a statement about the rows.
 */
module RowsToClusters {
  import opened Common
  import opened Histogram
  import opened ClusteringPool
  import opened ClusteringPoolProofs
  import opened Association
  import opened PairScore
  import opened GroupByMeaning
  import opened ColumnGraph
  import opened Clusters

  type Pair = (nat, nat)

  /** The observations of a pair, or -1 if there are too few of them for its groups. */
  function CumulatedCount(c: Config, s: Stats): int {
    if s.observations < c.minCount then -1 else s.observations
  }

  /** The pairs of the pool that take part in the clustering. */
  ghost function KeptPairs(c: Config, minObservations: int, s: Sys): set<Pair> {
    set pair | pair in s.acc && CumulatedCount(c, s.acc[pair]) >= minObservations
  }

  function MarginalOf(s: Sys, p: nat): Hist {
    if s.scores.Read? && p in s.scores.marginals then s.scores.marginals[p] else EMPTY_HIST
  }

  /** The order in which the marginal's map is walked when a pair is scored. */
  type Walks = Pair -> seq<string>

  ghost predicate ValidWalks(s: Sys, pairs: seq<Pair>, walks: Walks) {
    forall pair | pair in pairs :: IsWalk(walks(pair), MarginalOf(s, pair.1).counts.Keys)
  }

  ghost function ScoreOf(s: Sys, pair: Pair, walks: Walks): real {
    NormalisedDependency(StatsAt(s.acc, pair), MarginalAlong(MarginalOf(s, pair.1), walks(pair)))
  }

  ghost function MeasureOf(s: Sys, names: nat -> string, pair: Pair, walks: Walks): Measure {
    Measure(names(pair.0), names(pair.1), ScoreOf(s, pair, walks))
  }

  /** What the clustering is given: the kept pairs in some order, with their scores. */
  ghost function Measures(s: Sys, names: nat -> string, pairs: seq<Pair>, walks: Walks): (ms: seq<Measure>)
    ensures |ms| == |pairs| && forall i | 0 <= i < |pairs| :: ms[i] == MeasureOf(s, names, pairs[i], walks)
  {
    seq(|pairs|, i requires 0 <= i < |pairs| => MeasureOf(s, names, pairs[i], walks))
  }

  // ---------- Scores of the pool ----------

  /** A pair to be measured: a column of each side, and not the same one. */
  ghost predicate IsPair(c: Config, pair: Pair) {
    pair.0 in c.columns1 && pair.1 in c.columns2 && pair.0 != pair.1
  }

  /** The pair of distributor d and its evaluator e. */
  lemma PairAtIndex(c: Config, d: nat, e: nat)
    requires d < |c.columns1| && e < |Evals(c, d)|
    ensures IsPair(c, (c.columns1[d], Evals(c, d)[e]))
  {
    hide Without;
    assert Evals(c, d)[e] in Evals(c, d);
  }

  lemma IndexOfPair(c: Config, pair: Pair) returns (d: nat, e: nat)
    requires IsPair(c, pair)
    ensures d < |c.columns1| && e < |Evals(c, d)| && pair == (c.columns1[d], Evals(c, d)[e])
  {
    hide Without;
    d :| d < |c.columns1| && c.columns1[d] == pair.0;
    assert pair.1 in Evals(c, d);
    e :| e < |Evals(c, d)| && Evals(c, d)[e] == pair.1;
  }

  lemma {:induction false} FoldHasMessage(c: Config, ms: seq<Msg>, pair: Pair)
    requires FoldMsgs(c, ms, pair) != EMPTY_STATS && forall m | m in ms :: InRange(c, m)
    ensures IsPair(c, pair)
  {
    hide AddGroup;
    hide Evals;
    var front, m := ms[..|ms| - 1], ms[|ms| - 1];
    assert m in ms;
    if PairOf(c, m) == pair {
      PairAtIndex(c, m.key.0, m.eval);
    } else {
      FoldHasMessage(c, front, pair);
    }
  }

  /** Pooled statistics that are not empty belong to a pair of columns. */
  lemma PooledIsPair(c: Config, rows: seq<Row>, run: seq<Sys>, pair: Pair)
    requires IsRun(c, rows, run) && StatsAt(run[|run| - 1].acc, pair) != EMPTY_STATS
    ensures IsPair(c, pair)
  {
    hide IsPair;
    hide FoldMsgs;
    hide WorkersOk;
    hide MarginalsOk;
    hide Next;
    hide Reported;
    hide DirectGroup;
    hide StatsAt;
    hide Evals;
    var s := run[|run| - 1];
    RunInv(c, rows, run, |run| - 1);
    forall m | m in s.arrived ensures InRange(c, m) {
      assert m in s.arrived + s.channel;
    }
    FoldHasMessage(c, s.arrived, pair);
  }

  lemma EmptyScore(m: Marginal)
    ensures NormalisedDependency(EMPTY_STATS, m) == 0.0
  {
    hide Ceiling;
  }

  /** The score of every pair in the pool is not negative, and positive exactly for an associated pair of columns. */
  lemma PoolScore(c: Config, rows: seq<Row>, run: seq<Sys>, pair: Pair, walks: Walks)
    requires DistinctColumns(c) && IsRun(c, rows, run) && run[|run| - 1].scores.Read?
    requires IsWalk(walks(pair), MarginalOf(run[|run| - 1], pair.1).counts.Keys)
    ensures ScoreOf(run[|run| - 1], pair, walks) >= 0.0
    ensures ScoreOf(run[|run| - 1], pair, walks) > 0.0 <==> IsPair(c, pair) && Associated(c, rows, pair.0, pair.1)
  {
    hide Next;
    hide NormalisedDependency;
    hide MarginalAlong;
    hide Associated;
    hide IsWalk;
    hide StatsAt;
    hide Evals;
    var s := run[|run| - 1];
    if IsPair(c, pair) {
      var d, e := IndexOfPair(c, pair);
      RunScoreMeaning(c, rows, run, d, e, walks(pair));
    } else {
      if StatsAt(s.acc, pair) != EMPTY_STATS {
        PooledIsPair(c, rows, run, pair);
      }
      EmptyScore(MarginalAlong(MarginalOf(s, pair.1), walks(pair)));
    }
  }

  /** An associated pair is in the pool, with the observations of the rows. */
  lemma AssociatedIsPooled(c: Config, rows: seq<Row>, run: seq<Sys>, pair: Pair)
    requires DistinctColumns(c) && IsRun(c, rows, run) && run[|run| - 1].scores.Read?
    requires IsPair(c, pair)
    ensures StatsAt(run[|run| - 1].acc, pair) == DirectStats(c, rows, pair.0, pair.1)
    ensures Associated(c, rows, pair.0, pair.1) ==> pair in run[|run| - 1].acc
  {
    hide Next;
    hide DirectStats;
    hide Evals;
    hide ValidStats;
    hide Determines;
    hide QualifyingKeys;
    hide ExpectedCells;
    hide HasRepeatedGroup;
    var d, e := IndexOfPair(c, pair);
    PoolComputesGroupBy(c, rows, run, d, e);
    PairStats(c, rows, pair.0, pair.1);
    RepeatedGroupIsGroup(c, rows, pair.0, pair.1);
  }

  // ---------- Edges of the column graph ----------

  /** The pairs of columns that hold enough observations and are associated, from the rows alone. */
  ghost predicate Links(c: Config, rows: seq<Row>, minObservations: int, pair: Pair) {
    && IsPair(c, pair) && Associated(c, rows, pair.0, pair.1)
    && |QualifiedRows(c, rows, pair.0, pair.1)| >= minObservations
  }

  /** A repeated group holds more rows than the minimum, and they are all observations. */
  lemma EnoughObservations(c: Config, rows: seq<Row>, p1: nat, p2: nat)
    requires HasRepeatedGroup(c, rows, p1, p2)
    ensures CumulatedCount(c, DirectStats(c, rows, p1, p2)) == |QualifiedRows(c, rows, p1, p2)|
  {
    hide QualifyingKeys;
    hide DirectStats;
    hide GroupValues;
    var v :| v in QualifyingKeys(c, rows, p1, p2) && |GroupValues(rows, p1, p2, v)| > 1;
    QualifyingKeysAre(c, rows, p1, p2, v);
    ObservationsAreRows(c, rows, p1, p2);
    GroupIsQualified(c, rows, p1, p2, v);
  }

  predicate Named(names: nat -> string, pair: Pair, a: string, b: string) {
    a != b && ((names(pair.0) == a && names(pair.1) == b) || (names(pair.0) == b && names(pair.1) == a))
  }

  ghost predicate Linked(c: Config, rows: seq<Row>, minObservations: int, names: nat -> string, a: string, b: string) {
    exists pair :: Links(c, rows, minObservations, pair) && Named(names, pair, a, b)
  }

  /** Whether a positive measurement of {a, b} is among the measurements. */
  ghost predicate HasPositive(ms: seq<Measure>, a: string, b: string) {
    exists m | m in ms :: Joins(m, a, b) && m.weight > 0.0
  }

  lemma {:induction false} SumIsPositive(ms: seq<Measure>, a: string, b: string)
    requires forall m | m in ms :: m.weight >= 0.0
    ensures SumOf(ms, a, b) >= 0.0
    ensures SumOf(ms, a, b) > 0.0 <==> HasPositive(ms, a, b)
    ensures HasPositive(ms, a, b) ==> CountOf(ms, a, b) > 0
  {
    if ms != [] {
      var front, m := ms[..|ms| - 1], ms[|ms| - 1];
      assert ms == front + [m] && m in ms;
      SumIsPositive(front, a, b);
      assert HasPositive(ms, a, b) <==> HasPositive(front, a, b) || (Joins(m, a, b) && m.weight > 0.0);
    }
  }

  lemma PositiveMean(sum: real, count: nat)
    requires count > 0
    ensures sum / count as real > 0.0 <==> sum > 0.0
  {}

  lemma RelatedIsPositive(ms: seq<Measure>, a: string, b: string)
    requires forall m | m in ms :: m.weight >= 0.0
    ensures Related(ms, a, b) <==> HasPositive(ms, a, b)
  {
    hide SumOf;
    hide CountOf;
    hide HasPositive;
    SumIsPositive(ms, a, b);
    if CountOf(ms, a, b) > 0 {
      PositiveMean(SumOf(ms, a, b), CountOf(ms, a, b));
    }
  }

  /** The kept pairs, in any order, and the walks their scores were computed with. */
  ghost predicate ReadOff(c: Config, rows: seq<Row>, run: seq<Sys>, minObservations: int, pairs: seq<Pair>,
                          walks: Walks) {
    && DistinctColumns(c) && IsRun(c, rows, run) && run[|run| - 1].scores.Read?
    && IsWalk(pairs, KeptPairs(c, minObservations, run[|run| - 1])) && ValidWalks(run[|run| - 1], pairs, walks)
  }

  lemma RepeatedWhenAssociated(c: Config, rows: seq<Row>, pair: Pair)
    ensures Associated(c, rows, pair.0, pair.1) ==>
              CumulatedCount(c, DirectStats(c, rows, pair.0, pair.1)) == |QualifiedRows(c, rows, pair.0, pair.1)|
  {
    hide HasRepeatedGroup;
    hide DirectStats;
    hide QualifiedRows;
    hide ExpectedCells;
    if Associated(c, rows, pair.0, pair.1) {
      EnoughObservations(c, rows, pair.0, pair.1);
    }
  }

  lemma MeasureIsLink(c: Config, rows: seq<Row>, run: seq<Sys>, minObservations: int, pairs: seq<Pair>, walks: Walks,
                      pair: Pair)
    requires ReadOff(c, rows, run, minObservations, pairs, walks)
    ensures pair in pairs ==> ScoreOf(run[|run| - 1], pair, walks) >= 0.0
    ensures pair in pairs && ScoreOf(run[|run| - 1], pair, walks) > 0.0 <==> Links(c, rows, minObservations, pair)
  {
    hide Next;
    hide ScoreOf;
    hide Associated;
    hide IsPair;
    hide DirectStats;
    hide MarginalOf;
    if pair in pairs {
      PoolScore(c, rows, run, pair, walks);
    }
    if IsPair(c, pair) {
      AssociatedIsPooled(c, rows, run, pair);
      RepeatedWhenAssociated(c, rows, pair);
    }
  }

  ghost predicate PositiveIsLink(c: Config, rows: seq<Row>, minObservations: int, s: Sys, pairs: seq<Pair>,
                                 walks: Walks, pair: Pair) {
    && (pair in pairs ==> ScoreOf(s, pair, walks) >= 0.0)
    && (pair in pairs && ScoreOf(s, pair, walks) > 0.0 <==> Links(c, rows, minObservations, pair))
  }

  lemma PositiveIffLinked(c: Config, rows: seq<Row>, minObservations: int, s: Sys, names: nat -> string,
                          pairs: seq<Pair>, walks: Walks, a: string, b: string)
    requires forall pair :: PositiveIsLink(c, rows, minObservations, s, pairs, walks, pair)
    ensures forall m | m in Measures(s, names, pairs, walks) :: m.weight >= 0.0
    ensures HasPositive(Measures(s, names, pairs, walks), a, b) <==> Linked(c, rows, minObservations, names, a, b)
  {
    hide Links;
    hide ScoreOf;
    hide Measures;
    var ms := Measures(s, names, pairs, walks);
    forall m | m in ms ensures m.weight >= 0.0 {
      var i :| 0 <= i < |ms| && ms[i] == m;
      assert PositiveIsLink(c, rows, minObservations, s, pairs, walks, pairs[i]);
    }
    if pair :| Links(c, rows, minObservations, pair) && Named(names, pair, a, b) {
      assert PositiveIsLink(c, rows, minObservations, s, pairs, walks, pair);
      var i :| 0 <= i < |pairs| && pairs[i] == pair;
      assert ms[i] in ms && Joins(ms[i], a, b);
    }
    if m :| m in ms && Joins(m, a, b) && m.weight > 0.0 {
      var i :| 0 <= i < |ms| && ms[i] == m;
      assert PositiveIsLink(c, rows, minObservations, s, pairs, walks, pairs[i]);
      assert Named(names, pairs[i], a, b) && pairs[i] in pairs;
    }
  }

  /** Two columns are joined in the column graph exactly when the rows link them, in one direction or the other. */
  lemma RelatedIffLinked(c: Config, rows: seq<Row>, run: seq<Sys>, minObservations: int, names: nat -> string,
                         pairs: seq<Pair>, walks: Walks, a: string, b: string)
    requires ReadOff(c, rows, run, minObservations, pairs, walks)
    ensures Related(Measures(run[|run| - 1], names, pairs, walks), a, b)
        <==> Linked(c, rows, minObservations, names, a, b)
  {
    hide ReadOff;
    hide Links;
    hide Linked;
    hide Related;
    hide ScoreOf;
    hide Measures;
    hide HasPositive;
    LastState(c, rows, run, minObservations, pairs, walks);
    var s := run[|run| - 1];
    forall pair ensures PositiveIsLink(c, rows, minObservations, s, pairs, walks, pair) {
      MeasureIsLink(c, rows, run, minObservations, pairs, walks, pair);
    }
    PositiveIffLinked(c, rows, minObservations, s, names, pairs, walks, a, b);
    RelatedIsPositive(Measures(s, names, pairs, walks), a, b);
  }

  lemma LastState(c: Config, rows: seq<Row>, run: seq<Sys>, minObservations: int, pairs: seq<Pair>, walks: Walks)
    requires ReadOff(c, rows, run, minObservations, pairs, walks)
    ensures run != []
  {}

  ghost predicate LinkChain(c: Config, rows: seq<Row>, minObservations: int, names: nat -> string, chain: seq<string>) {
    chain != [] && forall k | 0 <= k < |chain| - 1 :: Linked(c, rows, minObservations, names, chain[k], chain[k + 1])
  }

  /**
   From the rows to the clusters, for every run of the pool and every map order: two columns of one cluster are
   joined by a chain of pairs, each of which shows fewer cells in the rows than independence predicts.
   */
  lemma ClusterIsLinkedByRows(c: Config, rows: seq<Row>, run: seq<Sys>, minObservations: int, names: nat -> string,
                              pairs: seq<Pair>, walks: Walks, order: seq<nat>, groups: seq<seq<string>>, g: nat,
                              a: string, b: string)
    returns (chain: seq<string>)
    requires ReadOff(c, rows, run, minObservations, pairs, walks)
    requires Clustering(Measures(run[|run| - 1], names, pairs, walks), order, groups)
    requires g < |groups| && a in groups[g] && b in groups[g]
    ensures LinkChain(c, rows, minObservations, names, chain) && chain[0] == a && chain[|chain| - 1] == b
  {
    hide ReadOff;
    hide Clustering;
    hide Related;
    hide Linked;
    LastState(c, rows, run, minObservations, pairs, walks);
    var ms := Measures(run[|run| - 1], names, pairs, walks);
    chain := SharedClusterIsLinked(ms, order, groups, g, a, b);
    forall k | 0 <= k < |chain| - 1 ensures Linked(c, rows, minObservations, names, chain[k], chain[k + 1]) {
      assert Related(ms, chain[k], chain[k + 1]);
      RelatedIffLinked(c, rows, run, minObservations, names, pairs, walks, chain[k], chain[k + 1]);
    }
  }
}
