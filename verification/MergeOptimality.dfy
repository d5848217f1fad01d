/**
 The partition cannot be improved by merging. The outer loop ends only on a level that moves nothing, and on that
 level every community is one node: so no two communities of the result can be merged for more than the threshold.
 */
module MergeOptimality {
  import opened Common
  import opened Sums
  import opened WeightedGraph
  import opened Aggregation
  import opened LocalMoving
  import opened Partition
  import opened ColumnGraph
  import opened Clusters

  /** Community a renamed to b. */
  function Merge(comm: seq<nat>, a: nat, b: nat): (r: seq<nat>)
    ensures |r| == |comm| && forall v | 0 <= v < |comm| :: r[v] == if comm[v] == a then b else comm[v]
  {
    seq(|comm|, v requires 0 <= v < |comm| => if comm[v] == a then b else comm[v])
  }

  // ---------- On the last level ----------

  /** A level that moves nothing leaves the singletons locally optimal. */
  lemma UnmovedIsOptimal(n: nat, edges: seq<Edge>, resolution: real)
    requires ValidEdges(n, edges) && M2(n, edges) > 0.0 && !OneLevel(n, edges, resolution).moved
    ensures OneLevel(n, edges, resolution).comm == Identity(n)
    ensures LocallyOptimal(n, edges, resolution, Identity(n))
  {
    hide Modularity;
    hide Step;
    hide Passes;
    hide LocallyOptimal;
    hide M2;
    PassesImprove(n, edges, resolution, Identity(n), MAX_PASSES);
    StepPositive(n, edges);
    assert MAX_PASSES as real * Step(n, edges) > 0.0;
  }

  /** No arc into a community means no weight into it. */
  lemma {:induction false} NoArcsNoWeight(arcs: seq<Arc>, comm: seq<nat>, c: nat)
    requires forall a | a in arcs :: a.to < |comm| ==> comm[a.to] != c
    ensures Total(arcs, ArcInto(comm, c)) == 0.0
  {
    if arcs != [] {
      var front, last := arcs[..|arcs| - 1], arcs[|arcs| - 1];
      assert arcs == front + [last] && last in arcs;
      NoArcsNoWeight(front, comm, c);
      TotalAppend(front, last, ArcInto(comm, c));
    }
  }

  lemma {:induction false} NoArcToItself(edges: seq<Edge>, x: nat)
    ensures forall a | a in Arcs(edges, x) :: a.to != x
  {
    if edges != [] {
      NoArcToItself(edges[..|edges| - 1], x);
    }
  }

  lemma GainWithoutWeight(m2: real, resolution: real, tot: real, k: real)
    requires m2 > 0.0 && resolution >= 0.0 && tot >= 0.0 && k >= 0.0
    ensures LocalGain(m2, resolution, 0.0, tot, k) <= 0.0
  {
    NonNegativeProduct(resolution, tot);
    NonNegativeProduct(resolution * tot, k);
    NonNegativeQuotient(resolution * tot * k, m2);
  }

  lemma NonNegativeProduct(x: real, y: real)
    requires x >= 0.0 && y >= 0.0
    ensures x * y >= 0.0
  {}

  lemma NonNegativeQuotient(x: real, y: real)
    requires x >= 0.0 && y > 0.0
    ensures x / y >= 0.0
  {}

  lemma NoOthersNoLoss(m2: real, resolution: real, k: real)
    requires m2 > 0.0
    ensures LocalGain(m2, resolution, 0.0, 0.0, k) == 0.0
  {
    assert resolution * 0.0 * k / m2 == 0.0;
  }

  /** A node alone in its community has gain 0 there. */
  lemma OwnGainIsZero(n: nat, edges: seq<Edge>, resolution: real, x: nat)
    requires ValidEdges(n, edges) && M2(n, edges) > 0.0 && x < n
    ensures Gain(n, edges, resolution, Identity(n), x, x) == 0.0
  {
    hide M2;
    hide LocalGain;
    hide Degree;
    hide CommunityDegree;
    hide Arcs;
    var comm := Identity(n);
    NoArcToItself(edges, x);
    NoArcsNoWeight(Arcs(edges, x), comm, x);
    ArcsWeight(edges, comm, x, x);
    SingletonDegree(n, edges, x);
    NoOthersNoLoss(M2(n, edges), resolution, Degree(edges, x));
  }

  /** A community without a neighbour of x gives x no positive gain. */
  lemma FarGainIsNotPositive(n: nat, edges: seq<Edge>, resolution: real, x: nat, b: nat)
    requires ValidEdges(n, edges) && M2(n, edges) > 0.0 && x < n && b < n && x != b && resolution >= 0.0
    requires forall a | a in Arcs(edges, x) :: a.to != b
    ensures Gain(n, edges, resolution, Identity(n), x, b) <= 0.0
  {
    hide M2;
    hide LocalGain;
    hide Degree;
    hide CommunityDegree;
    hide Arcs;
    var comm := Identity(n);
    NoArcsNoWeight(Arcs(edges, x), comm, b);
    ArcsWeight(edges, comm, x, b);
    SingletonDegree(n, edges, b);
    DegreeNonNegative(edges, b);
    DegreeNonNegative(edges, x);
    GainWithoutWeight(M2(n, edges), resolution, Degree(edges, b), Degree(edges, x));
  }

  /** On a level that moves nothing, no move of a node to any other node gains more than the threshold. */
  lemma NoMoveGains(n: nat, edges: seq<Edge>, resolution: real, a: nat, b: nat)
    requires ValidEdges(n, edges) && M2(n, edges) > 0.0 && a < n && b < n && a != b && resolution >= 0.0
    requires LocallyOptimal(n, edges, resolution, Identity(n))
    ensures Gain(n, edges, resolution, Identity(n), a, b) <= Gain(n, edges, resolution, Identity(n), a, a) + THRESHOLD
  {
    hide M2;
    hide Gain;
    hide Arcs;
    ArcsValid(n, edges, a);
    assert OptimalAt(n, edges, resolution, Identity(n), a);
    if forall x | x in Arcs(edges, a) :: x.to != b {
      FarGainIsNotPositive(n, edges, resolution, a, b);
      OwnGainIsZero(n, edges, resolution, a);
    } else {
      assert b in Candidates(Arcs(edges, a), Identity(n), a);
    }
  }

  lemma ScaledWithinStep(n: nat, edges: seq<Edge>, g1: real, g0: real)
    requires M2(n, edges) > 0.0 && g1 <= g0 + THRESHOLD
    ensures Scaled(M2(n, edges), g1, g0) <= Step(n, edges)
  {
    hide M2;
    ScaledMonotone(2.0 / M2(n, edges), g1 - g0, THRESHOLD);
  }

  lemma ScaledMonotone(k: real, x: real, y: real)
    requires k >= 0.0 && x <= y
    ensures k * x <= k * y
  {}

  lemma LastLevelMerge(n: nat, edges: seq<Edge>, resolution: real, a: nat, b: nat)
    requires ValidEdges(n, edges) && M2(n, edges) > 0.0 && a < n && b < n && resolution >= 0.0
    requires LocallyOptimal(n, edges, resolution, Identity(n))
    ensures Modularity(n, edges, Merge(Identity(n), a, b), resolution) <= Modularity(n, edges, Identity(n),
                                                                                     resolution) + Step(n, edges)
  {
    hide M2;
    hide Modularity;
    hide Gain;
    hide Scaled;
    hide Step;
    hide LocallyOptimal;
    var comm := Identity(n);
    StepPositive(n, edges);
    if a == b {
      assert Merge(comm, a, b) == comm;
    } else {
      assert Merge(comm, a, b) == comm[a := b];
      NoMoveGains(n, edges, resolution, a, b);
      MoveChangesModularity(n, edges, resolution, comm, a, b);
      ScaledWithinStep(n, edges, Gain(n, edges, resolution, comm, a, b), Gain(n, edges, resolution, comm, a, a));
    }
  }

  // ---------- Through the levels ----------

  lemma MergeCompose(q: seq<nat>, p: seq<nat>, a: nat, b: nat)
    requires forall v | 0 <= v < |p| :: p[v] < |q|
    ensures Merge(Compose(q, p), a, b) == Compose(Merge(q, a, b), p)
  {}

  lemma InComposed(q: seq<nat>, p: seq<nat>, a: nat)
    requires (forall v | 0 <= v < |p| :: p[v] < |q|) && a in Compose(q, p)
    ensures a in q
  {}

  lemma SameStep(n: nat, edges: seq<Edge>, n': nat, edges': seq<Edge>)
    requires M2(n, edges) > 0.0 && M2(n', edges') == M2(n, edges)
    ensures Step(n', edges') == Step(n, edges)
  {
    hide M2;
  }

  lemma LevelsUnfold(n: nat, edges: seq<Edge>, resolution: real, p: seq<nat>, newN: nat)
    requires ValidEdges(n, edges) && OneLevel(n, edges, resolution).moved
    requires p == Renumber(OneLevel(n, edges, resolution).comm)
        && newN == |Distinct(OneLevel(n, edges, resolution).comm)|
    ensures newN < n && ValidMap(n, p, newN) && ValidEdges(newN, Coarsen(p, edges))
    ensures Levels(n, edges, resolution) == Compose(Levels(newN, Coarsen(p, edges), resolution), p)
  {
    hide OneLevel;
    hide Coarsen;
    MovedLevelShrinks(n, edges, resolution);
    RenumberIsMap(n, OneLevel(n, edges, resolution).comm);
    CoarsenValid(n, p, newN, edges);
  }

  /** Merging two communities of the labels never raises the modularity by more than the least step of a move. */
  lemma {:induction false} LevelsAreMergeOptimal(n: nat, edges: seq<Edge>, resolution: real, a: nat, b: nat)
    requires ValidEdges(n, edges) && PositiveEdges(edges) && M2(n, edges) > 0.0 && resolution >= 0.0
    requires a in Levels(n, edges, resolution) && b in Levels(n, edges, resolution)
    ensures Modularity(n, edges, Merge(Levels(n, edges, resolution), a, b), resolution)
         <= Modularity(n, edges, Levels(n, edges, resolution), resolution) + Step(n, edges)
    decreases n
  {
    hide Modularity;
    hide Step;
    hide M2;
    hide OneLevel;
    hide Coarsen;
    hide Renumber;
    hide LocallyOptimal;
    if !OneLevel(n, edges, resolution).moved {
      UnmovedIsOptimal(n, edges, resolution);
      LastLevelMerge(n, edges, resolution, a, b);
    } else {
      hide Levels;
      var p, newN := Renumber(OneLevel(n, edges, resolution).comm), |Distinct(OneLevel(n, edges, resolution).comm)|;
      LevelsUnfold(n, edges, resolution, p, newN);
      var coarse := Coarsen(p, edges);
      var q := Levels(newN, coarse, resolution);
      CoarsenKeepsModularity(n, edges, p, newN, q, resolution);
      CoarsenKeepsModularity(n, edges, p, newN, Merge(q, a, b), resolution);
      InComposed(q, p, a);
      InComposed(q, p, b);
      LevelsAreMergeOptimal(newN, coarse, resolution, a, b);
      MergeCompose(q, p, a, b);
      SameStep(n, edges, newN, coarse);
    }
  }

  /** The same of the labels the partitioner returns. */
  lemma LabelsAreMergeOptimal(n: nat, edges: seq<Edge>, resolution: real, a: nat, b: nat)
    requires ValidEdges(n, edges) && PositiveEdges(edges) && M2(n, edges) > 0.0 && resolution >= 0.0
    requires a in Labels(n, edges, resolution) && b in Labels(n, edges, resolution)
    ensures Modularity(n, edges, Merge(Labels(n, edges, resolution), a, b), resolution)
         <= Modularity(n, edges, Labels(n, edges, resolution), resolution) + Step(n, edges)
  {
    hide Modularity;
    hide Step;
    hide M2;
    hide Levels;
    hide Renumber;
    var levels, labels := Levels(n, edges, resolution), Labels(n, edges, resolution);
    var u :| 0 <= u < n && labels[u] == a;
    var v :| 0 <= v < n && labels[v] == b;
    assert levels[u] in levels && levels[v] in levels;
    LevelsAreMergeOptimal(n, edges, resolution, levels[u], levels[v]);
    RenumberKeepsModularity(n, edges, levels, resolution);
    forall x, y | 0 <= x < n && 0 <= y < n
      ensures Merge(labels, a, b)[x] == Merge(labels, a, b)[y]
         <==> Merge(levels, levels[u], levels[v])[x] == Merge(levels, levels[u], levels[v])[y]
    {
      SameMerged(levels, x, y, u, v);
    }
    ModularityOfRelabelling(n, edges, Merge(levels, levels[u], levels[v]), Merge(labels, a, b), resolution);
  }

  lemma SameMerged(s: seq<nat>, x: nat, y: nat, u: nat, v: nat)
    requires x < |s| && y < |s| && u < |s| && v < |s|
    ensures var r := Renumber(s);
            Merge(r, r[u], r[v])[x] == Merge(r, r[u], r[v])[y] <==> Merge(s, s[u], s[v])[x] == Merge(s, s[u], s[v])[y]
  {
    hide Renumber;
    RenumberKeepsClasses(s, x, u);
    RenumberKeepsClasses(s, y, u);
    RenumberKeepsClasses(s, x, v);
    RenumberKeepsClasses(s, y, v);
    RenumberKeepsClasses(s, x, y);
  }

  /** No two clusters of columns can be merged for more than the least step of a move. */
  lemma ClustersAreMergeOptimal(ms: seq<Measure>, a: nat, b: nat)
    ensures ValidEdges(|Columns(ms)|, Graph(ms))
    ensures var n, edges := |Columns(ms)|, Graph(ms);
            M2(n, edges) > 0.0 && a in Labels(n, edges, RESOLUTION) && b in Labels(n, edges, RESOLUTION) ==>
              Modularity(n, edges, Merge(Labels(n, edges, RESOLUTION), a, b), RESOLUTION)
              <= Modularity(n, edges, Labels(n, edges, RESOLUTION), RESOLUTION) + Step(n, edges)
  {
    hide Graph;
    hide Columns;
    hide Modularity;
    hide Labels;
    hide M2;
    hide Step;
    GraphIsValid(ms);
    var n, edges := |Columns(ms)|, Graph(ms);
    if M2(n, edges) > 0.0 && a in Labels(n, edges, RESOLUTION) && b in Labels(n, edges, RESOLUTION) {
      LabelsAreMergeOptimal(n, edges, RESOLUTION, a, b);
    }
  }
}
