/**
 The level-by-level partitioner: run the local-moving phase, renumber the communities in order of
 first appearance, collapse the graph, repeat until a level moves nothing.
 */
module Partition {
  import opened Common
  import opened Sums
  import opened SortedSets
  import opened WeightedGraph
  import opened Aggregation
  import opened LocalMoving

  // ---------- Renumbering ----------

  function IndexOf(s: seq<nat>, x: nat): (i: nat)
    requires x in s
    ensures i < |s| && s[i] == x
  {
    if s[|s| - 1] == x then |s| - 1
    else
      assert s == s[..|s| - 1] + [s[|s| - 1]];
      IndexOf(s[..|s| - 1], x)
  }

  /** Each value replaced by its rank of first appearance. */
  function Renumber(s: seq<nat>): (r: seq<nat>)
    ensures |r| == |s|
    ensures forall i | 0 <= i < |s| :: r[i] < |Distinct(s)| && Distinct(s)[r[i]] == s[i]
  {
    seq(|s|, i requires 0 <= i < |s| => IndexOf(Distinct(s), s[i]))
  }

  lemma RenumberKeepsClasses(s: seq<nat>, i: nat, j: nat)
    requires i < |s| && j < |s|
    ensures s[i] == s[j] <==> Renumber(s)[i] == Renumber(s)[j]
  {}

  lemma {:induction false} OrderOfPrefix(s: seq<nat>, t: seq<nat>)
    ensures Distinct(s) <= Distinct(s + t)
  {
    if t == [] {
      assert s + t == s;
    } else {
      var front, x := t[..|t| - 1], t[|t| - 1];
      OrderOfPrefix(s, front);
      assert s + t == (s + front) + [x];
      DistinctAppend(s + front, x);
    }
  }

  /** Labels are consecutive from 0, in order of first appearance: whatever lies below a label occurs before it. */
  ghost predicate DenseInOrder(labels: seq<nat>) {
    forall i, c: nat | 0 <= i < |labels| && c < labels[i] :: c in labels[..i]
  }

  lemma SameRank(order: seq<nat>, a: nat, b: nat)
    requires NoDuplicates(order) && a < |order| && b < |order| && order[a] == order[b]
    ensures a == b
  {}

  /** The rank of s[i] is at most the number of distinct values before it. */
  lemma RankBound(s: seq<nat>, i: nat)
    requires i < |s|
    ensures Renumber(s)[i] <= |Distinct(s[..i])|
  {
    hide Distinct;
    hide Renumber;
    hide IndexOf;
    var upTo := s[..i + 1];
    assert upTo + s[i + 1..] == s && upTo == s[..i] + [s[i]];
    OrderOfPrefix(upTo, s[i + 1..]);
    DistinctAppend(s[..i], s[i]);
    assert upTo[i] in upTo;
    var k := IndexOf(Distinct(upTo), s[i]);
    SameRank(Distinct(s), k, Renumber(s)[i]);
  }

  /** A rank below that of s[i] is the rank of some earlier element. */
  lemma EarlierRank(s: seq<nat>, i: nat, c: nat) returns (j: nat)
    requires i < |s| && c < Renumber(s)[i]
    ensures j < i && Renumber(s)[j] == c
  {
    hide Distinct;
    hide Renumber;
    hide IndexOf;
    var before := Distinct(s[..i]);
    assert s[..i] + s[i..] == s;
    OrderOfPrefix(s[..i], s[i..]);
    RankBound(s, i);
    assert Distinct(s)[c] == before[c];
    assert before[c] in before && before[c] in s[..i];
    j :| 0 <= j < i && s[j] == before[c];
    SameRank(Distinct(s), Renumber(s)[j], c);
  }

  lemma RenumberIsDense(s: seq<nat>)
    ensures DenseInOrder(Renumber(s))
  {
    hide Renumber;
    forall i, c: nat | 0 <= i < |s| && c < Renumber(s)[i] ensures c in Renumber(s)[..i] {
      var j := EarlierRank(s, i, c);
      assert Renumber(s)[..i][j] == c;
    }
  }

  /** As many distinct values as positions: all values differ. */
  lemma {:induction false} FullOrderIsInjective(s: seq<nat>)
    requires |Distinct(s)| == |s|
    ensures NoDuplicates(s)
  {
    if s != [] {
      var front, last := s[..|s| - 1], s[|s| - 1];
      FullOrderIsInjective(front);
      assert last !in front;
    }
  }

  ghost predicate Ranks(remap: map<nat, nat>, order: seq<nat>) {
    && (forall x :: x in remap <==> x in order)
    && (forall x | x in remap :: remap[x] < |order| && order[remap[x]] == x)
  }

  /** Ranks of first appearance, collected in a map. */
  method FirstAppearance(s: seq<nat>) returns (remap: map<nat, nat>, order: seq<nat>)
    ensures order == Distinct(s) && Ranks(remap, order)
  {
    hide Distinct;
    remap, order := map[], [];
    assert s[..0] == [] && Distinct<nat>([]) == [];
    for i := 0 to |s|
      invariant order == Distinct(s[..i]) && Ranks(remap, order)
    {
      assert s[..i + 1] == s[..i] + [s[i]];
      DistinctAppend(s[..i], s[i]);
      if s[i] !in remap {
        remap := remap[s[i] := |order|];
        order := order + [s[i]];
      }
    }
    assert s[..|s|] == s;
  }

  lemma RankIsRenumber(s: seq<nat>, remap: map<nat, nat>, i: nat)
    requires Ranks(remap, Distinct(s)) && i < |s|
    ensures s[i] in remap && remap[s[i]] == Renumber(s)[i]
  {
    hide Distinct;
    hide Renumber;
    assert s[i] in s && s[i] in Distinct(s);
    SameRank(Distinct(s), remap[s[i]], Renumber(s)[i]);
  }

  // ---------- Collapsing ----------

  ghost function Coarsen(p: seq<nat>, edges: seq<Edge>): seq<Edge>
    requires ValidEdges(|p|, edges)
  {
    LessPairIsTotal();
    CoarseEdges(p, edges, Ascending<Key>(LessPair, KeySet(p, edges)))
  }

  lemma SortedKeysEnumerate(p: seq<nat>, edges: seq<Edge>)
    requires ValidEdges(|p|, edges)
    ensures StrictTotal<Key>(LessPair)
    ensures Enumerates(Ascending<Key>(LessPair, KeySet(p, edges)), p, edges)
  {
    LessPairIsTotal();
    var keys := Ascending<Key>(LessPair, KeySet(p, edges));
    forall i, j | 0 <= i < j < |keys| ensures keys[i] != keys[j] {
      assert LessPair(keys[i], keys[j]);
    }
  }

  lemma CoarsenValid(n: nat, p: seq<nat>, newN: nat, edges: seq<Edge>)
    requires ValidMap(n, p, newN) && ValidEdges(n, edges)
    ensures ValidEdges(newN, Coarsen(p, edges))
  {
    SortedKeysEnumerate(p, edges);
    var keys, coarse := Ascending<Key>(LessPair, KeySet(p, edges)), Coarsen(p, edges);
    forall c | c in coarse ensures c.i < newN && c.j < newN {
      var i :| 0 <= i < |coarse| && coarse[i] == c;
      assert keys[i] in keys;
    }
  }

  /** The edges of the collapsed graph run from the smaller to the larger number, in lexicographic order. */
  lemma CoarsenIsSorted(p: seq<nat>, edges: seq<Edge>, i: nat, j: nat)
    requires ValidEdges(|p|, edges) && i < j < |Coarsen(p, edges)|
    ensures Coarsen(p, edges)[i].i <= Coarsen(p, edges)[i].j
    ensures var x, y := Coarsen(p, edges)[i], Coarsen(p, edges)[j]; x.i < y.i || (x.i == y.i && x.j < y.j)
  {
    hide CoarseWeight;
    LessPairIsTotal();
    var keys := Ascending<Key>(LessPair, KeySet(p, edges));
    assert LessPair(keys[i], keys[j]) && keys[i] in keys;
  }

  ghost predicate AggCorrect(agg: map<Key, real>, p: seq<nat>, edges: seq<Edge>)
    requires ValidEdges(|p|, edges)
  {
    agg.Keys == KeySet(p, edges) && forall k: Key :: CoarseWeight(p, edges, k) == if k in agg then agg[k] else 0.0
  }

  lemma AggAppend(agg: map<Key, real>, p: seq<nat>, edges: seq<Edge>, e: Edge)
    requires ValidEdges(|p|, edges) && e.i < |p| && e.j < |p| && AggCorrect(agg, p, edges)
    ensures ValidEdges(|p|, edges + [e])
    ensures var k := KeyOf(p, e);
            AggCorrect(agg[k := (if k in agg then agg[k] else 0.0) + e.w], p, edges + [e])
  {
    forall k: Key
      ensures CoarseWeight(p, edges + [e], k) == CoarseWeight(p, edges, k) + (if KeyOf(p, e) == k then e.w else 0.0)
    {
      TotalAppend(edges, e, WeightAt(p, k));
    }
  }

  method SumWeights(comm: seq<nat>, remap: map<nat, nat>, edges: seq<Edge>) returns (agg: map<Key, real>)
    requires ValidEdges(|comm|, edges) && Ranks(remap, Distinct(comm))
    ensures AggCorrect(agg, Renumber(comm), edges)
  {
    hide CoarseWeight;
    hide KeySet;
    hide Distinct;
    hide Renumber;
    hide Ranks;
    ghost var p := Renumber(comm);
    agg := map[];
    assert edges[..0] == [];
    EmptyAgg(p);
    for i := 0 to |edges|
      invariant ValidEdges(|p|, edges[..i]) && AggCorrect(agg, p, edges[..i])
    {
      var e := edges[i];
      assert e in edges && edges[..i + 1] == edges[..i] + [e];
      AggAppend(agg, p, edges[..i], e);
      RankIsRenumber(comm, remap, e.i);
      RankIsRenumber(comm, remap, e.j);
      var a, b := remap[comm[e.i]], remap[comm[e.j]];
      if a > b {
        a, b := b, a;
      }
      agg := agg[(a, b) := (if (a, b) in agg then agg[(a, b)] else 0.0) + e.w];
    }
    assert edges[..|edges|] == edges;
  }

  /** One node per community, edge weights summed, keys sorted. */
  method Aggregate(comm: seq<nat>, remap: map<nat, nat>, edges: seq<Edge>) returns (next: seq<Edge>)
    requires ValidEdges(|comm|, edges) && Ranks(remap, Distinct(comm))
    ensures next == Coarsen(Renumber(comm), edges)
  {
    hide CoarseWeight;
    hide KeySet;
    hide Distinct;
    hide Renumber;
    hide Ranks;
    ghost var p := Renumber(comm);
    var agg := SumWeights(comm, remap, edges);
    LessPairIsTotal();
    var keys := CollectSorted<Key>(LessPair, agg.Keys);
    next := EdgesFromKeys(keys, agg, p, edges);
  }

  method EdgesFromKeys(keys: seq<Key>, agg: map<Key, real>, ghost p: seq<nat>, ghost edges: seq<Edge>)
    returns (next: seq<Edge>)
    requires forall k | k in keys :: k in agg && agg[k] == CoarseWeight(p, edges, k)
    ensures next == CoarseEdges(p, edges, keys)
  {
    hide CoarseWeight;
    next := [];
    for i := 0 to |keys|
      invariant next == CoarseEdges(p, edges, keys[..i])
    {
      var k := keys[i];
      assert k in keys && keys[..i + 1][..i] == keys[..i];
      next := next + [Edge(k.0, k.1, agg[k])];
    }
    assert keys[..|keys|] == keys;
  }

  lemma EmptyAgg(p: seq<nat>)
    ensures AggCorrect(map[], p, [])
  {}

  // ---------- Levels ----------

  lemma RenumberIsMap(n: nat, s: seq<nat>)
    requires |s| == n
    ensures ValidMap(n, Renumber(s), |Distinct(s)|)
  {}

  /** The labels after all remaining levels, before the final renumbering. */
  ghost function Levels(n: nat, edges: seq<Edge>, resolution: real): (r: seq<nat>)
    requires ValidEdges(n, edges)
    ensures |r| == n
    decreases n
  {
    var level := OneLevel(n, edges, resolution);
    if !level.moved then Identity(n)
    else
      var p, newN := Renumber(level.comm), |Distinct(level.comm)|;
      RenumberIsMap(n, level.comm);
      CoarsenValid(n, p, newN, edges);
      if newN == n then p else Compose(Levels(newN, Coarsen(p, edges), resolution), p)
  }

  /** What the partitioner returns. */
  ghost function Labels(n: nat, edges: seq<Edge>, resolution: real): (r: seq<nat>)
    requires ValidEdges(n, edges)
    ensures |r| == n
  {
    Renumber(Levels(n, edges, resolution))
  }

  lemma RenumberKeepsModularity(n: nat, edges: seq<Edge>, s: seq<nat>, resolution: real)
    requires ValidEdges(n, edges) && |s| == n && M2(n, edges) > 0.0
    ensures Modularity(n, edges, Renumber(s), resolution) == Modularity(n, edges, s, resolution)
  {
    hide Modularity;
    hide Renumber;
    forall u, v | 0 <= u < n && 0 <= v < n ensures s[u] == s[v] <==> Renumber(s)[u] == Renumber(s)[v] {
      RenumberKeepsClasses(s, u, v);
    }
    ModularityOfRelabelling(n, edges, s, Renumber(s), resolution);
  }

  /** A level that moves some node raises the modularity above that of the singletons. */
  lemma MovedLevelImproves(n: nat, edges: seq<Edge>, resolution: real)
    requires ValidEdges(n, edges) && OneLevel(n, edges, resolution).moved
    ensures M2(n, edges) > 0.0
    ensures Modularity(n, edges, OneLevel(n, edges, resolution).comm, resolution)
          > Modularity(n, edges, Identity(n), resolution) + Step(n, edges)
  {
    hide Modularity;
    hide Step;
    PassesImprove(n, edges, resolution, Identity(n), MAX_PASSES);
  }

  /** A level that moves some node leaves fewer communities than nodes. */
  lemma MovedLevelShrinks(n: nat, edges: seq<Edge>, resolution: real)
    requires ValidEdges(n, edges) && OneLevel(n, edges, resolution).moved
    ensures |Distinct(OneLevel(n, edges, resolution).comm)| < n
  {
    hide Modularity;
    hide Step;
    hide OneLevel;
    var comm := OneLevel(n, edges, resolution).comm;
    MovedLevelImproves(n, edges, resolution);
    StepPositive(n, edges);
    if |Distinct(comm)| == n {
      FullOrderIsInjective(comm);
      ModularityOfRelabelling(n, edges, comm, Identity(n), resolution);
      assert false;
    }
  }

  /** One level and the levels above it, seen from the finer graph. */
  lemma CoarsenKeepsModularity(n: nat, edges: seq<Edge>, p: seq<nat>, newN: nat, q: seq<nat>, resolution: real)
    requires ValidEdges(n, edges) && PositiveEdges(edges) && ValidMap(n, p, newN) && |q| == newN && M2(n, edges) > 0.0
    ensures ValidEdges(newN, Coarsen(p, edges)) && PositiveEdges(Coarsen(p, edges))
    ensures M2(newN, Coarsen(p, edges)) == M2(n, edges)
    ensures Modularity(newN, Coarsen(p, edges), q, resolution) == Modularity(n, edges, Compose(q, p), resolution)
  {
    hide Modularity;
    hide M2;
    SortedKeysEnumerate(p, edges);
    var keys := Ascending<Key>(LessPair, KeySet(p, edges));
    CoarseValid(n, p, newN, edges, keys);
    CoarseModularity(n, p, newN, edges, keys, q, resolution);
  }

  /** Over any number of levels the labels are at least as good as all singletons. */
  lemma {:induction false} LevelsImprove(n: nat, edges: seq<Edge>, resolution: real)
    requires ValidEdges(n, edges) && PositiveEdges(edges) && M2(n, edges) > 0.0
    ensures Modularity(n, edges, Levels(n, edges, resolution), resolution)
         >= Modularity(n, edges, Identity(n), resolution)
    ensures OneLevel(n, edges, resolution).moved
            ==> Modularity(n, edges, Levels(n, edges, resolution), resolution)
                > Modularity(n, edges, Identity(n), resolution) + Step(n, edges)
    decreases n
  {
    hide Modularity;
    hide Step;
    hide M2;
    hide OneLevel;
    hide Coarsen;
    var level := OneLevel(n, edges, resolution);
    StepPositive(n, edges);
    if level.moved {
      var p, newN := Renumber(level.comm), |Distinct(level.comm)|;
      RenumberIsMap(n, level.comm);
      MovedLevelImproves(n, edges, resolution);
      RenumberKeepsModularity(n, edges, level.comm, resolution);
      MovedLevelShrinks(n, edges, resolution);
      CoarsenKeepsModularity(n, edges, p, newN, Identity(newN), resolution);
      assert Compose(Identity(newN), p) == p;
      var coarse := Coarsen(p, edges);
      var q := Levels(newN, coarse, resolution);
      assert Levels(n, edges, resolution) == Compose(q, p);
      CoarsenKeepsModularity(n, edges, p, newN, q, resolution);
      LevelsImprove(newN, coarse, resolution);
    }
  }

  /** The partition the operator returns never scores below the partition it starts from. */
  lemma LabelsImprove(n: nat, edges: seq<Edge>, resolution: real)
    requires ValidEdges(n, edges) && PositiveEdges(edges) && M2(n, edges) > 0.0
    ensures Modularity(n, edges, Labels(n, edges, resolution), resolution)
         >= Modularity(n, edges, Identity(n), resolution)
    ensures OneLevel(n, edges, resolution).moved
            ==> Modularity(n, edges, Labels(n, edges, resolution), resolution)
                > Modularity(n, edges, Identity(n), resolution) + Step(n, edges)
    ensures DenseInOrder(Labels(n, edges, resolution))
  {
    hide Modularity;
    hide Step;
    hide Levels;
    LevelsImprove(n, edges, resolution);
    RenumberKeepsModularity(n, edges, Levels(n, edges, resolution), resolution);
    RenumberIsDense(Levels(n, edges, resolution));
  }

  // ---------- The partitioner as the operator runs it ----------

  lemma ComposeAssociative(r: seq<nat>, p: seq<nat>, s: seq<nat>)
    requires (forall v | 0 <= v < |s| :: s[v] < |p|) && (forall v | 0 <= v < |p| :: p[v] < |r|)
    ensures Compose(r, Compose(p, s)) == Compose(Compose(r, p), s)
  {}

  /** labels[i] := p[labels[i]], for every i. */
  method Relabel(labels: array<nat>, comm: seq<nat>, remap: map<nat, nat>)
    requires forall i | 0 <= i < labels.Length :: labels[i] < |comm|
    requires Ranks(remap, Distinct(comm))
    modifies labels
    ensures labels[..] == Compose(Renumber(comm), old(labels[..]))
  {
    hide Distinct;
    hide Renumber;
    hide Ranks;
    ghost var p := Renumber(comm);
    for i := 0 to labels.Length
      invariant forall j | 0 <= j < i :: labels[j] == p[old(labels[j])]
      invariant forall j | i <= j < labels.Length :: labels[j] == old(labels[j])
    {
      RankIsRenumber(comm, remap, labels[i]);
      labels[i] := remap[comm[labels[i]]];
    }
    assert labels[..] == Compose(p, old(labels[..]));
  }

  /** labels[i] := remap[labels[i]], for every i. */
  method FinalRelabel(labels: array<nat>, remap: map<nat, nat>)
    requires Ranks(remap, Distinct(labels[..]))
    modifies labels
    ensures labels[..] == Renumber(old(labels[..]))
  {
    hide Distinct;
    hide Renumber;
    hide Ranks;
    ghost var s := labels[..];
    for i := 0 to labels.Length
      invariant forall j | 0 <= j < i :: labels[j] == Renumber(s)[j]
      invariant forall j | i <= j < labels.Length :: labels[j] == s[j]
    {
      RankIsRenumber(s, remap, i);
      labels[i] := remap[labels[i]];
    }
  }

  /** One community label per node; labels are consecutive from 0. */
  method LouvainPartition(n: nat, edges: seq<Edge>, resolution: real) returns (result: seq<nat>)
    requires ValidEdges(n, edges)
    ensures result == Labels(n, edges, resolution)
  {
    hide OneLevel;
    hide Coarsen;
    hide Renumber;
    hide Distinct;
    hide Ranks;
    var labels := new nat[n](i => i);
    if n == 0 {
      assert Labels(n, edges, resolution) == [];
      return [];
    }
    var curN: nat, curEdges := n, edges;
    assert labels[..] == Identity(n);
    while true
      invariant ValidEdges(curN, curEdges)
      invariant forall i | 0 <= i < n :: labels[i] < curN
      invariant Levels(n, edges, resolution) == Compose(Levels(curN, curEdges, resolution), labels[..])
      decreases curN
    {
      var comm, improved := LouvainOneLevel(curN, curEdges, resolution);
      if !improved {
        assert Levels(curN, curEdges, resolution) == Identity(curN);
        assert Compose(Identity(curN), labels[..]) == labels[..];
        break;
      }
      var remap, order := FirstAppearance(comm);
      var newN := |order|;
      ghost var p, labels0 := Renumber(comm), labels[..];
      Relabel(labels, comm, remap);
      if newN == curN {
        break;
      }
      RenumberIsMap(curN, comm);
      CoarsenValid(curN, p, newN, curEdges);
      var next := Aggregate(comm, remap, curEdges);
      ComposeAssociative(Levels(newN, next, resolution), p, labels0);
      curEdges, curN := next, newN;
    }
    assert labels[..] == Levels(n, edges, resolution);
    var remap, order := FirstAppearance(labels[..]);
    FinalRelabel(labels, remap);
    result := labels[..];
  }
}
