/**
 Collapsing a partition into a coarser graph: one node per community, edge weights summed,
 intra-community weight becoming a self-loop.

 Everything the objective reads off the coarse graph is a weighted sum over its edges, so one
 transfer law (CoarseSum) carries degrees, total weight, intra weight and pair mass across.
 */
module Aggregation {
  import opened Common
  import opened Sums
  import opened WeightedGraph

  type Key = (nat, nat)

  /** p assigns to each of the fine nodes a coarse node below newN. */
  predicate ValidMap(n: nat, p: seq<nat>, newN: nat) {
    |p| == n && forall v | 0 <= v < n :: p[v] < newN
  }

  function Compose(q: seq<nat>, p: seq<nat>): (r: seq<nat>)
    requires forall v | 0 <= v < |p| :: p[v] < |q|
    ensures |r| == |p| && forall v | 0 <= v < |p| :: r[v] == q[p[v]]
  {
    seq(|p|, v requires 0 <= v < |p| => q[p[v]])
  }

  function KeyOf(p: seq<nat>, e: Edge): Key
    requires e.i < |p| && e.j < |p|
  {
    var a, b := p[e.i], p[e.j];
    if a > b then (b, a) else (a, b)
  }

  function KeySet(p: seq<nat>, edges: seq<Edge>): set<Key>
    requires ValidEdges(|p|, edges)
  {
    set e | e in edges :: KeyOf(p, e)
  }

  function WeightAt(p: seq<nat>, k: Key): Edge -> real {
    (e: Edge) => if e.i < |p| && e.j < |p| && KeyOf(p, e) == k then e.w else 0.0
  }

  /** The summed weight of the edges that collapse onto the coarse pair k. */
  function CoarseWeight(p: seq<nat>, edges: seq<Edge>, k: Key): real {
    Total(edges, WeightAt(p, k))
  }

  function CoarseEdges(p: seq<nat>, edges: seq<Edge>, keys: seq<Key>): (r: seq<Edge>)
    ensures |r| == |keys|
    ensures forall i | 0 <= i < |keys| :: r[i] == Edge(keys[i].0, keys[i].1, CoarseWeight(p, edges, keys[i]))
  {
    if keys == [] then []
    else
      var k := keys[|keys| - 1];
      CoarseEdges(p, edges, keys[..|keys| - 1]) + [Edge(k.0, k.1, CoarseWeight(p, edges, k))]
  }

  /** keys lists every coarse pair once. */
  ghost predicate Enumerates(keys: seq<Key>, p: seq<nat>, edges: seq<Edge>)
    requires ValidEdges(|p|, edges)
  {
    IsWalk(keys, KeySet(p, edges))
  }

  // ---------- The transfer law ----------

  /** What an edge of weight w between a and b contributes to some quantity. */
  type EdgeMeasure = (real, nat, nat) -> real

  predicate Adds(psi: EdgeMeasure, w: real, w': real, a: nat, b: nat) {
    psi(w + w', a, b) == psi(w, a, b) + psi(w', a, b)
  }

  /** A measure is additive in the weight and blind to the direction of the edge. */
  ghost predicate IsMeasure(psi: EdgeMeasure) {
    && (forall w, w', a: nat, b: nat :: Adds(psi, w, w', a, b))
    && (forall w, a: nat, b: nat :: psi(w, a, b) == psi(w, b, a))
  }

  function Measured(psi: EdgeMeasure): Edge -> real { (e: Edge) => psi(e.w, e.i, e.j) }

  function MeasuredVia(p: seq<nat>, psi: EdgeMeasure): Edge -> real {
    (e: Edge) => if e.i < |p| && e.j < |p| then psi(e.w, p[e.i], p[e.j]) else 0.0
  }

  function MeasuredKey(p: seq<nat>, edges: seq<Edge>, psi: EdgeMeasure): Key -> real {
    (k: Key) => psi(CoarseWeight(p, edges, k), k.0, k.1)
  }

  lemma {:induction false} CoarseSumByKeys(p: seq<nat>, edges: seq<Edge>, keys: seq<Key>, psi: EdgeMeasure)
    ensures Total(CoarseEdges(p, edges, keys), Measured(psi)) == Total(keys, MeasuredKey(p, edges, psi))
  {
    if keys != [] {
      var front, k := keys[..|keys| - 1], keys[|keys| - 1];
      CoarseSumByKeys(p, edges, front, psi);
      TotalAppend(CoarseEdges(p, edges, front), Edge(k.0, k.1, CoarseWeight(p, edges, k)), Measured(psi));
    }
  }

  lemma MeasureOfZero(psi: EdgeMeasure, a: nat, b: nat)
    requires IsMeasure(psi)
    ensures psi(0.0, a, b) == 0.0
  {
    assert Adds(psi, 0.0, 0.0, a, b);
  }

  lemma {:induction false} KeySum(p: seq<nat>, edges: seq<Edge>, keys: seq<Key>, psi: EdgeMeasure)
    requires ValidEdges(|p|, edges)
    requires forall e | e in edges :: KeyOf(p, e) in keys
    requires NoDuplicates(keys) && IsMeasure(psi)
    ensures Total(keys, MeasuredKey(p, edges, psi)) == Total(edges, MeasuredVia(p, psi))
  {
    if edges == [] {
      forall k: Key ensures MeasuredKey(p, edges, psi)(k) == 0.0 {
        MeasureOfZero(psi, k.0, k.1);
      }
      TotalLinear(keys, 0.0, MeasuredKey(p, edges, psi), 0.0, MeasuredKey(p, edges, psi), MeasuredKey(p, edges, psi));
    } else {
      var front, e := edges[..|edges| - 1], edges[|edges| - 1];
      assert e in edges;
      KeySum(p, front, keys, psi);
      var k0 := KeyOf(p, e);
      forall k: Key
        ensures MeasuredKey(p, edges, psi)(k)
             == MeasuredKey(p, front, psi)(k) + (if k == k0 then psi(e.w, k.0, k.1) else 0.0)
      {
        assert CoarseWeight(p, edges, k) == CoarseWeight(p, front, k) + (if k == k0 then e.w else 0.0);
        assert Adds(psi, CoarseWeight(p, front, k), e.w, k.0, k.1);
      }
      TotalDelta(keys, MeasuredKey(p, front, psi), MeasuredKey(p, edges, psi), k0, psi(e.w, k0.0, k0.1));
      assert psi(e.w, k0.0, k0.1) == psi(e.w, p[e.i], p[e.j]);
    }
  }

  /** Any measure summed over the coarse edges is the same measure summed over the fine ones, ends renamed. */
  lemma CoarseSum(p: seq<nat>, edges: seq<Edge>, keys: seq<Key>, psi: EdgeMeasure)
    requires ValidEdges(|p|, edges) && Enumerates(keys, p, edges)
    requires IsMeasure(psi)
    ensures Total(CoarseEdges(p, edges, keys), Measured(psi)) == Total(edges, MeasuredVia(p, psi))
  {
    CoarseSumByKeys(p, edges, keys, psi);
    KeySum(p, edges, keys, psi);
  }

  lemma {:induction false} CoarseWeightPositive(p: seq<nat>, edges: seq<Edge>, k: Key)
    requires ValidEdges(|p|, edges) && PositiveEdges(edges)
    ensures CoarseWeight(p, edges, k) >= 0.0
    ensures k in KeySet(p, edges) ==> CoarseWeight(p, edges, k) > 0.0
  {
    if edges != [] {
      var front, e := edges[..|edges| - 1], edges[|edges| - 1];
      assert e in edges;
      CoarseWeightPositive(p, front, k);
      assert k in KeySet(p, edges) ==> k in KeySet(p, front) || k == KeyOf(p, e);
    }
  }

  lemma CoarseValid(n: nat, p: seq<nat>, newN: nat, edges: seq<Edge>, keys: seq<Key>)
    requires ValidMap(n, p, newN) && ValidEdges(n, edges) && PositiveEdges(edges) && Enumerates(keys, p, edges)
    ensures ValidEdges(newN, CoarseEdges(p, edges, keys)) && PositiveEdges(CoarseEdges(p, edges, keys))
  {
    var coarse := CoarseEdges(p, edges, keys);
    forall c | c in coarse
      ensures c.i < newN && c.j < newN && c.w > 0.0
    {
      var i :| 0 <= i < |coarse| && coarse[i] == c;
      assert keys[i] in keys;
      CoarseWeightPositive(p, edges, keys[i]);
    }
  }

  // ---------- Degrees ----------

  /** What degree d at node v contributes to some quantity. */
  type NodeMeasure = (real, nat) -> real

  predicate AddsAt(act: NodeMeasure, d: real, d': real, v: nat) {
    act(d + d', v) == act(d, v) + act(d', v)
  }

  ghost predicate IsNodeMeasure(act: NodeMeasure) {
    forall d, d', v: nat :: AddsAt(act, d, d', v)
  }

  function AtDegree(edges: seq<Edge>, act: NodeMeasure): nat -> real { (v: nat) => act(Degree(edges, v), v) }

  function AtEnds(act: NodeMeasure): Edge -> real { (e: Edge) => act(Weight(e), e.i) + act(Weight(e), e.j) }

  lemma NodeMeasureOfZero(act: NodeMeasure, v: nat)
    requires IsNodeMeasure(act)
    ensures act(0.0, v) == 0.0
  {
    assert AddsAt(act, 0.0, 0.0, v);
  }

  lemma HandshakeTerm(front: seq<Edge>, e: Edge, act: NodeMeasure, v: nat)
    requires IsNodeMeasure(act)
    ensures act(Degree(front + [e], v), v)
         == act(Degree(front, v), v) + (if v == e.i then act(Weight(e), v) else 0.0)
                                     + (if v == e.j then act(Weight(e), v) else 0.0)
  {
    TotalAppend(front, e, IncidenceAt(v));
    var a := if v == e.i then Weight(e) else 0.0;
    var b := if v == e.j then Weight(e) else 0.0;
    var d := Degree(front, v);
    assert AddsAt(act, d + a, b, v) && AddsAt(act, d, a, v);
    NodeMeasureOfZero(act, v);
  }

  /** Summing over the nodes by degree is summing over the edges by their two ends. */
  lemma {:induction false} Handshake(n: nat, edges: seq<Edge>, act: NodeMeasure)
    requires ValidEdges(n, edges) && IsNodeMeasure(act)
    ensures Sum(n, AtDegree(edges, act)) == Total(edges, AtEnds(act))
  {
    if edges == [] {
      forall v: nat | v < n ensures AtDegree(edges, act)(v) == 0.0 {
        assert Degree(edges, v) == 0.0;
        NodeMeasureOfZero(act, v);
      }
      SumZero(n, AtDegree(edges, act));
    } else {
      var front, e := edges[..|edges| - 1], edges[|edges| - 1];
      assert e in edges && edges == front + [e];
      Handshake(n, front, act);
      var f, f', w := AtDegree(front, act), AtDegree(edges, act), Weight(e);
      var mid := (v: nat) => f(v) + (if v == e.i then act(w, v) else 0.0);
      SumDelta(n, f, mid, e.i, act(w, e.i));
      forall v: nat | v < n
        ensures f'(v) == mid(v) + (if v == e.j then act(w, v) else 0.0)
      {
        HandshakeTerm(front, e, act, v);
      }
      SumDelta(n, mid, f', e.j, act(w, e.j));
    }
  }

  function Pull(p: seq<nat>, act: NodeMeasure): NodeMeasure {
    (d: real, v: nat) => if v < |p| then act(d, p[v]) else 0.0
  }

  function Ends(act: NodeMeasure): EdgeMeasure { (w: real, a: nat, b: nat) => act(w, a) + act(w, b) }

  lemma EndsIsMeasure(act: NodeMeasure)
    requires IsNodeMeasure(act)
    ensures IsMeasure(Ends(act))
  {
    forall w, w', a: nat, b: nat ensures Adds(Ends(act), w, w', a, b) {
      assert AddsAt(act, w, w', a) && AddsAt(act, w, w', b);
    }
  }

  lemma PullIsMeasure(p: seq<nat>, act: NodeMeasure)
    requires IsNodeMeasure(act)
    ensures IsNodeMeasure(Pull(p, act))
  {
    forall d, d', v: nat ensures AddsAt(Pull(p, act), d, d', v) {
      if v < |p| {
        assert AddsAt(act, d, d', p[v]);
      }
    }
  }

  /** Weighting by degree: the coarse nodes stand for their members. */
  lemma DegreeTransfer(n: nat, p: seq<nat>, newN: nat, edges: seq<Edge>, keys: seq<Key>, act: NodeMeasure)
    requires ValidMap(n, p, newN) && ValidEdges(n, edges) && PositiveEdges(edges) && Enumerates(keys, p, edges)
    requires IsNodeMeasure(act)
    ensures Sum(newN, AtDegree(CoarseEdges(p, edges, keys), act)) == Sum(n, AtDegree(edges, Pull(p, act)))
  {
    var coarse := CoarseEdges(p, edges, keys);
    CoarseValid(n, p, newN, edges, keys);
    Handshake(newN, coarse, act);
    forall e | e in coarse ensures AtEnds(act)(e) == Measured(Ends(act))(e) {
      assert Weight(e) == e.w && Ends(act)(e.w, e.i, e.j) == act(e.w, e.i) + act(e.w, e.j);
    }
    TotalCongruent(coarse, AtEnds(act), Measured(Ends(act)));
    EndsIsMeasure(act);
    CoarseSum(p, edges, keys, Ends(act));
    forall e | e in edges ensures MeasuredVia(p, Ends(act))(e) == AtEnds(Pull(p, act))(e) {
      assert Weight(e) == e.w && Ends(act)(e.w, p[e.i], p[e.j]) == act(e.w, p[e.i]) + act(e.w, p[e.j]);
      assert Pull(p, act)(e.w, e.i) == act(e.w, p[e.i]) && Pull(p, act)(e.w, e.j) == act(e.w, p[e.j]);
    }
    TotalCongruent(edges, MeasuredVia(p, Ends(act)), AtEnds(Pull(p, act)));
    PullIsMeasure(p, act);
    Handshake(n, edges, Pull(p, act));
  }

  // ---------- What the coarse graph preserves ----------

  function DegreeIf(q: seq<nat>, c: nat): NodeMeasure {
    (d: real, v: nat) => if v < |q| && q[v] == c then d else 0.0
  }

  lemma DegreeIfIsMeasure(q: seq<nat>, c: nat)
    ensures IsNodeMeasure(DegreeIf(q, c))
  {
    forall d, d', v: nat ensures AddsAt(DegreeIf(q, c), d, d', v) {}
  }

  /** A community of coarse nodes has the degree of the fine nodes it stands for. */
  lemma CoarseCommunityDegree(n: nat, p: seq<nat>, newN: nat, edges: seq<Edge>, keys: seq<Key>, q: seq<nat>, c: nat)
    requires ValidMap(n, p, newN) && ValidEdges(n, edges) && PositiveEdges(edges) && Enumerates(keys, p, edges)
    requires |q| == newN
    ensures CommunityDegree(newN, CoarseEdges(p, edges, keys), q, c) == CommunityDegree(n, edges, Compose(q, p), c)
  {
    var coarse, act := CoarseEdges(p, edges, keys), DegreeIf(q, c);
    DegreeIfIsMeasure(q, c);
    DegreeTransfer(n, p, newN, edges, keys, act);
    SumCongruent(newN, AtDegree(coarse, act), MemberDegree(coarse, q, c));
    forall v: nat | v < n ensures AtDegree(edges, Pull(p, act))(v) == MemberDegree(edges, Compose(q, p), c)(v) {
      assert Pull(p, act)(Degree(edges, v), v) == act(Degree(edges, v), p[v]);
    }
    SumCongruent(n, AtDegree(edges, Pull(p, act)), MemberDegree(edges, Compose(q, p), c));
  }

  function Identity(n: nat): (r: seq<nat>)
    ensures |r| == n && forall v | 0 <= v < n :: r[v] == v
  {
    seq(n, v requires 0 <= v < n => v)
  }

  /** A super-node's degree is the sum of its members' degrees. */
  lemma CoarseDegree(n: nat, p: seq<nat>, newN: nat, edges: seq<Edge>, keys: seq<Key>, a: nat)
    requires ValidMap(n, p, newN) && ValidEdges(n, edges) && PositiveEdges(edges) && Enumerates(keys, p, edges)
    requires a < newN
    ensures Degree(CoarseEdges(p, edges, keys), a) == CommunityDegree(n, edges, p, a)
  {
    var coarse, id := CoarseEdges(p, edges, keys), Identity(newN);
    CoarseCommunityDegree(n, p, newN, edges, keys, id, a);
    assert Compose(id, p) == p;
    var zero := (v: nat) => 0.0;
    SumZero(newN, zero);
    SumDelta(newN, zero, MemberDegree(coarse, id, a), a, Degree(coarse, a));
  }

  lemma CoarseM2(n: nat, p: seq<nat>, newN: nat, edges: seq<Edge>, keys: seq<Key>)
    requires ValidMap(n, p, newN) && ValidEdges(n, edges) && PositiveEdges(edges) && Enumerates(keys, p, edges)
    ensures M2(newN, CoarseEdges(p, edges, keys)) == M2(n, edges)
  {
    var coarse, act := CoarseEdges(p, edges, keys), (d: real, v: nat) => d;
    forall d, d', v: nat ensures AddsAt(act, d, d', v) {}
    DegreeTransfer(n, p, newN, edges, keys, act);
    SumCongruent(newN, AtDegree(coarse, act), DegreeIn(coarse));
    forall v: nat | v < n ensures AtDegree(edges, Pull(p, act))(v) == DegreeIn(edges)(v) {
      assert Pull(p, act)(Degree(edges, v), v) == Degree(edges, v);
    }
    SumCongruent(n, AtDegree(edges, Pull(p, act)), DegreeIn(edges));
  }

  function WeightIfSame(q: seq<nat>): EdgeMeasure {
    (w: real, a: nat, b: nat) => if Same(q, a, b) then w else 0.0
  }

  lemma CoarseIntra(n: nat, p: seq<nat>, newN: nat, edges: seq<Edge>, keys: seq<Key>, q: seq<nat>)
    requires ValidMap(n, p, newN) && ValidEdges(n, edges) && PositiveEdges(edges) && Enumerates(keys, p, edges)
    requires |q| == newN
    ensures Intra(CoarseEdges(p, edges, keys), q) == Intra(edges, Compose(q, p))
  {
    var coarse, psi := CoarseEdges(p, edges, keys), WeightIfSame(q);
    forall w, w', a: nat, b: nat ensures Adds(psi, w, w', a, b) {}
    CoarseSum(p, edges, keys, psi);
    CoarseValid(n, p, newN, edges, keys);
    TotalCongruent(coarse, WeightInside(q), Measured(psi));
    forall e | e in edges ensures MeasuredVia(p, psi)(e) == WeightInside(Compose(q, p))(e) {
      assert Same(q, p[e.i], p[e.j]) <==> Same(Compose(q, p), e.i, e.j);
    }
    TotalCongruent(edges, MeasuredVia(p, psi), WeightInside(Compose(q, p)));
  }

  /** The degree at v times the degree of the community of v. */
  ghost function MassMeasure(n: nat, edges: seq<Edge>, q: seq<nat>): NodeMeasure {
    (d: real, v: nat) => if v < |q| then d * CommunityDegree(n, edges, q, q[v]) else 0.0
  }

  lemma MassMeasureIsMeasure(n: nat, edges: seq<Edge>, q: seq<nat>)
    ensures IsNodeMeasure(MassMeasure(n, edges, q))
  {
    forall d, d', v: nat ensures AddsAt(MassMeasure(n, edges, q), d, d', v) {
      if v < |q| {
        var t := CommunityDegree(n, edges, q, q[v]);
        assert (d + d') * t == d * t + d' * t;
      }
    }
  }

  lemma PairMassByCommunity(n: nat, edges: seq<Edge>, q: seq<nat>)
    requires |q| == n
    ensures PairMass(n, edges, q) == Sum(n, AtDegree(edges, MassMeasure(n, edges, q)))
  {
    forall v: nat | v < n ensures MassOf(n, edges, q)(v) == AtDegree(edges, MassMeasure(n, edges, q))(v) {
      MatesAreCommunity(n, edges, q, v);
    }
    SumCongruent(n, MassOf(n, edges, q), AtDegree(edges, MassMeasure(n, edges, q)));
  }

  lemma CoarseMassTerm(n: nat, p: seq<nat>, newN: nat, edges: seq<Edge>, keys: seq<Key>, q: seq<nat>, v: nat)
    requires ValidMap(n, p, newN) && ValidEdges(n, edges) && PositiveEdges(edges) && Enumerates(keys, p, edges)
    requires |q| == newN && v < n
    ensures AtDegree(edges, Pull(p, MassMeasure(newN, CoarseEdges(p, edges, keys), q)))(v)
         == AtDegree(edges, MassMeasure(n, edges, Compose(q, p)))(v)
  {
    hide Degree;
    hide CommunityDegree;
    hide CoarseEdges;
    hide Enumerates;
    var act, d := MassMeasure(newN, CoarseEdges(p, edges, keys), q), Degree(edges, v);
    CoarseCommunityDegree(n, p, newN, edges, keys, q, q[p[v]]);
    assert Pull(p, act)(d, v) == act(d, p[v]) == MassMeasure(n, edges, Compose(q, p))(d, v);
  }

  lemma CoarsePairMass(n: nat, p: seq<nat>, newN: nat, edges: seq<Edge>, keys: seq<Key>, q: seq<nat>)
    requires ValidMap(n, p, newN) && ValidEdges(n, edges) && PositiveEdges(edges) && Enumerates(keys, p, edges)
    requires |q| == newN
    ensures PairMass(newN, CoarseEdges(p, edges, keys), q) == PairMass(n, edges, Compose(q, p))
  {
    var coarse, r := CoarseEdges(p, edges, keys), Compose(q, p);
    var act := MassMeasure(newN, coarse, q);
    var fine := MassMeasure(n, edges, r);
    hide PairMass;
    hide MassMeasure;
    hide AtDegree;
    hide Sum;
    PairMassByCommunity(newN, coarse, q);
    PairMassByCommunity(n, edges, r);
    MassMeasureIsMeasure(newN, coarse, q);
    DegreeTransfer(n, p, newN, edges, keys, act);
    forall v: nat | v < n ensures AtDegree(edges, Pull(p, act))(v) == AtDegree(edges, fine)(v) {
      CoarseMassTerm(n, p, newN, edges, keys, q, v);
    }
    SumCongruent(n, AtDegree(edges, Pull(p, act)), AtDegree(edges, fine));
  }

  /** Aggregation preserves meaning: a coarse partition scores as the fine partition it stands for. */
  lemma CoarseModularity(n: nat, p: seq<nat>, newN: nat, edges: seq<Edge>, keys: seq<Key>, q: seq<nat>,
                         resolution: real)
    requires ValidMap(n, p, newN) && ValidEdges(n, edges) && PositiveEdges(edges) && Enumerates(keys, p, edges)
    requires |q| == newN && M2(n, edges) > 0.0
    ensures M2(newN, CoarseEdges(p, edges, keys)) == M2(n, edges)
    ensures Modularity(newN, CoarseEdges(p, edges, keys), q, resolution)
         == Modularity(n, edges, Compose(q, p), resolution)
  {
    hide Objective;
    CoarseM2(n, p, newN, edges, keys);
    CoarseIntra(n, p, newN, edges, keys, q);
    CoarsePairMass(n, p, newN, edges, keys, q);
  }
}
