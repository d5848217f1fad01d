/**
 The weighted graph of the clustering operator and its global objective.

 Modularity is stated through the weight and the degree products inside the communities, so that it depends
 only on which nodes share a community and never on how communities are named. The operator itself never
 computes it; it computes a gain per candidate move (LocalMoving) and rebuilds a coarser graph
 after each level (Aggregation). This module holds the objective and the effect of one move.
 */
module WeightedGraph {
  import opened Sums

  /** One undirected edge; i == j is a self-loop, which arises from aggregation. */
  datatype Edge = Edge(i: nat, j: nat, w: real)

  predicate ValidEdges(n: nat, edges: seq<Edge>) {
    forall e | e in edges :: e.i < n && e.j < n
  }

  predicate PositiveEdges(edges: seq<Edge>) {
    forall e | e in edges :: e.w > 0.0
  }

  /** An edge of non-positive weight takes no part in the local-moving phase. */
  function Weight(e: Edge): (w: real)
    ensures w >= 0.0
  {
    if e.w <= 0.0 then 0.0 else e.w
  }

  /** The weight edge e adds to the degree of v; a self-loop counts twice. */
  function Incidence(e: Edge, v: nat): (w: real)
    ensures w >= 0.0
  {
    (if e.i == v then Weight(e) else 0.0) + (if e.j == v then Weight(e) else 0.0)
  }

  // The summands below are named so that a proof can speak of the very function being summed.
  function IncidenceAt(v: nat): Edge -> real { (e: Edge) => Incidence(e, v) }

  function Degree(edges: seq<Edge>, v: nat): real {
    Total(edges, IncidenceAt(v))
  }

  function DegreeIn(edges: seq<Edge>): nat -> real { (v: nat) => Degree(edges, v) }

  /** Twice the total weight, as the sum of the degrees. */
  function M2(n: nat, edges: seq<Edge>): real {
    Sum(n, DegreeIn(edges))
  }

  predicate Same(comm: seq<nat>, u: nat, v: nat) {
    u < |comm| && v < |comm| && comm[u] == comm[v]
  }

  function WeightInside(comm: seq<nat>): Edge -> real {
    (e: Edge) => if Same(comm, e.i, e.j) then Weight(e) else 0.0
  }

  /** The weight of the edges whose two ends share a community. */
  ghost function Intra(edges: seq<Edge>, comm: seq<nat>): real {
    Total(edges, WeightInside(comm))
  }

  function MateDegree(edges: seq<Edge>, comm: seq<nat>, u: nat): nat -> real {
    (v: nat) => if Same(comm, u, v) then Degree(edges, v) else 0.0
  }

  /** The degrees of all nodes sharing u's community, u included. */
  ghost function Mates(n: nat, edges: seq<Edge>, comm: seq<nat>, u: nat): real {
    Sum(n, MateDegree(edges, comm, u))
  }

  ghost function MassOf(n: nat, edges: seq<Edge>, comm: seq<nat>): nat -> real {
    (u: nat) => Degree(edges, u) * Mates(n, edges, comm, u)
  }

  /** The sum of k_u * k_v over the ordered pairs of nodes sharing a community. */
  ghost function PairMass(n: nat, edges: seq<Edge>, comm: seq<nat>): real {
    Sum(n, MassOf(n, edges, comm))
  }

  /** The objective, given twice the total weight, the intra weight and the pair mass. */
  function Objective(m2: real, resolution: real, intra: real, mass: real): real
    requires m2 > 0.0
  {
    2.0 * intra / m2 - resolution * mass / (m2 * m2)
  }

  /** The gain of one node of degree k linked by w to a community of total degree tot. */
  function LocalGain(m2: real, resolution: real, w: real, tot: real, k: real): real
    requires m2 > 0.0
  {
    w - resolution * tot * k / m2
  }

  /** 2/m2 times the difference of two gains. */
  function Scaled(m2: real, gain: real, gain0: real): real
    requires m2 > 0.0
  {
    2.0 / m2 * (gain - gain0)
  }

  ghost function Modularity(n: nat, edges: seq<Edge>, comm: seq<nat>, resolution: real): real
    requires M2(n, edges) > 0.0
  {
    Objective(M2(n, edges), resolution, Intra(edges, comm), PairMass(n, edges, comm))
  }

  function MemberDegree(edges: seq<Edge>, comm: seq<nat>, c: nat): nat -> real {
    (v: nat) => if v < |comm| && comm[v] == c then Degree(edges, v) else 0.0
  }

  /** The sum of the degrees of the members of community c. */
  function CommunityDegree(n: nat, edges: seq<Edge>, comm: seq<nat>, c: nat): real {
    Sum(n, MemberDegree(edges, comm, c))
  }

  /** The weight edge e carries from x into community c; a self-loop carries none. */
  function Link(e: Edge, comm: seq<nat>, x: nat, c: nat): real {
    if e.i == e.j then
      0.0
    else
      (if e.i == x && e.j < |comm| && comm[e.j] == c then Weight(e) else 0.0)
      + (if e.j == x && e.i < |comm| && comm[e.i] == c then Weight(e) else 0.0)
  }

  function LinkTo(comm: seq<nat>, x: nat, c: nat): Edge -> real { (e: Edge) => Link(e, comm, x, c) }

  function WeightTo(edges: seq<Edge>, comm: seq<nat>, x: nat, c: nat): real {
    Total(edges, LinkTo(comm, x, c))
  }

  /** The degrees of the members of c other than x. */
  function OthersDegree(n: nat, edges: seq<Edge>, comm: seq<nat>, x: nat, c: nat): real {
    CommunityDegree(n, edges, comm, c)
    - (if x < |comm| && comm[x] == c then Degree(edges, x) else 0.0)
  }

  /** The gain the operator compares: node x, taken out of its community, put into c. */
  function Gain(n: nat, edges: seq<Edge>, resolution: real, comm: seq<nat>, x: nat, c: nat): real
    requires M2(n, edges) > 0.0
  {
    LocalGain(M2(n, edges), resolution, WeightTo(edges, comm, x, c),
              OthersDegree(n, edges, comm, x, c), Degree(edges, x))
  }

  lemma {:induction false} DegreeNonNegative(edges: seq<Edge>, v: nat)
    ensures Degree(edges, v) >= 0.0
  {
    if edges != [] {
      DegreeNonNegative(edges[..|edges| - 1], v);
    }
  }

  lemma MatesAreCommunity(n: nat, edges: seq<Edge>, comm: seq<nat>, u: nat)
    requires u < n == |comm|
    ensures Mates(n, edges, comm, u) == CommunityDegree(n, edges, comm, comm[u])
  {
    SumCongruent(n, MateDegree(edges, comm, u), MemberDegree(edges, comm, comm[u]));
  }

  /** Modularity sees only which nodes share a community. */
  lemma ModularityOfRelabelling(n: nat, edges: seq<Edge>, comm: seq<nat>, comm': seq<nat>, resolution: real)
    requires ValidEdges(n, edges) && n == |comm| == |comm'| && M2(n, edges) > 0.0
    requires forall u, v :: 0 <= u < n && 0 <= v < n ==> (comm[u] == comm[v] <==> comm'[u] == comm'[v])
    ensures Modularity(n, edges, comm, resolution) == Modularity(n, edges, comm', resolution)
  {
    hide Objective;
    hide Intra;
    hide PairMass;
    IntraOfRelabelling(edges, comm, comm');
    PairMassOfRelabelling(n, edges, comm, comm');
  }

  lemma IntraOfRelabelling(edges: seq<Edge>, comm: seq<nat>, comm': seq<nat>)
    requires ValidEdges(|comm|, edges) && |comm| == |comm'|
    requires forall u, v :: 0 <= u < |comm| && 0 <= v < |comm| ==> (comm[u] == comm[v] <==> comm'[u] == comm'[v])
    ensures Intra(edges, comm) == Intra(edges, comm')
  {
    hide Total;
    TotalCongruent(edges, WeightInside(comm), WeightInside(comm'));
  }

  lemma PairMassOfRelabelling(n: nat, edges: seq<Edge>, comm: seq<nat>, comm': seq<nat>)
    requires n == |comm| == |comm'|
    requires forall u, v :: 0 <= u < n && 0 <= v < n ==> (comm[u] == comm[v] <==> comm'[u] == comm'[v])
    ensures PairMass(n, edges, comm) == PairMass(n, edges, comm')
  {
    hide Sum;
    hide Degree;
    forall u: nat | u < n ensures Mates(n, edges, comm, u) == Mates(n, edges, comm', u) {
      SumCongruent(n, MateDegree(edges, comm, u), MateDegree(edges, comm', u));
    }
    SumCongruent(n, MassOf(n, edges, comm), MassOf(n, edges, comm'));
  }

  // ---------- The effect of one move ----------

  lemma IntraAfterMove(edges: seq<Edge>, comm: seq<nat>, x: nat, b: nat)
    requires x < |comm| && ValidEdges(|comm|, edges) && b != comm[x]
    ensures Intra(edges, comm[x := b])
         == Intra(edges, comm) + WeightTo(edges, comm, x, b) - WeightTo(edges, comm, x, comm[x])
  {
    var comm' := comm[x := b];
    forall e | e in edges
      ensures WeightInside(comm')(e) == WeightInside(comm)(e) + LinkTo(comm, x, b)(e) - LinkTo(comm, x, comm[x])(e)
    {
      assert e.i < |comm| && e.j < |comm|;
    }
    TotalShift(edges, WeightInside(comm), WeightInside(comm'), LinkTo(comm, x, b), LinkTo(comm, x, comm[x]));
  }

  lemma MatesAfterMove(n: nat, edges: seq<Edge>, comm: seq<nat>, x: nat, b: nat, u: nat)
    requires x < n == |comm| && u < n && u != x && b != comm[x]
    ensures Mates(n, edges, comm[x := b], u)
         == Mates(n, edges, comm, u) + (if comm[u] == b then Degree(edges, x) else 0.0)
                                     - (if comm[u] == comm[x] then Degree(edges, x) else 0.0)
  {
    var comm' := comm[x := b];
    var d := (if comm[u] == b then Degree(edges, x) else 0.0)
           - (if comm[u] == comm[x] then Degree(edges, x) else 0.0);
    SumDelta(n, MateDegree(edges, comm, u), MateDegree(edges, comm', u), x, d);
  }

  /** How the incremental array changes: x leaves its community and joins b. */
  lemma CommunityDegreeAfterMove(n: nat, edges: seq<Edge>, comm: seq<nat>, x: nat, b: nat, c: nat)
    requires x < n == |comm|
    ensures CommunityDegree(n, edges, comm[x := b], c)
         == OthersDegree(n, edges, comm, x, c) + (if c == b then Degree(edges, x) else 0.0)
  {
    var comm' := comm[x := b];
    var d := (if c == b then Degree(edges, x) else 0.0) - (if comm[x] == c then Degree(edges, x) else 0.0);
    SumDelta(n, MemberDegree(edges, comm, c), MemberDegree(edges, comm', c), x, d);
  }

  /** The degree u contributes to b, less what it contributes to x's community. */
  function Drift(edges: seq<Edge>, comm: seq<nat>, x: nat, b: nat): nat -> real
    requires x < |comm|
  {
    (u: nat) => (if u < |comm| && comm[u] == b then Degree(edges, u) else 0.0)
                - (if u < |comm| && comm[u] == comm[x] then Degree(edges, u) else 0.0)
  }

  lemma PairTermAfterMove(n: nat, edges: seq<Edge>, comm: seq<nat>, x: nat, b: nat, u: nat)
    requires x < n == |comm| && u < n && u != x && b != comm[x]
    ensures MassOf(n, edges, comm[x := b])(u)
         == MassOf(n, edges, comm)(u)
            + Degree(edges, x) * Drift(edges, comm, x, b)(u)
  {
    hide Mates;
    hide Degree;
    MatesAfterMove(n, edges, comm, x, b, u);
    var m, m', d, k := Mates(n, edges, comm, u), Mates(n, edges, comm[x := b], u), Degree(edges, u), Degree(edges, x);
    var drift := Drift(edges, comm, x, b)(u);
    assert drift == if comm[u] == b then d else if comm[u] == comm[x] then -d else 0.0;
    assert m' == if comm[u] == b then m + k else if comm[u] == comm[x] then m - k else m;
    ShiftedProduct(d, m, m', k, drift);
  }

  lemma ShiftedProduct(d: real, m: real, m': real, k: real, drift: real)
    requires (drift == d && m' == m + k) || (drift == -d && m' == m - k) || (drift == 0.0 && m' == m)
    ensures d * m' == d * m + k * drift
  {}

  /** The change of the pair mass when a node of degree k leaves others of degree of_ for others of degree ob. */
  function MassShift(k: real, ob: real, of_: real): real {
    2.0 * k * (ob - of_)
  }

  function OwnShift(k: real, tb: real, tf: real): real {
    k * (tb - tf) + 2.0 * (k * k)
  }

  /** The change of the pair term of x itself, beyond what PairTermAfterMove says of the others. */
  lemma OwnPairTermAfterMove(n: nat, edges: seq<Edge>, comm: seq<nat>, x: nat, b: nat)
    requires x < n == |comm| && b != comm[x]
    ensures MassOf(n, edges, comm[x := b])(x)
         == MassOf(n, edges, comm)(x)
            + Degree(edges, x) * Drift(edges, comm, x, b)(x)
            + OwnShift(Degree(edges, x), CommunityDegree(n, edges, comm, b), CommunityDegree(n, edges, comm, comm[x]))
  {
    MatesAreCommunity(n, edges, comm, x);
    MatesAreCommunity(n, edges, comm[x := b], x);
    CommunityDegreeAfterMove(n, edges, comm, x, b, b);
    MovedMass(Degree(edges, x), CommunityDegree(n, edges, comm, b), CommunityDegree(n, edges, comm, comm[x]));
  }

  lemma DriftSum(n: nat, edges: seq<Edge>, comm: seq<nat>, x: nat, b: nat)
    requires x < n == |comm|
    ensures Sum(n, Drift(edges, comm, x, b))
         == CommunityDegree(n, edges, comm, b) - CommunityDegree(n, edges, comm, comm[x])
  {
    SumLinear(n, 1.0, MemberDegree(edges, comm, b), -1.0, MemberDegree(edges, comm, comm[x]), Drift(edges, comm, x, b));
  }

  lemma PairMassShift(n: nat, edges: seq<Edge>, comm: seq<nat>, x: nat, b: nat, k: real, t: real, d: real)
    requires x < n == |comm| && b != comm[x] && k == Degree(edges, x)
    requires Sum(n, Drift(edges, comm, x, b)) == t
    requires MassOf(n, edges, comm[x := b])(x) == MassOf(n, edges, comm)(x) + k * Drift(edges, comm, x, b)(x) + d
    ensures Sum(n, MassOf(n, edges, comm[x := b])) == Sum(n, MassOf(n, edges, comm)) + k * t + d
  {
    var f0, f1, g := MassOf(n, edges, comm), MassOf(n, edges, comm[x := b]), Drift(edges, comm, x, b);
    forall u: nat | u < n
      ensures f1(u) == f0(u) + k * g(u) + (if u == x then d else 0.0)
    {
      if u != x {
        PairTermAfterMove(n, edges, comm, x, b, u);
      }
    }
    SumShiftTo(n, f0, f1, g, k, t, x, d);
  }

  lemma PairMassChange(n: nat, edges: seq<Edge>, comm: seq<nat>, x: nat, b: nat, k: real, t: real, d: real)
    requires x < n == |comm| && b != comm[x] && k == Degree(edges, x)
    requires t == CommunityDegree(n, edges, comm, b) - CommunityDegree(n, edges, comm, comm[x])
    requires d == OwnShift(k, CommunityDegree(n, edges, comm, b), CommunityDegree(n, edges, comm, comm[x]))
    ensures PairMass(n, edges, comm[x := b]) == PairMass(n, edges, comm) + k * t + d
  {
    OwnPairTermAfterMove(n, edges, comm, x, b);
    DriftSum(n, edges, comm, x, b);
    PairMassShift(n, edges, comm, x, b, k, t, d);
  }

  lemma PairMassAfterMove(n: nat, edges: seq<Edge>, comm: seq<nat>, x: nat, b: nat, k: real, ob: real, of_: real)
    requires x < n == |comm| && b != comm[x] && k == Degree(edges, x)
    requires ob == OthersDegree(n, edges, comm, x, b) && of_ == OthersDegree(n, edges, comm, x, comm[x])
    ensures PairMass(n, edges, comm[x := b]) == PairMass(n, edges, comm) + MassShift(k, ob, of_)
  {
    var tb, tf := CommunityDegree(n, edges, comm, b), CommunityDegree(n, edges, comm, comm[x]);
    var t, d := tb - tf, OwnShift(k, tb, tf);
    PairMassChange(n, edges, comm, x, b, k, t, d);
    MovedTotals(k, t, d, tb, tf, ob, of_);
  }

  lemma MovedTotals(k: real, t: real, d: real, tb: real, tf: real, ob: real, of_: real)
    requires t == tb - tf && d == OwnShift(k, tb, tf) && ob == tb && of_ == tf - k
    ensures k * t + d == MassShift(k, ob, of_)
  {
    MovedMass(k, tb, tf);
  }

  lemma MovedMass(k: real, tb: real, tf: real)
    ensures k * (tb + k) == k * tf + k * (0.0 - k) + (k * (tb - tf) + 2.0 * (k * k))
    ensures k * (tb - tf) + (k * (tb - tf) + 2.0 * (k * k)) == 2.0 * k * (tb - (tf - k))
  {}

  lemma Quotients(a: real, b: real, m: real)
    requires m != 0.0
    ensures a / m - b / m == (a - b) / m
  {}

  lemma QuotientSquare(a: real, m: real)
    requires m != 0.0
    ensures a / (m * m) == 1.0 / m * (a / m)
  {}

  /** The two expressions of the change, with the sums abstracted to reals. */
  lemma ScaledGain(m: real, r: real, k: real, i0: real, i1: real, p0: real, p1: real,
                   wb: real, wf: real, tb: real, tf: real)
    requires m > 0.0
    requires i1 == i0 + wb - wf
    requires p1 == p0 + MassShift(k, tb, tf)
    ensures Objective(m, r, i1, p1) - Objective(m, r, i0, p0)
         == Scaled(m, LocalGain(m, r, wb, tb, k), LocalGain(m, r, wf, tf, k))
  {
    var d := r * tb * k - r * tf * k;
    Quotients(2.0 * i1, 2.0 * i0, m);
    Quotients(r * p1, r * p0, m * m);
    Quotients(r * tb * k, r * tf * k, m);
    assert r * p1 - r * p0 == 2.0 * d by {
      assert r * (2.0 * k * (tb - tf)) == 2.0 * d;
      assert r * p1 == r * p0 + r * (2.0 * k * (tb - tf));
    }
    QuotientSquare(2.0 * d, m);
    assert 1.0 / m * (2.0 * d / m) == 2.0 / m * (d / m);
    assert 2.0 * (wb - wf) / m == 2.0 / m * (wb - wf);
  }

  lemma ProperMoveChangesModularity(n: nat, edges: seq<Edge>, resolution: real, comm: seq<nat>, x: nat, b: nat)
    requires x < n == |comm| && ValidEdges(n, edges) && M2(n, edges) > 0.0 && b != comm[x]
    ensures Modularity(n, edges, comm[x := b], resolution) - Modularity(n, edges, comm, resolution)
         == Scaled(M2(n, edges), Gain(n, edges, resolution, comm, x, b), Gain(n, edges, resolution, comm, x, comm[x]))
  {
    var comm', f, m2, k := comm[x := b], comm[x], M2(n, edges), Degree(edges, x);
    var i0, i1, p0, p1 := Intra(edges, comm), Intra(edges, comm'), PairMass(n, edges, comm), PairMass(n, edges, comm');
    var wb, wf := WeightTo(edges, comm, x, b), WeightTo(edges, comm, x, f);
    var tb, tf := OthersDegree(n, edges, comm, x, b), OthersDegree(n, edges, comm, x, f);
    hide *;
    IntraAfterMove(edges, comm, x, b);
    PairMassAfterMove(n, edges, comm, x, b, k, tb, tf);
    ScaledGain(m2, resolution, k, i0, i1, p0, p1, wb, wf, tb, tf);
  }

  /**
   The potential-function identity: moving x into b changes the global modularity by exactly
   2/m2 times the difference of the two local gains.
   */
  lemma MoveChangesModularity(n: nat, edges: seq<Edge>, resolution: real, comm: seq<nat>, x: nat, b: nat)
    requires x < n == |comm| && ValidEdges(n, edges) && M2(n, edges) > 0.0
    ensures Modularity(n, edges, comm[x := b], resolution) - Modularity(n, edges, comm, resolution)
         == Scaled(M2(n, edges), Gain(n, edges, resolution, comm, x, b), Gain(n, edges, resolution, comm, x, comm[x]))
  {
    if b == comm[x] {
      assert comm[x := b] == comm;
    } else {
      hide *;
      ProperMoveChangesModularity(n, edges, resolution, comm, x, b);
    }
  }
}
