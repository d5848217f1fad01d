/** The objective of the partitioner is the textbook modularity: a sum over all ordered pairs of nodes. */
module ModularityMeaning {
  import opened Sums
  import opened WeightedGraph

  /** What one edge puts into the adjacency matrix at (u, v); a self-loop counts twice on the diagonal. */
  function Entry(e: Edge, u: nat, v: nat): real {
    (if e.i == u && e.j == v then Weight(e) else 0.0) + (if e.j == u && e.i == v then Weight(e) else 0.0)
  }

  function EntryAt(u: nat, v: nat): Edge -> real { (e: Edge) => Entry(e, u, v) }

  /** The adjacency matrix. */
  function Adjacency(edges: seq<Edge>, u: nat, v: nat): real {
    Total(edges, EntryAt(u, v))
  }

  /** The entries of row u that lie inside u's community. */
  function RowInside(edges: seq<Edge>, comm: seq<nat>, u: nat): nat -> real {
    (v: nat) => if Same(comm, u, v) then Adjacency(edges, u, v) else 0.0
  }

  function RowSum(n: nat, edges: seq<Edge>, comm: seq<nat>): nat -> real {
    (u: nat) => Sum(n, RowInside(edges, comm, u))
  }

  function EdgeRow(e: Edge, comm: seq<nat>, u: nat): nat -> real {
    (v: nat) => if Same(comm, u, v) then Entry(e, u, v) else 0.0
  }

  function Point(j: nat, x: real): nat -> real { (v: nat) => if v == j then x else 0.0 }

  function Zero(): nat -> real { (v: nat) => 0.0 }

  lemma SumOfPoint(n: nat, j: nat, x: real)
    requires j < n
    ensures Sum(n, Point(j, x)) == x
  {
    SumZero(n, Zero());
    SumDelta(n, Zero(), Point(j, x), j, x);
  }

  /** The part of row u that one edge fills, inside u's community. */
  function EdgeShare(e: Edge, comm: seq<nat>): nat -> real {
    (u: nat) => (if u == e.i && Same(comm, e.i, e.j) then Weight(e) else 0.0)
                + (if u == e.j && Same(comm, e.i, e.j) then Weight(e) else 0.0)
  }

  lemma EdgeRowSum(n: nat, e: Edge, comm: seq<nat>, u: nat)
    requires e.i < n && e.j < n == |comm| && u < n
    ensures Sum(n, EdgeRow(e, comm, u)) == EdgeShare(e, comm)(u)
  {
    var w := if Same(comm, e.i, e.j) then Weight(e) else 0.0;
    var a, b := Point(e.j, if u == e.i then w else 0.0), Point(e.i, if u == e.j then w else 0.0);
    forall v: nat | v < n ensures EdgeRow(e, comm, u)(v) == 1.0 * a(v) + 1.0 * b(v) {}
    SumLinear(n, 1.0, a, 1.0, b, EdgeRow(e, comm, u));
    SumOfPoint(n, e.j, if u == e.i then w else 0.0);
    SumOfPoint(n, e.i, if u == e.j then w else 0.0);
  }

  lemma EdgeTotal(n: nat, e: Edge, comm: seq<nat>)
    requires e.i < n && e.j < n == |comm|
    ensures Sum(n, EdgeShare(e, comm)) == 2.0 * WeightInside(comm)(e)
  {
    var w := if Same(comm, e.i, e.j) then Weight(e) else 0.0;
    var a, b := Point(e.i, w), Point(e.j, w);
    forall u: nat | u < n ensures EdgeShare(e, comm)(u) == 1.0 * a(u) + 1.0 * b(u) {}
    SumLinear(n, 1.0, a, 1.0, b, EdgeShare(e, comm));
    SumOfPoint(n, e.i, w);
    SumOfPoint(n, e.j, w);
  }

  lemma RowAppend(n: nat, front: seq<Edge>, e: Edge, comm: seq<nat>, u: nat)
    requires e.i < n && e.j < n == |comm| && u < n
    ensures RowSum(n, front + [e], comm)(u) == 1.0 * RowSum(n, front, comm)(u) + 1.0 * EdgeShare(e, comm)(u)
  {
    hide Total;
    hide Sum;
    var edges := front + [e];
    forall v: nat | v < n
      ensures RowInside(edges, comm, u)(v) == 1.0 * RowInside(front, comm, u)(v) + 1.0 * EdgeRow(e, comm, u)(v)
    {
      TotalAppend(front, e, EntryAt(u, v));
    }
    SumLinear(n, 1.0, RowInside(front, comm, u), 1.0, EdgeRow(e, comm, u), RowInside(edges, comm, u));
    EdgeRowSum(n, e, comm, u);
  }

  /** The entries inside the communities add up to twice the weight inside them. */
  lemma {:induction false} AdjacencyInside(n: nat, edges: seq<Edge>, comm: seq<nat>)
    requires ValidEdges(n, edges) && |comm| == n
    ensures Sum(n, RowSum(n, edges, comm)) == 2.0 * Intra(edges, comm)
  {
    hide Sum;
    if edges == [] {
      forall u: nat | u < n ensures RowSum(n, edges, comm)(u) == 0.0 {
        SumZero(n, RowInside(edges, comm, u));
      }
      SumZero(n, RowSum(n, edges, comm));
    } else {
      hide Total;
      var front, e := edges[..|edges| - 1], edges[|edges| - 1];
      assert edges == front + [e] && e in edges;
      AdjacencyInside(n, front, comm);
      forall u: nat | u < n
        ensures RowSum(n, edges, comm)(u) == 1.0 * RowSum(n, front, comm)(u) + 1.0 * EdgeShare(e, comm)(u)
      {
        RowAppend(n, front, e, comm, u);
      }
      SumLinear(n, 1.0, RowSum(n, front, comm), 1.0, EdgeShare(e, comm), RowSum(n, edges, comm));
      EdgeTotal(n, e, comm);
      TotalAppend(front, e, WeightInside(comm));
    }
  }

  // ---------- The pair sum ----------

  /** The pair (u, v): its adjacency less what the degrees predict, if the two share a community. */
  function PairTerm(n: nat, edges: seq<Edge>, comm: seq<nat>, resolution: real, u: nat): nat -> real
    requires M2(n, edges) > 0.0
  {
    (v: nat) =>
      if Same(comm, u, v)
      then Adjacency(edges, u, v) - resolution * Degree(edges, u) * Degree(edges, v) / M2(n, edges)
      else 0.0
  }

  function PairRow(n: nat, edges: seq<Edge>, comm: seq<nat>, resolution: real): nat -> real
    requires M2(n, edges) > 0.0
  {
    (u: nat) => Sum(n, PairTerm(n, edges, comm, resolution, u))
  }

  lemma Regroup(r: real, a: real, b: real, m: real)
    requires m > 0.0
    ensures r * a * b / m == r * a / m * b
  {
    var q := 1.0 / m;
    assert r * a * b / m == r * a * b * q && r * a / m == r * a * q;
  }

  lemma PairRowIs(n: nat, edges: seq<Edge>, comm: seq<nat>, resolution: real, u: nat)
    requires M2(n, edges) > 0.0 && u < n == |comm|
    ensures PairRow(n, edges, comm, resolution)(u)
         == 1.0 * RowSum(n, edges, comm)(u) + (-(resolution / M2(n, edges))) * MassOf(n, edges, comm)(u)
  {
    hide Sum;
    hide Degree;
    hide Adjacency;
    hide M2;
    var m, k := M2(n, edges), Degree(edges, u);
    var b := -(resolution * k / m);
    forall v: nat | v < n
      ensures PairTerm(n, edges, comm, resolution, u)(v)
           == 1.0 * RowInside(edges, comm, u)(v) + b * MateDegree(edges, comm, u)(v)
    {
      Regroup(resolution, k, Degree(edges, v), m);
    }
    SumLinear(n, 1.0, RowInside(edges, comm, u), b, MateDegree(edges, comm, u),
              PairTerm(n, edges, comm, resolution, u));
    Factor(resolution, k, Mates(n, edges, comm, u), m);
  }

  lemma Factor(r: real, k: real, x: real, m: real)
    requires m > 0.0
    ensures -(r * k / m) * x == -(r / m) * (k * x)
  {
    var q := 1.0 / m;
    assert r * k / m == r * k * q && r / m == r * q;
  }

  lemma Scale(m: real, r: real, intra: real, mass: real)
    requires m > 0.0
    ensures Objective(m, r, intra, mass) * m == 2.0 * intra + (-(r / m)) * mass
  {
    var q := 1.0 / m;
    QuotientSquare(r * mass, m);
    assert 2.0 * intra / m == 2.0 * intra * q && r * mass / m == r * mass * q && r / m == r * q;
    assert q * m == 1.0;
    assert Objective(m, r, intra, mass) == 2.0 * intra * q - q * (r * mass * q);
    Unscale(2.0 * intra, r * mass * q, q, m);
  }

  lemma Unscale(x: real, y: real, q: real, m: real)
    requires q * m == 1.0
    ensures (x * q - q * y) * m == x - y
  {
    assert (x * q - q * y) * m == (x - y) * (q * m);
  }

  /** Modularity times m2 is the sum over all ordered pairs in one community of A(u,v) - resolution * k_u * k_v / m2. */
  lemma TextbookModularity(n: nat, edges: seq<Edge>, comm: seq<nat>, resolution: real)
    requires ValidEdges(n, edges) && |comm| == n && M2(n, edges) > 0.0
    ensures Modularity(n, edges, comm, resolution) * M2(n, edges) == Sum(n, PairRow(n, edges, comm, resolution))
  {
    hide Sum;
    hide M2;
    hide Intra;
    hide Objective;
    hide RowSum;
    hide MassOf;
    hide PairRow;
    AdjacencyInside(n, edges, comm);
    var b := -(resolution / M2(n, edges));
    forall u: nat | u < n
      ensures PairRow(n, edges, comm, resolution)(u) == 1.0 * RowSum(n, edges, comm)(u) + b * MassOf(n, edges, comm)(u)
    {
      PairRowIs(n, edges, comm, resolution, u);
    }
    SumLinear(n, 1.0, RowSum(n, edges, comm), b, MassOf(n, edges, comm), PairRow(n, edges, comm, resolution));
    Scale(M2(n, edges), resolution, Intra(edges, comm), PairMass(n, edges, comm));
  }
}
