/**
 One level of the partitioner: the local-moving phase.

 The ghost functions say what the phase does in terms of the true community degrees and of the
 sorted candidate list. The methods below them work as the operator does, with adjacency lists,
 an incremental array of community degrees and a map whose iteration order is arbitrary, and are
 proved to compute exactly those functions; so the phase is deterministic.
 */
module LocalMoving {
  import opened Sums
  import opened SortedSets
  import opened WeightedGraph
  import opened Aggregation

  const MAX_PASSES: nat := 32
  const THRESHOLD: real := 0.000000000001

  datatype Arc = Arc(to: nat, w: real)

  datatype Level = Level(comm: seq<nat>, moved: bool)

  /** The arcs of one edge at v: none for a self-loop or a non-positive weight. */
  function ArcsOf(e: Edge, v: nat): seq<Arc> {
    if e.w <= 0.0 || e.i == e.j then []
    else (if e.i == v then [Arc(e.j, e.w)] else []) + (if e.j == v then [Arc(e.i, e.w)] else [])
  }

  function Arcs(edges: seq<Edge>, v: nat): seq<Arc> {
    if edges == [] then [] else Arcs(edges[..|edges| - 1], v) + ArcsOf(edges[|edges| - 1], v)
  }

  predicate ValidArcs(n: nat, arcs: seq<Arc>) {
    forall a | a in arcs :: a.to < n
  }

  function ArcInto(comm: seq<nat>, c: nat): Arc -> real {
    (a: Arc) => if a.to < |comm| && comm[a.to] == c then a.w else 0.0
  }

  predicate ValidComm(n: nat, comm: seq<nat>) {
    |comm| == n && forall v | 0 <= v < n :: comm[v] < n
  }

  /** The communities node x may end in: its own and those of its neighbours. */
  function Candidates(arcs: seq<Arc>, comm: seq<nat>, x: nat): set<nat>
    requires x < |comm| && ValidArcs(|comm|, arcs)
  {
    {comm[x]} + set a | a in arcs :: comm[a.to]
  }

  /** The scan over the candidates: a candidate replaces the best so far when it beats it by the threshold. */
  function Best(n: nat, edges: seq<Edge>, resolution: real, comm: seq<nat>, x: nat, cands: seq<nat>): nat
    requires M2(n, edges) > 0.0 && x < |comm|
  {
    if cands == [] then comm[x]
    else
      var b := Best(n, edges, resolution, comm, x, cands[..|cands| - 1]);
      var c := cands[|cands| - 1];
      if Gain(n, edges, resolution, comm, x, c) > Gain(n, edges, resolution, comm, x, b) + THRESHOLD then c else b
  }

  lemma {:induction false} ArcsValid(n: nat, edges: seq<Edge>, v: nat)
    requires ValidEdges(n, edges)
    ensures ValidArcs(n, Arcs(edges, v))
  {
    if edges != [] {
      assert edges[|edges| - 1] in edges;
      ArcsValid(n, edges[..|edges| - 1], v);
    }
  }

  ghost function BestFor(n: nat, edges: seq<Edge>, resolution: real, comm: seq<nat>, x: nat): nat
    requires ValidEdges(n, edges) && ValidComm(n, comm) && x < n && M2(n, edges) > 0.0
  {
    ArcsValid(n, edges, x);
    LessNatIsTotal();
    Best(n, edges, resolution, comm, x, Ascending<nat>(LessNat, Candidates(Arcs(edges, x), comm, x)))
  }

  /** A node without neighbours is skipped; any other goes to its best candidate. */
  ghost function MoveNode(n: nat, edges: seq<Edge>, resolution: real, comm: seq<nat>, x: nat): Level
    requires ValidEdges(n, edges) && ValidComm(n, comm) && x < n && M2(n, edges) > 0.0
  {
    if Arcs(edges, x) == [] then Level(comm, false)
    else
      var b := BestFor(n, edges, resolution, comm, x);
      Level(comm[x := b], b != comm[x])
  }

  /** What the scan guarantees: the winner is a candidate, beats the old community by more than the
      threshold if it differs from it, and no candidate beats the winner by more than the threshold. */
  lemma {:induction false} BestIsBest(n: nat, edges: seq<Edge>, resolution: real, comm: seq<nat>, x: nat,
                                      cands: seq<nat>)
    requires M2(n, edges) > 0.0 && x < |comm|
    ensures var b, g := Best(n, edges, resolution, comm, x, cands), (c: nat) => Gain(n, edges, resolution, comm, x, c);
            && (b == comm[x] || b in cands)
            && (b != comm[x] ==> g(b) > g(comm[x]) + THRESHOLD)
            && g(b) >= g(comm[x])
            && forall c | c in cands :: g(c) <= g(b) + THRESHOLD
  {
    if cands != [] {
      var front := cands[..|cands| - 1];
      BestIsBest(n, edges, resolution, comm, x, front);
      assert forall c | c in cands :: c in front || c == cands[|cands| - 1];
    }
  }

  /** No move of x into a neighbouring community gains more than the threshold. */
  ghost predicate OptimalAt(n: nat, edges: seq<Edge>, resolution: real, comm: seq<nat>, x: nat)
    requires ValidEdges(n, edges) && ValidComm(n, comm) && x < n && M2(n, edges) > 0.0
  {
    ArcsValid(n, edges, x);
    forall c | c in Candidates(Arcs(edges, x), comm, x) ::
      Gain(n, edges, resolution, comm, x, c) <= Gain(n, edges, resolution, comm, x, comm[x]) + THRESHOLD
  }

  lemma BestForProperties(n: nat, edges: seq<Edge>, resolution: real, comm: seq<nat>, x: nat)
    requires ValidEdges(n, edges) && ValidComm(n, comm) && x < n && M2(n, edges) > 0.0
    ensures ValidArcs(n, Arcs(edges, x))
    ensures BestFor(n, edges, resolution, comm, x) in Candidates(Arcs(edges, x), comm, x)
    ensures BestFor(n, edges, resolution, comm, x) < n
    ensures var b := BestFor(n, edges, resolution, comm, x);
            b != comm[x] ==>
                Gain(n, edges, resolution, comm, x, b) > Gain(n, edges, resolution, comm, x, comm[x]) + THRESHOLD
    ensures BestFor(n, edges, resolution, comm, x) == comm[x] ==> OptimalAt(n, edges, resolution, comm, x)
  {
    ArcsValid(n, edges, x);
    LessNatIsTotal();
    BestIsBest(n, edges, resolution, comm, x, Ascending<nat>(LessNat, Candidates(Arcs(edges, x), comm, x)));
  }

  /** The winner of a scan beats every candidate scanned before it. */
  lemma {:induction false} BestPosition(n: nat, edges: seq<Edge>, resolution: real, comm: seq<nat>, x: nat,
                                        cands: seq<nat>) returns (i: nat)
    requires M2(n, edges) > 0.0 && x < |comm| && Best(n, edges, resolution, comm, x, cands) != comm[x]
    ensures i < |cands| && cands[i] == Best(n, edges, resolution, comm, x, cands)
    ensures forall j | 0 <= j < i ::
              Gain(n, edges, resolution, comm, x, cands[j]) < Gain(n, edges, resolution, comm, x, cands[i])
  {
    hide Gain;
    hide M2;
    var front, c := cands[..|cands| - 1], cands[|cands| - 1];
    var b := Best(n, edges, resolution, comm, x, front);
    if Gain(n, edges, resolution, comm, x, c) > Gain(n, edges, resolution, comm, x, b) + THRESHOLD {
      BestIsBest(n, edges, resolution, comm, x, front);
      i := |front|;
      forall j | 0 <= j < i
        ensures Gain(n, edges, resolution, comm, x, cands[j]) < Gain(n, edges, resolution, comm, x, cands[i])
      {
        assert front[j] in front;
      }
    } else {
      i := BestPosition(n, edges, resolution, comm, x, front);
    }
  }

  /** Of several equally good communities the one with the least number wins: whatever lies below the winner has a
      smaller gain. */
  lemma TiesGoToTheLeast(n: nat, edges: seq<Edge>, resolution: real, comm: seq<nat>, x: nat, c: nat)
    requires ValidEdges(n, edges) && ValidComm(n, comm) && x < n && M2(n, edges) > 0.0
    requires ValidArcs(n, Arcs(edges, x)) && c in Candidates(Arcs(edges, x), comm, x)
    requires BestFor(n, edges, resolution, comm, x) != comm[x] && c < BestFor(n, edges, resolution, comm, x)
    ensures Gain(n, edges, resolution, comm, x, c)
          < Gain(n, edges, resolution, comm, x, BestFor(n, edges, resolution, comm, x))
  {
    hide Gain;
    hide M2;
    hide Best;
    hide Arcs;
    LessNatIsTotal();
    var cands := Ascending<nat>(LessNat, Candidates(Arcs(edges, x), comm, x));
    var i := BestPosition(n, edges, resolution, comm, x, cands);
    var j :| 0 <= j < |cands| && cands[j] == c;
    LessComesFirst(cands, i, j);
  }

  /** The least amount by which a move raises the modularity. */
  function Step(n: nat, edges: seq<Edge>): real
    requires M2(n, edges) > 0.0
  {
    2.0 / M2(n, edges) * THRESHOLD
  }

  lemma StepPositive(n: nat, edges: seq<Edge>)
    requires M2(n, edges) > 0.0
    ensures Step(n, edges) > 0.0
  {}

  lemma ScaledExceedsStep(n: nat, edges: seq<Edge>, g1: real, g0: real)
    requires M2(n, edges) > 0.0 && g1 > g0 + THRESHOLD
    ensures Scaled(M2(n, edges), g1, g0) > Step(n, edges)
  {
    var k := 2.0 / M2(n, edges);
    assert k > 0.0;
    assert k * (g1 - g0) > k * THRESHOLD;
  }

  lemma OptimalWithoutArcs(n: nat, edges: seq<Edge>, resolution: real, comm: seq<nat>, x: nat)
    requires ValidEdges(n, edges) && ValidComm(n, comm) && x < n && M2(n, edges) > 0.0
    requires Arcs(edges, x) == []
    ensures OptimalAt(n, edges, resolution, comm, x)
  {
    hide Gain;
    assert Candidates([], comm, x) == {comm[x]};
  }

  lemma MoveNodeImproves(n: nat, edges: seq<Edge>, resolution: real, comm: seq<nat>, x: nat)
    requires ValidEdges(n, edges) && ValidComm(n, comm) && x < n && M2(n, edges) > 0.0
    ensures var r := MoveNode(n, edges, resolution, comm, x);
            && ValidComm(n, r.comm)
            && (r.moved ==>
                  Modularity(n, edges, r.comm, resolution) > Modularity(n, edges, comm, resolution) + Step(n, edges))
            && (!r.moved ==> r.comm == comm && OptimalAt(n, edges, resolution, comm, x))
  {
    hide Modularity;
    hide Gain;
    hide Step;
    hide BestFor;
    hide OptimalAt;
    var b := BestFor(n, edges, resolution, comm, x);
    BestForProperties(n, edges, resolution, comm, x);
    if Arcs(edges, x) == [] {
      OptimalWithoutArcs(n, edges, resolution, comm, x);
    } else if b == comm[x] {
      assert comm[x := b] == comm;
    } else {
      var g1, g0 := Gain(n, edges, resolution, comm, x, b), Gain(n, edges, resolution, comm, x, comm[x]);
      MoveChangesModularity(n, edges, resolution, comm, x, b);
      ScaledExceedsStep(n, edges, g1, g0);
    }
  }

  lemma MoveNodeIsValid(n: nat, edges: seq<Edge>, resolution: real, comm: seq<nat>, x: nat)
    requires ValidEdges(n, edges) && ValidComm(n, comm) && x < n && M2(n, edges) > 0.0
    ensures ValidComm(n, MoveNode(n, edges, resolution, comm, x).comm)
  {
    hide Gain;
    hide BestFor;
    hide OptimalAt;
    BestForProperties(n, edges, resolution, comm, x);
  }

  /** The turn of node x after the turns of the nodes before it. */
  ghost function NextLevel(n: nat, edges: seq<Edge>, resolution: real, before: Level, x: nat): (r: Level)
    requires ValidEdges(n, edges) && ValidComm(n, before.comm) && x < n && M2(n, edges) > 0.0
    ensures ValidComm(n, r.comm)
  {
    MoveNodeIsValid(n, edges, resolution, before.comm, x);
    var after := MoveNode(n, edges, resolution, before.comm, x);
    Level(after.comm, before.moved || after.moved)
  }

  /** One pass over the first k nodes, in index order. */
  ghost function Pass(n: nat, edges: seq<Edge>, resolution: real, comm: seq<nat>, k: nat): (r: Level)
    requires ValidEdges(n, edges) && ValidComm(n, comm) && k <= n && M2(n, edges) > 0.0
    ensures ValidComm(n, r.comm)
  {
    if k == 0 then Level(comm, false)
    else
      var before := Pass(n, edges, resolution, comm, k - 1);
      NextLevel(n, edges, resolution, before, k - 1)
  }

  lemma {:induction false} PassImproves(n: nat, edges: seq<Edge>, resolution: real, comm: seq<nat>, k: nat)
    requires ValidEdges(n, edges) && ValidComm(n, comm) && k <= n && M2(n, edges) > 0.0
    ensures var r := Pass(n, edges, resolution, comm, k);
            && (r.moved ==>
                  Modularity(n, edges, r.comm, resolution) > Modularity(n, edges, comm, resolution) + Step(n, edges))
            && (!r.moved ==> r.comm == comm && forall x: nat | x < k :: OptimalAt(n, edges, resolution, comm, x))
  {
    hide Modularity;
    hide Step;
    hide MoveNode;
    hide OptimalAt;
    StepPositive(n, edges);
    if k > 0 {
      PassImproves(n, edges, resolution, comm, k - 1);
      MoveNodeImproves(n, edges, resolution, Pass(n, edges, resolution, comm, k - 1).comm, k - 1);
    }
  }

  /** The nodes take their turns in index order: after the first k turns the later nodes are where they were. */
  lemma {:induction false} TurnsInIndexOrder(n: nat, edges: seq<Edge>, resolution: real, comm: seq<nat>, k: nat,
                                             v: nat)
    requires ValidEdges(n, edges) && ValidComm(n, comm) && k <= v < n && M2(n, edges) > 0.0
    ensures Pass(n, edges, resolution, comm, k).comm[v] == comm[v]
  {
    hide BestFor;
    hide Arcs;
    hide M2;
    if k > 0 {
      TurnsInIndexOrder(n, edges, resolution, comm, k - 1, v);
    }
  }

  /** Passes until one moves nothing, at most budget of them. */
  ghost function Passes(n: nat, edges: seq<Edge>, resolution: real, comm: seq<nat>, budget: nat): (r: Level)
    requires ValidEdges(n, edges) && ValidComm(n, comm) && M2(n, edges) > 0.0
    ensures ValidComm(n, r.comm)
    decreases budget
  {
    if budget == 0 then Level(comm, false)
    else
      var one := Pass(n, edges, resolution, comm, n);
      if !one.moved then one
      else Level(Passes(n, edges, resolution, one.comm, budget - 1).comm, true)
  }

  ghost predicate LocallyOptimal(n: nat, edges: seq<Edge>, resolution: real, comm: seq<nat>)
    requires ValidEdges(n, edges) && ValidComm(n, comm) && M2(n, edges) > 0.0
  {
    forall x: nat | x < n :: OptimalAt(n, edges, resolution, comm, x)
  }

  lemma OneMoreStep(k: nat, step: real)
    requires k > 0
    ensures k as real * step == (k - 1) as real * step + step
  {}

  lemma {:induction false} PassesImprove(n: nat, edges: seq<Edge>, resolution: real, comm: seq<nat>, budget: nat)
    requires ValidEdges(n, edges) && ValidComm(n, comm) && M2(n, edges) > 0.0
    ensures var r := Passes(n, edges, resolution, comm, budget);
            && (r.moved ==>
                  Modularity(n, edges, r.comm, resolution) > Modularity(n, edges, comm, resolution) + Step(n, edges))
            && (!r.moved ==> r.comm == comm)
            && (LocallyOptimal(n, edges, resolution, r.comm)
                || Modularity(n, edges, r.comm, resolution)
                   >= Modularity(n, edges, comm, resolution) + budget as real * Step(n, edges))
    decreases budget
  {
    hide Modularity;
    hide Step;
    hide Pass;
    hide OptimalAt;
    StepPositive(n, edges);
    if budget > 0 {
      var one := Pass(n, edges, resolution, comm, n);
      PassImproves(n, edges, resolution, comm, n);
      if one.moved {
        PassesImprove(n, edges, resolution, one.comm, budget - 1);
        OneMoreStep(budget, Step(n, edges));
      }
    }
  }

  /** The whole local-moving phase, from singletons. */
  ghost function OneLevel(n: nat, edges: seq<Edge>, resolution: real): (r: Level)
    requires ValidEdges(n, edges)
    ensures ValidComm(n, r.comm)
  {
    if M2(n, edges) <= 0.0 then Level(Identity(n), false)
    else Passes(n, edges, resolution, Identity(n), MAX_PASSES)
  }

  /** The partition after j whole passes. */
  ghost function AfterPasses(n: nat, edges: seq<Edge>, resolution: real, comm: seq<nat>, j: nat): (r: seq<nat>)
    requires ValidEdges(n, edges) && ValidComm(n, comm) && M2(n, edges) > 0.0
    ensures ValidComm(n, r)
    decreases j
  {
    if j == 0 then comm
    else AfterPasses(n, edges, resolution, Pass(n, edges, resolution, comm, n).comm, j - 1)
  }

  /** j passes were made: all of them moved something, and a further one would not, or the budget is used up. */
  ghost predicate StopsAfter(n: nat, edges: seq<Edge>, resolution: real, comm: seq<nat>, budget: nat, j: nat)
    requires ValidEdges(n, edges) && ValidComm(n, comm) && M2(n, edges) > 0.0
  {
    && j <= budget
    && (forall i: nat | i < j :: Pass(n, edges, resolution, AfterPasses(n, edges, resolution, comm, i), n).moved)
    && (j == budget || !Pass(n, edges, resolution, AfterPasses(n, edges, resolution, comm, j), n).moved)
  }

  lemma {:induction false} PassesStop(n: nat, edges: seq<Edge>, resolution: real, comm: seq<nat>, budget: nat)
    returns (j: nat)
    requires ValidEdges(n, edges) && ValidComm(n, comm) && M2(n, edges) > 0.0
    ensures StopsAfter(n, edges, resolution, comm, budget, j)
    ensures Passes(n, edges, resolution, comm, budget)
         == Level(AfterPasses(n, edges, resolution, comm, j), j > 0)
    decreases budget
  {
    hide M2;
    hide Modularity;
    hide OptimalAt;
    hide Step;
    hide Pass;
    hide ValidEdges;
    hide ValidComm;
    var one := Pass(n, edges, resolution, comm, n);
    PassImproves(n, edges, resolution, comm, n);
    if budget == 0 || !one.moved {
      j := 0;
    } else {
      var k := PassesStop(n, edges, resolution, one.comm, budget - 1);
      j := k + 1;
      StopsLater(n, edges, resolution, comm, budget, k);
    }
  }

  lemma StopsLater(n: nat, edges: seq<Edge>, resolution: real, comm: seq<nat>, budget: nat, k: nat)
    requires ValidEdges(n, edges) && ValidComm(n, comm) && M2(n, edges) > 0.0 && budget > 0
    requires Pass(n, edges, resolution, comm, n).moved
    requires StopsAfter(n, edges, resolution, Pass(n, edges, resolution, comm, n).comm, budget - 1, k)
    ensures StopsAfter(n, edges, resolution, comm, budget, k + 1)
  {
    hide M2;
    hide Pass;
    hide ValidEdges;
    hide ValidComm;
    var one := Pass(n, edges, resolution, comm, n);
    forall i: nat | i < k + 1
      ensures Pass(n, edges, resolution, AfterPasses(n, edges, resolution, comm, i), n).moved
    {
      if i > 0 {
        assert AfterPasses(n, edges, resolution, comm, i) == AfterPasses(n, edges, resolution, one.comm, i - 1);
      }
    }
  }

  /**
   What the phase does, with the operator's own numbers: it makes whole passes from the singletons, at most 32 of
   them, and stops early only when a pass would move nothing; then no move into a neighbouring community gains more
   than 1e-12.
   */
  lemma PhaseMeaning(n: nat, edges: seq<Edge>, resolution: real) returns (j: nat)
    requires ValidEdges(n, edges) && M2(n, edges) > 0.0
    ensures StopsAfter(n, edges, resolution, Identity(n), 32, j)
    ensures OneLevel(n, edges, resolution) == Level(AfterPasses(n, edges, resolution, Identity(n), j), j > 0)
    ensures j < 32 ==>
              forall x: nat, c: nat | x < n && Neighbouring(n, edges, OneLevel(n, edges, resolution).comm, x, c) ::
                Gain(n, edges, resolution, OneLevel(n, edges, resolution).comm, x, c)
                <= Gain(n, edges, resolution, OneLevel(n, edges, resolution).comm, x,
                        OneLevel(n, edges, resolution).comm[x]) + 0.000000000001
  {
    hide M2;
    hide Pass;
    hide Gain;
    hide Modularity;
    hide Step;
    j := PassesStop(n, edges, resolution, Identity(n), MAX_PASSES);
    var comm := OneLevel(n, edges, resolution).comm;
    PassImproves(n, edges, resolution, comm, n);
    if j < 32 {
      forall x: nat, c: nat | x < n && Neighbouring(n, edges, comm, x, c)
        ensures Gain(n, edges, resolution, comm, x, c)
             <= Gain(n, edges, resolution, comm, x, comm[x]) + 0.000000000001
      {
        assert OptimalAt(n, edges, resolution, comm, x);
        NeighbourIsCandidate(n, edges, comm, x, c);
      }
    }
  }

  /** Community c holds a node joined to x by an edge of positive weight. */
  ghost predicate Neighbouring(n: nat, edges: seq<Edge>, comm: seq<nat>, x: nat, c: nat)
    requires ValidComm(n, comm)
  {
    exists e | e in edges ::
      && e.w > 0.0 && e.i != e.j && e.i < n && e.j < n
      && ((e.i == x && comm[e.j] == c) || (e.j == x && comm[e.i] == c))
  }

  lemma {:induction false} ArcOfEdge(edges: seq<Edge>, e: Edge, x: nat, y: nat)
    requires e in edges && e.w > 0.0 && e.i != e.j && ((e.i == x && e.j == y) || (e.j == x && e.i == y))
    ensures Arc(y, e.w) in Arcs(edges, x)
  {
    var front, last := edges[..|edges| - 1], edges[|edges| - 1];
    assert edges == front + [last];
    if e in front {
      ArcOfEdge(front, e, x, y);
    }
  }

  lemma NeighbourIsCandidate(n: nat, edges: seq<Edge>, comm: seq<nat>, x: nat, c: nat)
    requires ValidEdges(n, edges) && ValidComm(n, comm) && x < n && Neighbouring(n, edges, comm, x, c)
    ensures ValidArcs(n, Arcs(edges, x)) && c in Candidates(Arcs(edges, x), comm, x)
  {
    hide Arcs;
    ArcsValid(n, edges, x);
    var e :| e in edges && e.w > 0.0 && e.i != e.j
             && ((e.i == x && comm[e.j] == c) || (e.j == x && comm[e.i] == c));
    var y := if e.i == x then e.j else e.i;
    ArcOfEdge(edges, e, x, y);
    assert Arc(y, e.w) in Arcs(edges, x) && comm[Arc(y, e.w).to] == c;
  }

  // ---------- The phase as the operator runs it ----------

  lemma {:induction false} ArcsWeight(edges: seq<Edge>, comm: seq<nat>, x: nat, c: nat)
    ensures Total(Arcs(edges, x), ArcInto(comm, c)) == WeightTo(edges, comm, x, c)
  {
    if edges != [] {
      var front, e := edges[..|edges| - 1], edges[|edges| - 1];
      ArcsWeight(front, comm, x, c);
      var arcs := Arcs(front, x);
      if e.w > 0.0 && e.i != e.j && e.i == x {
        assert ArcsOf(e, x) == [Arc(e.j, e.w)];
        TotalAppend(arcs, Arc(e.j, e.w), ArcInto(comm, c));
      } else if e.w > 0.0 && e.i != e.j && e.j == x {
        assert ArcsOf(e, x) == [Arc(e.i, e.w)];
        TotalAppend(arcs, Arc(e.i, e.w), ArcInto(comm, c));
      } else {
        assert ArcsOf(e, x) == [] && arcs + [] == arcs;
      }
    }
  }

  lemma DegreeAppend(edges: seq<Edge>, k: nat, v: nat)
    requires k < |edges|
    ensures Degree(edges[..k + 1], v) == Degree(edges[..k], v) + Incidence(edges[k], v)
    ensures Arcs(edges[..k + 1], v) == Arcs(edges[..k], v) + ArcsOf(edges[k], v)
  {
    assert edges[..k + 1][..k] == edges[..k];
  }

  method AddEdge(adj: array<seq<Arc>>, degree: array<real>, e: Edge)
    requires e.i < adj.Length == degree.Length && e.j < adj.Length
    modifies adj, degree
    ensures forall v: nat | v < adj.Length :: adj[v] == old(adj[v]) + ArcsOf(e, v)
    ensures forall v: nat | v < adj.Length :: degree[v] == old(degree[v]) + Incidence(e, v)
  {
    if e.w <= 0.0 {
      return;
    }
    if e.i == e.j {
      // A self-loop contributes twice to the degree and is never a candidate move.
      degree[e.i] := degree[e.i] + 2.0 * e.w;
      return;
    }
    adj[e.i] := adj[e.i] + [Arc(e.j, e.w)];
    adj[e.j] := adj[e.j] + [Arc(e.i, e.w)];
    degree[e.i] := degree[e.i] + e.w;
    degree[e.j] := degree[e.j] + e.w;
  }

  /** Adjacency lists and weighted degrees, accumulated edge by edge. */
  method BuildAdjacency(n: nat, edges: seq<Edge>) returns (adj: array<seq<Arc>>, degree: array<real>)
    requires ValidEdges(n, edges)
    ensures fresh(adj) && fresh(degree) && adj.Length == degree.Length == n
    ensures forall v: nat | v < n :: adj[v] == Arcs(edges, v)
    ensures forall v: nat | v < n :: degree[v] == Degree(edges, v)
  {
    adj := new seq<Arc>[n](_ => []);
    degree := new real[n](_ => 0.0);
    for k := 0 to |edges|
      invariant forall v: nat | v < n :: adj[v] == Arcs(edges[..k], v)
      invariant forall v: nat | v < n :: degree[v] == Degree(edges[..k], v)
    {
      assert edges[k] in edges;
      AddEdge(adj, degree, edges[k]);
      forall v: nat | v < n
        ensures degree[v] == Degree(edges[..k + 1], v) && adj[v] == Arcs(edges[..k + 1], v)
      {
        DegreeAppend(edges, k, v);
      }
    }
    assert edges[..|edges|] == edges;
  }

  ghost predicate WeightsCorrect(wTo: map<nat, real>, arcs: seq<Arc>, comm: seq<nat>) {
    forall c: nat :: Total(arcs, ArcInto(comm, c)) == if c in wTo then wTo[c] else 0.0
  }

  lemma WeightsAppend(wTo: map<nat, real>, arcs: seq<Arc>, comm: seq<nat>, a: Arc)
    requires a.to < |comm| && WeightsCorrect(wTo, arcs, comm)
    ensures var c := comm[a.to];
            WeightsCorrect(wTo[c := (if c in wTo then wTo[c] else 0.0) + a.w], arcs + [a], comm)
  {
    forall c: nat
      ensures Total(arcs + [a], ArcInto(comm, c))
           == Total(arcs, ArcInto(comm, c)) + (if comm[a.to] == c then a.w else 0.0)
    {
      TotalAppend(arcs, a, ArcInto(comm, c));
    }
  }

  lemma NoNeighbours(comm: seq<nat>, x: nat)
    requires x < |comm|
    ensures Candidates([], comm, x) == {comm[x]} && WeightsCorrect(map[comm[x] := 0.0], [], comm)
  {}

  lemma CandidatesAppend(arcs: seq<Arc>, comm: seq<nat>, x: nat, a: Arc)
    requires x < |comm| && ValidArcs(|comm|, arcs) && a.to < |comm|
    ensures Candidates(arcs + [a], comm, x) == Candidates(arcs, comm, x) + {comm[a.to]}
  {}

  /** The weight from one node into each neighbouring community, as a map. */
  method NeighbourWeights(arcs: seq<Arc>, comm: seq<nat>, x: nat) returns (wTo: map<nat, real>)
    requires x < |comm| && ValidArcs(|comm|, arcs)
    ensures wTo.Keys == Candidates(arcs, comm, x)
    ensures WeightsCorrect(wTo, arcs, comm)
  {
    hide WeightsCorrect;
    hide Candidates;
    wTo := map[comm[x] := 0.0];
    NoNeighbours(comm, x);
    for k := 0 to |arcs|
      invariant ValidArcs(|comm|, arcs[..k]) && wTo.Keys == Candidates(arcs[..k], comm, x)
      invariant WeightsCorrect(wTo, arcs[..k], comm)
    {
      var a := arcs[k];
      assert a in arcs && arcs[..k + 1] == arcs[..k] + [a];
      WeightsAppend(wTo, arcs[..k], comm, a);
      CandidatesAppend(arcs[..k], comm, x, a);
      var c := comm[a.to];
      wTo := wTo[c := (if c in wTo then wTo[c] else 0.0) + a.w];
    }
    assert arcs[..|arcs|] == arcs;
  }

  method ScanCandidates(n: nat, edges: seq<Edge>, resolution: real, m2: real, wTo: map<nat, real>, tot: seq<real>,
                        k: real,
                        ghost comm: seq<nat>, ghost x: nat, candidates: seq<nat>, from: nat) returns (best: nat)
    requires m2 == M2(n, edges) && m2 > 0.0 && x < |comm| == n && from == comm[x] && k == Degree(edges, x)
    requires |tot| == n && forall c: nat | c < n :: tot[c] == OthersDegree(n, edges, comm, x, c)
    requires from in wTo && forall c: nat | c in wTo :: c < n && wTo[c] == WeightTo(edges, comm, x, c)
    requires forall c | c in candidates :: c in wTo
    ensures best == Best(n, edges, resolution, comm, x, candidates)
  {
    best := from;
    hide LocalGain;
    hide WeightTo;
    hide OthersDegree;
    var bestGain := LocalGain(m2, resolution, wTo[from], tot[from], k);
    for i := 0 to |candidates|
      invariant best in wTo && best == Best(n, edges, resolution, comm, x, candidates[..i])
      invariant bestGain == Gain(n, edges, resolution, comm, x, best)
    {
      var c := candidates[i];
      var gain := LocalGain(m2, resolution, wTo[c], tot[c], k);
      assert gain == Gain(n, edges, resolution, comm, x, c);
      assert candidates[..i + 1][..i] == candidates[..i];
      if gain > bestGain + THRESHOLD {
        best, bestGain := c, gain;
      }
    }
    assert candidates[..|candidates|] == candidates;
  }

  /** The best community for x, given the degrees of the other members of every community. */
  method ChooseBest(n: nat, edges: seq<Edge>, resolution: real, m2: real, arcs: seq<Arc>, k: real,
                    comm: seq<nat>, tot: seq<real>, x: nat) returns (best: nat)
    requires ValidEdges(n, edges) && x < n && m2 == M2(n, edges) && m2 > 0.0
    requires arcs == Arcs(edges, x) && k == Degree(edges, x) && ValidComm(n, comm)
    requires |tot| == n && forall c: nat | c < n :: tot[c] == OthersDegree(n, edges, comm, x, c)
    ensures best == BestFor(n, edges, resolution, comm, x)
  {
    hide Best;
    hide OthersDegree;
    hide WeightTo;
    ArcsValid(n, edges, x);
    var wTo := NeighbourWeights(arcs, comm, x);
    LessNatIsTotal();
    var candidates := CollectSorted<nat>(LessNat, wTo.Keys);
    forall c: nat | c in wTo ensures c < n && wTo[c] == WeightTo(edges, comm, x, c) {
      ArcsWeight(edges, comm, x, c);
    }
    best := ScanCandidates(n, edges, resolution, m2, wTo, tot, k, comm, x, candidates, comm[x]);
  }

  /** commTot[c] is the sum of the degrees of c's members. */
  ghost predicate TotalsCorrect(n: nat, edges: seq<Edge>, comm: seq<nat>, tot: seq<real>) {
    |tot| == n && forall c: nat | c < n :: tot[c] == CommunityDegree(n, edges, comm, c)
  }

  /** One node: take it out of its community, scan the candidates, put it into the best one. */
  method MoveOne(n: nat, edges: seq<Edge>, resolution: real, m2: real, arcs: seq<Arc>, k: real,
                 comm: array<nat>, commTot: array<real>, x: nat) returns (moved: bool)
    requires ValidEdges(n, edges) && x < n && m2 == M2(n, edges) && m2 > 0.0
    requires arcs == Arcs(edges, x) && k == Degree(edges, x)
    requires ValidComm(n, comm[..]) && TotalsCorrect(n, edges, comm[..], commTot[..])
    modifies comm, commTot
    ensures ValidComm(n, comm[..]) && TotalsCorrect(n, edges, comm[..], commTot[..])
    ensures Level(comm[..], moved) == MoveNode(n, edges, resolution, old(comm[..]), x)
  {
    hide BestFor;
    hide OptimalAt;
    hide CommunityDegree;
    hide Gain;
    hide Candidates;
    hide Degree;
    hide Arcs;
    hide M2;
    if |arcs| == 0 {
      return false;
    }
    ghost var comm0 := comm[..];
    var from := comm[x];
    commTot[from] := commTot[from] - k;
    BestForProperties(n, edges, resolution, comm0, x);
    var best := ChooseBest(n, edges, resolution, m2, arcs, k, comm[..], commTot[..], x);
    comm[x] := best;
    commTot[best] := commTot[best] + k;
    moved := best != from;
    assert comm[..] == comm0[x := best];
    forall c: nat | c < n ensures commTot[c] == CommunityDegree(n, edges, comm[..], c) {
      CommunityDegreeAfterMove(n, edges, comm0, x, best, c);
    }
  }

  lemma SingletonDegree(n: nat, edges: seq<Edge>, c: nat)
    requires c < n
    ensures CommunityDegree(n, edges, Identity(n), c) == Degree(edges, c)
  {
    var zero := (v: nat) => 0.0;
    SumZero(n, zero);
    SumDelta(n, zero, MemberDegree(edges, Identity(n), c), c, Degree(edges, c));
  }

  /** One pass over all nodes, in index order. */
  method RunPass(n: nat, edges: seq<Edge>, resolution: real, m2: real, adj: array<seq<Arc>>, degree: array<real>,
                 comm: array<nat>, commTot: array<real>) returns (moved: bool)
    requires ValidEdges(n, edges) && m2 == M2(n, edges) && m2 > 0.0
    requires adj.Length == degree.Length == n && commTot != degree
    requires forall v: nat | v < n :: adj[v] == Arcs(edges, v)
    requires forall v: nat | v < n :: degree[v] == Degree(edges, v)
    requires ValidComm(n, comm[..]) && TotalsCorrect(n, edges, comm[..], commTot[..])
    modifies comm, commTot
    ensures ValidComm(n, comm[..]) && TotalsCorrect(n, edges, comm[..], commTot[..])
    ensures Level(comm[..], moved) == Pass(n, edges, resolution, old(comm[..]), n)
  {
    hide MoveNode;
    hide CommunityDegree;
    hide Degree;
    hide Arcs;
    hide M2;
    hide TotalsCorrect;
    hide ValidEdges;
    moved := false;
    for x := 0 to n
      invariant ValidComm(n, comm[..]) && TotalsCorrect(n, edges, comm[..], commTot[..])
      invariant Level(comm[..], moved) == Pass(n, edges, resolution, old(comm[..]), x)
    {
      var m := MoveOne(n, edges, resolution, m2, adj[x], degree[x], comm, commTot, x);
      moved := moved || m;
    }
  }

  method RunPasses(n: nat, edges: seq<Edge>, resolution: real, m2: real, adj: array<seq<Arc>>, degree: array<real>)
    returns (comm: seq<nat>, movedAny: bool)
    requires ValidEdges(n, edges) && m2 == M2(n, edges) && m2 > 0.0
    requires adj.Length == degree.Length == n
    requires forall v: nat | v < n :: adj[v] == Arcs(edges, v)
    requires forall v: nat | v < n :: degree[v] == Degree(edges, v)
    ensures Level(comm, movedAny) == Passes(n, edges, resolution, Identity(n), MAX_PASSES)
  {
    hide Pass;
    hide CommunityDegree;
    hide Degree;
    hide Arcs;
    hide M2;
    var commA := new nat[n](v => v);
    var commTot := new real[n](v requires 0 <= v < n reads degree => degree[v]);
    assert commA[..] == Identity(n);
    forall c: nat | c < n ensures CommunityDegree(n, edges, Identity(n), c) == Degree(edges, c) {
      SingletonDegree(n, edges, c);
    }
    movedAny := false;
    var pass, moved := 0, true;
    while pass < MAX_PASSES && moved
      invariant pass <= MAX_PASSES
      invariant ValidComm(n, commA[..]) && TotalsCorrect(n, edges, commA[..], commTot[..])
      invariant forall v: nat | v < n :: adj[v] == Arcs(edges, v)
      invariant forall v: nat | v < n :: degree[v] == Degree(edges, v)
      invariant Passes(n, edges, resolution, Identity(n), MAX_PASSES)
             == if moved then var r := Passes(n, edges, resolution, commA[..], MAX_PASSES - pass);
                              Level(r.comm, movedAny || r.moved)
                else Level(commA[..], movedAny)
    {
      moved := RunPass(n, edges, resolution, m2, adj, degree, commA, commTot);
      movedAny := movedAny || moved;
      pass := pass + 1;
    }
    comm := commA[..];
  }

  /** The local-moving phase; movedAny tells whether any node changed community. */
  method LouvainOneLevel(n: nat, edges: seq<Edge>, resolution: real) returns (comm: seq<nat>, movedAny: bool)
    requires ValidEdges(n, edges)
    ensures Level(comm, movedAny) == OneLevel(n, edges, resolution)
  {
    var adj, degree := BuildAdjacency(n, edges);
    var m2 := 0.0;
    for v := 0 to n
      invariant m2 == Sum(v, DegreeIn(edges))
    {
      m2 := m2 + degree[v];
    }
    if m2 <= 0.0 {
      return Identity(n), false;
    }
    comm, movedAny := RunPasses(n, edges, resolution, m2, adj, degree);
  }
}
