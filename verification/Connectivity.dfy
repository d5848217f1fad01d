/** Nodes that share a label are joined by a walk over edges of positive weight. */
module Connectivity {
  import opened Common
  import opened SortedSets
  import opened WeightedGraph
  import opened Aggregation
  import opened LocalMoving
  import opened Partition

  ghost predicate Adjacent(edges: seq<Edge>, u: nat, v: nat) {
    exists e | e in edges :: e.w > 0.0 && ((e.i == u && e.j == v) || (e.i == v && e.j == u))
  }

  ghost predicate Walk(edges: seq<Edge>, w: seq<nat>) {
    w != [] && forall k | 0 <= k < |w| - 1 :: Adjacent(edges, w[k], w[k + 1])
  }

  ghost predicate Connected(edges: seq<Edge>, u: nat, v: nat) {
    exists w :: Walk(edges, w) && w[0] == u && w[|w| - 1] == v
  }

  /** No edge of positive weight leaves s. */
  ghost predicate Closed(edges: seq<Edge>, s: set<nat>) {
    forall e | e in edges && e.w > 0.0 :: e.i in s <==> e.j in s
  }

  /** s is a union of communities. */
  ghost predicate Saturated(comm: seq<nat>, s: set<nat>) {
    forall u: nat, v: nat | Same(comm, u, v) :: u in s ==> v in s
  }

  ghost function Component(n: nat, edges: seq<Edge>, u: nat): set<nat> {
    set v: nat | v < n && Connected(edges, u, v)
  }

  lemma ExtendWalk(edges: seq<Edge>, u: nat, v: nat, v': nat)
    requires Connected(edges, u, v) && Adjacent(edges, v, v')
    ensures Connected(edges, u, v')
  {
    var w :| Walk(edges, w) && w[0] == u && w[|w| - 1] == v;
    var w' := w + [v'];
    forall k | 0 <= k < |w'| - 1 ensures Adjacent(edges, w'[k], w'[k + 1]) {
      if k < |w| - 1 { assert w'[k] == w[k] && w'[k + 1] == w[k + 1]; }
    }
    assert Walk(edges, w');
  }

  lemma ComponentIsClosed(n: nat, edges: seq<Edge>, u: nat)
    requires ValidEdges(n, edges) && u < n
    ensures u in Component(n, edges, u) && Closed(edges, Component(n, edges, u))
  {
    assert Walk(edges, [u]);
    forall e | e in edges && e.w > 0.0
      ensures e.i in Component(n, edges, u) <==> e.j in Component(n, edges, u)
    {
      assert Adjacent(edges, e.i, e.j) && Adjacent(edges, e.j, e.i);
      if Connected(edges, u, e.i) { ExtendWalk(edges, u, e.i, e.j); }
      if Connected(edges, u, e.j) { ExtendWalk(edges, u, e.j, e.i); }
    }
  }

  lemma {:induction false} ArcStaysInside(edges: seq<Edge>, s: set<nat>, x: nat, a: Arc)
    requires Closed(edges, s) && a in Arcs(edges, x)
    ensures x in s <==> a.to in s
  {
    var front, e := edges[..|edges| - 1], edges[|edges| - 1];
    assert e in edges;
    if a in Arcs(front, x) {
      ArcStaysInside(front, s, x, a);
    }
  }

  /** A move into the community of a neighbour crosses no boundary. */
  lemma MoveKeepsSaturated(comm: seq<nat>, s: set<nat>, x: nat, y: nat)
    requires x < |comm| && y < |comm| && Saturated(comm, s) && (x in s <==> y in s)
    ensures Saturated(comm[x := comm[y]], s)
  {
    var comm' := comm[x := comm[y]];
    forall u: nat, v: nat | Same(comm', u, v) && u in s ensures v in s {
      var u', v' := if u == x then y else u, if v == x then y else v;
      assert Same(comm, u', v');
    }
  }

  lemma MoveNodeSaturated(n: nat, edges: seq<Edge>, resolution: real, comm: seq<nat>, x: nat, s: set<nat>)
    requires ValidEdges(n, edges) && ValidComm(n, comm) && x < n && M2(n, edges) > 0.0
    requires Closed(edges, s) && Saturated(comm, s)
    ensures Saturated(MoveNode(n, edges, resolution, comm, x).comm, s)
  {
    hide BestFor;
    hide Gain;
    hide OptimalAt;
    hide Arcs;
    hide M2;
    hide Saturated;
    hide Closed;
    BestForProperties(n, edges, resolution, comm, x);
    var b, arcs := BestFor(n, edges, resolution, comm, x), Arcs(edges, x);
    if b == comm[x] {
      assert comm[x := b] == comm;
    } else {
      var a :| a in arcs && comm[a.to] == b;
      ArcStaysInside(edges, s, x, a);
      MoveKeepsSaturated(comm, s, x, a.to);
    }
  }

  lemma {:induction false} PassSaturated(n: nat, edges: seq<Edge>, resolution: real, comm: seq<nat>, k: nat,
                                         s: set<nat>)
    requires ValidEdges(n, edges) && ValidComm(n, comm) && k <= n && M2(n, edges) > 0.0
    requires Closed(edges, s) && Saturated(comm, s)
    ensures Saturated(Pass(n, edges, resolution, comm, k).comm, s)
  {
    hide MoveNode;
    hide Saturated;
    hide Closed;
    if k > 0 {
      PassSaturated(n, edges, resolution, comm, k - 1, s);
      MoveNodeSaturated(n, edges, resolution, Pass(n, edges, resolution, comm, k - 1).comm, k - 1, s);
    }
  }

  lemma {:induction false} PassesSaturated(n: nat, edges: seq<Edge>, resolution: real, comm: seq<nat>, budget: nat,
                                           s: set<nat>)
    requires ValidEdges(n, edges) && ValidComm(n, comm) && M2(n, edges) > 0.0
    requires Closed(edges, s) && Saturated(comm, s)
    ensures Saturated(Passes(n, edges, resolution, comm, budget).comm, s)
    decreases budget
  {
    hide Pass;
    hide Saturated;
    hide Closed;
    if budget > 0 {
      PassSaturated(n, edges, resolution, comm, n, s);
      PassesSaturated(n, edges, resolution, Pass(n, edges, resolution, comm, n).comm, budget - 1, s);
    }
  }

  lemma OneLevelSaturated(n: nat, edges: seq<Edge>, resolution: real, s: set<nat>)
    requires ValidEdges(n, edges) && Closed(edges, s)
    ensures Saturated(OneLevel(n, edges, resolution).comm, s)
  {
    assert Saturated(Identity(n), s);
    if M2(n, edges) > 0.0 {
      PassesSaturated(n, edges, resolution, Identity(n), MAX_PASSES, s);
    }
  }

  ghost function Image(p: seq<nat>, s: set<nat>): set<nat> {
    set v: nat | v in s && v < |p| :: p[v]
  }

  /** A closed union of communities collapses onto a closed set of coarse nodes. */
  lemma ImageIsClosed(n: nat, p: seq<nat>, newN: nat, edges: seq<Edge>, s: set<nat>)
    requires ValidEdges(n, edges) && PositiveEdges(edges) && ValidMap(n, p, newN)
    requires Closed(edges, s) && Saturated(p, s)
    ensures Closed(Coarsen(p, edges), Image(p, s))
  {
    hide CoarseWeight;
    SortedKeysEnumerate(p, edges);
    var keys, coarse := Ascending<Key>(LessPair, KeySet(p, edges)), Coarsen(p, edges);
    forall c | c in coarse && c.w > 0.0 ensures c.i in Image(p, s) <==> c.j in Image(p, s) {
      var i :| 0 <= i < |coarse| && coarse[i] == c;
      assert keys[i] in keys && keys[i] in KeySet(p, edges);
      var e :| e in edges && KeyOf(p, e) == keys[i];
      InImage(p, s, e.i);
      InImage(p, s, e.j);
    }
  }

  lemma InImage(p: seq<nat>, s: set<nat>, v: nat)
    requires v < |p| && Saturated(p, s)
    ensures p[v] in Image(p, s) <==> v in s
  {
    if p[v] in Image(p, s) {
      var w: nat :| w in s && w < |p| && p[w] == p[v];
      assert Same(p, w, v);
    }
  }

  lemma RenumberSaturated(comm: seq<nat>, s: set<nat>)
    requires Saturated(comm, s)
    ensures Saturated(Renumber(comm), s)
  {
    hide Renumber;
    forall u: nat, v: nat | Same(Renumber(comm), u, v) && u in s ensures v in s {
      RenumberKeepsClasses(comm, u, v);
      assert Same(comm, u, v);
    }
  }

  lemma ComposeSaturated(q: seq<nat>, p: seq<nat>, s: set<nat>)
    requires (forall v | 0 <= v < |p| :: p[v] < |q|) && Saturated(p, s) && Saturated(q, Image(p, s))
    ensures Saturated(Compose(q, p), s)
  {
    forall u: nat, v: nat | Same(Compose(q, p), u, v) && u in s ensures v in s {
      assert Same(q, p[u], p[v]);
      InImage(p, s, u);
      InImage(p, s, v);
    }
  }

  lemma {:induction false} LevelsSaturated(n: nat, edges: seq<Edge>, resolution: real, s: set<nat>)
    requires ValidEdges(n, edges) && PositiveEdges(edges) && Closed(edges, s)
    ensures Saturated(Levels(n, edges, resolution), s)
    decreases n
  {
    hide OneLevel;
    hide Saturated;
    hide Closed;
    hide Coarsen;
    hide Image;
    var level := OneLevel(n, edges, resolution);
    OneLevelSaturated(n, edges, resolution, s);
    if !level.moved {
      IdentitySaturated(n, s);
    } else {
      var p, newN := Renumber(level.comm), |Distinct(level.comm)|;
      RenumberIsMap(n, level.comm);
      RenumberSaturated(level.comm, s);
      CoarsenPositive(n, p, newN, edges);
      ImageIsClosed(n, p, newN, edges, s);
      if newN != n {
        LevelsSaturated(newN, Coarsen(p, edges), resolution, Image(p, s));
        ComposeSaturated(Levels(newN, Coarsen(p, edges), resolution), p, s);
      }
    }
  }

  lemma IdentitySaturated(n: nat, s: set<nat>)
    ensures Saturated(Identity(n), s)
  {}

  lemma CoarsenPositive(n: nat, p: seq<nat>, newN: nat, edges: seq<Edge>)
    requires ValidEdges(n, edges) && PositiveEdges(edges) && ValidMap(n, p, newN)
    ensures ValidEdges(newN, Coarsen(p, edges)) && PositiveEdges(Coarsen(p, edges))
  {
    SortedKeysEnumerate(p, edges);
    CoarseValid(n, p, newN, edges, Ascending<Key>(LessPair, KeySet(p, edges)));
  }

  /** Nodes with the same final label lie in the same connected component. */
  lemma SharedLabelIsConnected(n: nat, edges: seq<Edge>, resolution: real, u: nat, v: nat)
    requires ValidEdges(n, edges) && PositiveEdges(edges) && u < n && v < n
    requires Labels(n, edges, resolution)[u] == Labels(n, edges, resolution)[v]
    ensures Connected(edges, u, v)
  {
    hide Levels;
    hide Renumber;
    var s := Component(n, edges, u);
    ComponentIsClosed(n, edges, u);
    LevelsSaturated(n, edges, resolution, s);
    RenumberSaturated(Levels(n, edges, resolution), s);
    assert Same(Labels(n, edges, resolution), u, v);
  }
}
