/**
 From measured column pairs to clusters of columns: partition the column graph and collect the columns of
 each community, sorted, with the clusters in the order of their alphabetically first members.
 */
module Clusters {
  import opened Common
  import opened SortedSets
  import opened WeightedGraph
  import opened Aggregation
  import opened Partition
  import opened Connectivity
  import opened ColumnGraph

  const RESOLUTION: real := 1.0

  // ---------- String order ----------

  predicate LessString(a: string, b: string) {
    if b == "" then false
    else if a == "" then true
    else if a[0] != b[0] then a[0] < b[0]
    else LessString(a[1..], b[1..])
  }

  lemma {:induction false} LessStringTrichotomy(a: string, b: string)
    ensures !LessString(a, a)
    ensures a != b ==> LessString(a, b) || LessString(b, a)
  {
    if a != "" {
      LessStringTrichotomy(a[1..], if b == "" then "" else b[1..]);
      assert a == [a[0]] + a[1..];
    }
    if b != "" {
      assert b == [b[0]] + b[1..];
    }
  }

  lemma {:induction false} LessStringTransitive(a: string, b: string, c: string)
    requires LessString(a, b) && LessString(b, c)
    ensures LessString(a, c)
  {
    if a != "" && a[0] == b[0] && b[0] == c[0] {
      LessStringTransitive(a[1..], b[1..], c[1..]);
    }
  }

  lemma SameHead(a: string, b: string, k: nat)
    requires a != "" && b != "" && k <= |a| && k <= |b|
    ensures k > 0 && a[..k] == b[..k] ==> a[0] == b[0]
  {
    if k > 0 {
      assert a[..k][0] == a[0] && b[..k][0] == b[0];
    }
  }

  /** The order of strings: at the first place where they differ, or a proper prefix first. */
  lemma {:induction false} LessStringMeaning(a: string, b: string)
    ensures LessString(a, b)
       <==> exists k: nat :: k <= |a| && k < |b| && a[..k] == b[..k] && (k == |a| || a[k] < b[k])
  {
    if b == "" {
    } else if a == "" {
      assert a[..0] == b[..0];
    } else if a[0] != b[0] {
      assert a[..0] == b[..0];
      forall k: nat | k <= |a| && k < |b| && a[..k] == b[..k] ensures k == 0 {
        SameHead(a, b, k);
      }
    } else {
      var s, t := a[1..], b[1..];
      LessStringMeaning(s, t);
      if k: nat :| k <= |s| && k < |t| && s[..k] == t[..k] && (k == |s| || s[k] < t[k]) {
        assert a[..k + 1] == [a[0]] + s[..k] && b[..k + 1] == [b[0]] + t[..k];
      }
      if k: nat :| k <= |a| && k < |b| && a[..k] == b[..k] && (k == |a| || a[k] < b[k]) {
        assert k > 0;
        assert s[..k - 1] == a[..k][1..] && t[..k - 1] == b[..k][1..];
      }
    }
  }

  lemma LessStringIsTotal()
    ensures StrictTotal<string>(LessString)
  {
    hide LessString;
    forall a, b ensures !LessString(a, a) && (a != b ==> LessString(a, b) || LessString(b, a)) {
      LessStringTrichotomy(a, b);
    }
    forall a, b, c | LessString(a, b) && LessString(b, c) ensures LessString(a, c) {
      LessStringTransitive(a, b, c);
    }
  }

  // ---------- Communities as groups of columns ----------

  ghost predicate HasLabel(names: seq<string>, labels: seq<nat>, l: nat, c: string)
    requires |labels| == |names|
  {
    exists i | 0 <= i < |names| :: names[i] == c && labels[i] == l
  }

  ghost predicate Collected(names: seq<string>, labels: seq<nat>, byLabel: map<nat, seq<string>>)
    requires |labels| == |names|
  {
    && (forall l :: l in byLabel <==> l in labels)
    && forall l, c | l in byLabel :: c in byLabel[l] <==> HasLabel(names, labels, l, c)
  }

  method CollectByLabel(names: seq<string>, labels: seq<nat>) returns (byLabel: map<nat, seq<string>>)
    requires |labels| == |names|
    ensures Collected(names, labels, byLabel)
  {
    byLabel := map[];
    for n := 0 to |names|
      invariant Collected(names[..n], labels[..n], byLabel)
    {
      hide Collected;
      var l := labels[n];
      var group := if l in byLabel then byLabel[l] else [];
      CollectedAppend(names[..n], labels[..n], byLabel, names[n], l);
      assert names[..n + 1] == names[..n] + [names[n]] && labels[..n + 1] == labels[..n] + [l];
      byLabel := byLabel[l := group + [names[n]]];
    }
    assert names[..|names|] == names && labels[..|names|] == labels;
  }

  lemma CollectedAppend(names: seq<string>, labels: seq<nat>, byLabel: map<nat, seq<string>>, c: string, l: nat)
    requires |labels| == |names| && Collected(names, labels, byLabel)
    ensures Collected(names + [c], labels + [l], byLabel[l := (if l in byLabel then byLabel[l] else []) + [c]])
  {
    hide HasLabel;
    forall k: nat, d: string
      ensures HasLabel(names + [c], labels + [l], k, d) <==> HasLabel(names, labels, k, d) || (k == l && d == c)
    {
      HasLabelAppend(names, labels, c, l, k, d);
    }
    forall d: string ensures l !in labels ==> !HasLabel(names, labels, l, d) {
      NoLabelNoMember(names, labels, l, d);
    }
  }

  lemma HasLabelAppend(names: seq<string>, labels: seq<nat>, c: string, l: nat, k: nat, d: string)
    requires |labels| == |names|
    ensures HasLabel(names + [c], labels + [l], k, d) <==> HasLabel(names, labels, k, d) || (k == l && d == c)
  {
    var names', labels' := names + [c], labels + [l];
    if k == l && d == c {
      assert names'[|names|] == d && labels'[|names|] == k;
    }
    if HasLabel(names, labels, k, d) {
      var i :| 0 <= i < |names| && names[i] == d && labels[i] == k;
      assert names'[i] == d && labels'[i] == k;
    }
  }

  lemma NoLabelNoMember(names: seq<string>, labels: seq<nat>, l: nat, c: string)
    requires |labels| == |names|
    ensures l !in labels ==> !HasLabel(names, labels, l, c)
  {
  }

  /** Every group with its columns in alphabetical order. */
  ghost predicate SortedGroups(byLabel: map<nat, seq<string>>, sorted: map<nat, seq<string>>) {
    && sorted.Keys == byLabel.Keys
    && forall l | l in sorted :: Sorted(LessString, sorted[l]) && forall c :: c in sorted[l] <==> c in byLabel[l]
  }

  method SortGroups(byLabel: map<nat, seq<string>>) returns (sorted: map<nat, seq<string>>)
    ensures SortedGroups(byLabel, sorted)
  {
    hide LessString;
    hide Sorted;
    LessStringIsTotal();
    sorted := map[];
    var rest := byLabel.Keys;
    while rest != {}
      invariant rest <= byLabel.Keys && sorted.Keys == byLabel.Keys - rest
      invariant forall l | l in sorted ::
                  Sorted(LessString, sorted[l]) && forall c :: c in sorted[l] <==> c in byLabel[l]
      decreases |rest|
    {
      var l :| l in rest;
      var group := CollectSorted<string>(LessString, set c | c in byLabel[l]);
      sorted := sorted[l := group];
      rest := rest - {l};
    }
  }

  /** Labels by their groups' first members; labels without a group come last. */
  predicate LabelLess(first: map<nat, string>, x: nat, y: nat) {
    if x in first && y in first then LessString(first[x], first[y])
    else if x in first then true
    else if y in first then false
    else x < y
  }

  function LabelOrder(first: map<nat, string>): (nat, nat) -> bool {
    (x: nat, y: nat) => LabelLess(first, x, y)
  }

  lemma LabelOrderIsTotal(first: map<nat, string>)
    requires forall x, y | x in first && y in first :: first[x] == first[y] ==> x == y
    ensures StrictTotal<nat>(LabelOrder(first))
  {
    hide LessString;
    LessStringIsTotal();
  }

  /** The groups are the communities: one per label, columns sorted, ordered by first member. */
  ghost predicate GroupsOf(names: seq<string>, labels: seq<nat>, order: seq<nat>, groups: seq<seq<string>>)
    requires |labels| == |names|
  {
    && |order| == |groups| && NoDuplicates(order) && (forall l :: l in order <==> l in labels)
    && (forall g, c | 0 <= g < |groups| :: c in groups[g] <==> HasLabel(names, labels, order[g], c))
    && (forall g | 0 <= g < |groups| :: groups[g] != [] && Sorted(LessString, groups[g]))
    && (forall g, h | 0 <= g < h < |groups| :: LessString(groups[g][0], groups[h][0]))
  }

  lemma OneLabelPerName(names: seq<string>, labels: seq<nat>, l: nat, k: nat, c: string)
    requires |labels| == |names| && NoDuplicates(names) && HasLabel(names, labels, l, c)
        && HasLabel(names, labels, k, c)
    ensures l == k
  {
    var i :| 0 <= i < |names| && names[i] == c && labels[i] == l;
    var j :| 0 <= j < |names| && names[j] == c && labels[j] == k;
    assert i == j;
  }

  lemma GroupsNotEmpty(names: seq<string>, labels: seq<nat>, byLabel: map<nat, seq<string>>, l: nat)
    requires |labels| == |names| && Collected(names, labels, byLabel) && l in byLabel
    ensures byLabel[l] != []
  {
    var i :| 0 <= i < |labels| && labels[i] == l;
    assert HasLabel(names, labels, l, names[i]);
  }

  /** The first members tell the groups apart. */
  lemma FirstMembers(names: seq<string>, labels: seq<nat>, byLabel: map<nat, seq<string>>,
                     sorted: map<nat, seq<string>>)
    requires |labels| == |names| && NoDuplicates(names) && Collected(names, labels, byLabel)
        && SortedGroups(byLabel, sorted)
    ensures forall l | l in sorted :: sorted[l] != []
    ensures forall x, y | x in sorted && y in sorted :: sorted[x][0] == sorted[y][0] ==> x == y
  {
    hide LessString;
    hide Sorted;
    hide HasLabel;
    hide NoDuplicates;
    forall l | l in sorted ensures sorted[l] != [] && HasLabel(names, labels, l, sorted[l][0]) {
      GroupsNotEmpty(names, labels, byLabel, l);
      assert byLabel[l][0] in byLabel[l];
      assert byLabel[l][0] in sorted[l];
      assert sorted[l][0] in sorted[l];
    }
    forall x, y | x in sorted && y in sorted && sorted[x][0] == sorted[y][0] ensures x == y {
      OneLabelPerName(names, labels, x, y, sorted[x][0]);
    }
  }

  method GroupColumns(names: seq<string>, labels: seq<nat>) returns (order: seq<nat>, groups: seq<seq<string>>)
    requires |labels| == |names| && NoDuplicates(names)
    ensures GroupsOf(names, labels, order, groups)
  {
    hide LessString;
    hide Sorted;
    hide HasLabel;
    hide Collected;
    hide GroupsOf;
    hide NoDuplicates;
    hide SortedGroups;
    hide StrictTotal;
    hide LabelOrder;
    var byLabel := CollectByLabel(names, labels);
    var sorted := SortGroups(byLabel);
    FirstMembers(names, labels, byLabel, sorted);
    var first := map l | l in sorted :: sorted[l][0];
    LabelOrderIsTotal(first);
    order := CollectSorted<nat>(LabelOrder(first), sorted.Keys);
    groups := seq(|order|, g requires 0 <= g < |order| => assert order[g] in order; sorted[order[g]]);
    OrderedByFirst(first, order);
    GroupsAssembled(names, labels, byLabel, sorted, order, groups);
  }

  lemma GroupsAssembled(names: seq<string>, labels: seq<nat>, byLabel: map<nat, seq<string>>,
                        sorted: map<nat, seq<string>>,
                        order: seq<nat>, groups: seq<seq<string>>)
    requires |labels| == |names| && Collected(names, labels, byLabel) && SortedGroups(byLabel, sorted)
    requires (forall l | l in sorted :: sorted[l] != []) && |groups| == |order| && NoDuplicates(order)
    requires forall l :: l in order <==> l in sorted
    requires forall g | 0 <= g < |order| :: order[g] in sorted && groups[g] == sorted[order[g]]
    requires forall g, h | 0 <= g < h < |order| :: LessString(sorted[order[g]][0], sorted[order[h]][0])
    ensures GroupsOf(names, labels, order, groups)
  {
    hide LessString;
    hide Sorted;
    hide HasLabel;
    hide NoDuplicates;
  }

  lemma OrderedByFirst(first: map<nat, string>, order: seq<nat>)
    requires Sorted(LabelOrder(first), order) && forall l | l in order :: l in first
    ensures NoDuplicates(order)
    ensures forall g, h | 0 <= g < h < |order| :: LessString(first[order[g]], first[order[h]])
  {
    hide LessString;
    forall g, h | 0 <= g < h < |order| ensures LessString(first[order[g]], first[order[h]]) && order[g] != order[h] {
      assert LabelOrder(first)(order[g], order[h]);
      assert order[g] in order && order[h] in order;
      LessStringTrichotomy(first[order[g]], first[order[g]]);
    }
  }

  // ---------- Clusters ----------

  /** A cluster under construction: the columns added, and the configured tags they carry. */
  class ClusterInfo {
    const classification: map<string, string>
    const configuredTags: seq<string>
    var tags: set<string>
    var membership: set<string>

    constructor (classification: map<string, string>, configuredTags: seq<string>)
      ensures tags == {} && membership == {} && this.classification == classification
          && this.configuredTags == configuredTags
    {
      this.classification, this.configuredTags := classification, configuredTags;
      tags, membership := {}, {};
    }

    method AddMember(column: string)
      modifies this
      ensures membership == old(membership) + {column}
      ensures tags == old(tags) + TagsOf(classification, configuredTags, {column})
    {
      for n := 0 to |configuredTags|
        invariant membership == old(membership)
        invariant tags == old(tags) + TagsOf(classification, configuredTags[..n], {column})
      {
        var tag := configuredTags[n];
        assert configuredTags[..n + 1] == configuredTags[..n] + [tag];
        if ClassOf(classification, column) == tag {
          tags := tags + {tag};
        }
      }
      assert configuredTags[..|configuredTags|] == configuredTags;
      membership := membership + {column};
    }
  }

  /** A column without a classification reads as the empty string. */
  function ClassOf(classification: map<string, string>, column: string): string {
    if column in classification then classification[column] else ""
  }

  /** The configured tags that classify one of the columns. */
  function TagsOf(classification: map<string, string>, configuredTags: seq<string>, columns: set<string>): set<string> {
    set c | c in columns && ClassOf(classification, c) in configuredTags :: ClassOf(classification, c)
  }

  /** Which tags a set of columns carries: the configured ones that classify a column, where a column without a
      classification counts as classified by the empty string. */
  lemma TagMeaning(classification: map<string, string>, configuredTags: seq<string>, columns: set<string>, tag: string)
    ensures tag in TagsOf(classification, configuredTags, columns)
       <==> && tag in configuredTags
            && exists c | c in columns ::
                 if c in classification then classification[c] == tag else tag == ""
  {
    if tag in TagsOf(classification, configuredTags, columns) {
      var c :| c in columns && ClassOf(classification, c) == tag;
      assert if c in classification then classification[c] == tag else tag == "";
    }
  }

  method BuildCluster(classification: map<string, string>, configuredTags: seq<string>, group: seq<string>)
    returns (cluster: ClusterInfo)
    ensures fresh(cluster) && cluster.membership == (set c | c in group)
    ensures cluster.tags == TagsOf(classification, configuredTags, cluster.membership)
  {
    cluster := new ClusterInfo(classification, configuredTags);
    for n := 0 to |group|
      invariant fresh(cluster) && cluster.classification == classification && cluster.configuredTags == configuredTags
      invariant cluster.membership == set c | c in group[..n]
      invariant cluster.tags == TagsOf(classification, configuredTags, cluster.membership)
    {
      assert group[..n + 1] == group[..n] + [group[n]];
      cluster.AddMember(group[n]);
    }
    assert group[..|group|] == group;
  }

  /** What the memberships promise: they are the groups of the partition's communities. */
  ghost predicate Clustering(ms: seq<Measure>, order: seq<nat>, groups: seq<seq<string>>)
  {
    GraphIsValid(ms);
    GroupsOf(Columns(ms), Labels(|Columns(ms)|, Graph(ms), RESOLUTION), order, groups)
  }

  method MakeClusters(ms: seq<Measure>, classification: map<string, string>, configuredTags: seq<string>)
    returns (clusters: seq<ClusterInfo>, ghost order: seq<nat>, ghost groups: seq<seq<string>>)
    ensures Clustering(ms, order, groups) && |clusters| == |groups|
    ensures forall k | 0 <= k < |clusters| :: fresh(clusters[k]) && clusters[k].membership == set c | c in groups[k]
    ensures forall k | 0 <= k < |clusters| ::
              clusters[k].tags == TagsOf(classification, configuredTags, clusters[k].membership)
  {
    hide GroupsOf;
    hide Labels;
    hide Graph;
    hide Columns;
    hide TagsOf;
    GraphIsValid(ms);
    var index, names := IndexColumns(ms);
    clusters := [];
    if |names| == 0 {
      order, groups := [], [];
      NoColumnsNoGroups(ms);
      return;
    }
    var edges := BuildGraph(ms, index, names);
    var labels := LouvainPartition(|names|, edges, RESOLUTION);
    var labelList, byLabel := GroupColumns(names, labels);
    order, groups := labelList, byLabel;
    for n := 0 to |byLabel|
      invariant |clusters| == n
      invariant forall k | 0 <= k < n :: fresh(clusters[k]) && clusters[k].membership == set c | c in groups[k]
      invariant forall k | 0 <= k < n ::
                  clusters[k].tags == TagsOf(classification, configuredTags, clusters[k].membership)
    {
      var cluster := BuildCluster(classification, configuredTags, byLabel[n]);
      clusters := clusters + [cluster];
    }
  }

  lemma NoColumnsNoGroups(ms: seq<Measure>)
    requires Columns(ms) == []
    ensures Clustering(ms, [], [])
  {
    hide Levels;
    hide Graph;
    GraphIsValid(ms);
    assert |Labels(0, Graph(ms), RESOLUTION)| == 0;
  }

  /** Every column of a measured pair is in exactly one cluster, and clusters hold nothing else. */
  lemma EveryColumnInOneCluster(ms: seq<Measure>, order: seq<nat>, groups: seq<seq<string>>, c: string)
    requires Clustering(ms, order, groups)
    ensures (exists m | m in ms :: Mentions(m, c)) <==> exists g | 0 <= g < |groups| :: c in groups[g]
    ensures forall g, h | 0 <= g < |groups| && 0 <= h < |groups| && c in groups[g] && c in groups[h] :: g == h
  {
    hide Labels;
    hide Graph;
    hide LessString;
    hide Mentions;
    GraphIsValid(ms);
    var names, labels := Columns(ms), Labels(|Columns(ms)|, Graph(ms), RESOLUTION);
    if c in names {
      var i :| 0 <= i < |names| && names[i] == c;
      assert HasLabel(names, labels, labels[i], c);
      assert labels[i] in labels;
      var g :| 0 <= g < |order| && order[g] == labels[i];
      assert c in groups[g];
    }
    forall g, h | 0 <= g < |groups| && 0 <= h < |groups| && c in groups[g] && c in groups[h] ensures g == h {
      OneLabelPerName(names, labels, order[g], order[h], c);
    }
  }

  lemma SharedGroup(names: seq<string>, labels: seq<nat>, order: seq<nat>, groups: seq<seq<string>>, i: nat, j: nat)
    requires |labels| == |names| && NoDuplicates(names) && GroupsOf(names, labels, order, groups) && i < |names|
        && j < |names|
    ensures (exists g | 0 <= g < |groups| :: names[i] in groups[g] && names[j] in groups[g]) <==> labels[i] == labels[j]
  {
    hide LessString;
    hide Sorted;
    hide NoDuplicates;
    var a, b := names[i], names[j];
    assert HasLabel(names, labels, labels[i], a) && HasLabel(names, labels, labels[j], b);
    if labels[i] == labels[j] {
      assert labels[i] in labels;
      var g :| 0 <= g < |order| && order[g] == labels[i];
      assert a in groups[g] && b in groups[g];
    }
    if g :| 0 <= g < |groups| && a in groups[g] && b in groups[g] {
      OneLabelPerName(names, labels, order[g], labels[i], a);
      OneLabelPerName(names, labels, order[g], labels[j], b);
    }
  }

  /** Two columns share a cluster exactly when the partition gives them one label, at resolution 1. */
  lemma SharedClusterIsSharedLabel(ms: seq<Measure>, order: seq<nat>, groups: seq<seq<string>>, i: nat, j: nat)
    requires Clustering(ms, order, groups) && i < |Columns(ms)| && j < |Columns(ms)|
    ensures ValidEdges(|Columns(ms)|, Graph(ms))
    ensures (exists g | 0 <= g < |groups| :: Columns(ms)[i] in groups[g] && Columns(ms)[j] in groups[g])
       <==> Labels(|Columns(ms)|, Graph(ms), 1.0)[i] == Labels(|Columns(ms)|, Graph(ms), 1.0)[j]
  {
    hide GroupsOf;
    hide Labels;
    hide Graph;
    hide Columns;
    GraphIsValid(ms);
    SharedGroup(Columns(ms), Labels(|Columns(ms)|, Graph(ms), RESOLUTION), order, groups, i, j);
  }

  // ---------- Clusters never bridge unrelated columns ----------

  /** Two columns that were measured together with a positive mean. */
  ghost predicate Related(ms: seq<Measure>, a: string, b: string) {
    CountOf(ms, a, b) > 0 && Mean(ms, a, b) > 0.0
  }

  ghost predicate RelatedNodes(ms: seq<Measure>, u: nat, v: nat) {
    u < |Columns(ms)| && v < |Columns(ms)| && Related(ms, Columns(ms)[u], Columns(ms)[v])
  }

  ghost predicate Chain(ms: seq<Measure>, w: seq<string>) {
    w != [] && forall k | 0 <= k < |w| - 1 :: Related(ms, w[k], w[k + 1])
  }

  lemma AdjacentIsRelated(ms: seq<Measure>, u: nat, v: nat)
    requires Adjacent(Graph(ms), u, v)
    ensures RelatedNodes(ms, u, v)
  {
    hide Graph;
    hide Columns;
    hide CountOf;
    hide SumOf;
    var e :| e in Graph(ms) && e.w > 0.0 && ((e.i == u && e.j == v) || (e.i == v && e.j == u));
    GraphExactly(ms, e);
    MeanIsSymmetric(ms, Columns(ms)[e.i], Columns(ms)[e.j]);
  }

  /** Columns in one cluster are linked by a chain of positively related columns. */
  lemma SharedClusterIsLinked(ms: seq<Measure>, order: seq<nat>, groups: seq<seq<string>>, g: nat, a: string, b: string)
    returns (chain: seq<string>)
    requires Clustering(ms, order, groups) && g < |groups| && a in groups[g] && b in groups[g]
    ensures Chain(ms, chain) && chain[0] == a && chain[|chain| - 1] == b
  {
    hide Labels;
    hide Graph;
    hide Columns;
    hide LessString;
    hide Adjacent;
    hide Related;
    GraphIsValid(ms);
    var names, edges := Columns(ms), Graph(ms);
    var labels := Labels(|names|, edges, RESOLUTION);
    var i :| 0 <= i < |names| && names[i] == a && labels[i] == order[g];
    var j :| 0 <= j < |names| && names[j] == b && labels[j] == order[g];
    SharedLabelIsConnected(|names|, edges, RESOLUTION, i, j);
    var w :| Walk(edges, w) && w[0] == i && w[|w| - 1] == j;
    forall k | 0 <= k < |w| - 1 ensures RelatedNodes(ms, w[k], w[k + 1]) {
      assert Adjacent(edges, w[k], w[k + 1]);
      AdjacentIsRelated(ms, w[k], w[k + 1]);
    }
    forall k | 0 <= k < |w| ensures w[k] < |names| {
      if k < |w| - 1 {
        assert RelatedNodes(ms, w[k], w[k + 1]);
      }
    }
    chain := seq(|w|, k requires 0 <= k < |w| => names[w[k]]);
    forall k | 0 <= k < |chain| - 1 ensures Related(ms, chain[k], chain[k + 1]) {
      assert RelatedNodes(ms, w[k], w[k + 1]);
    }
  }

  /** The clustering scores at least as well as leaving every column alone. */
  lemma ClusteringImproves(ms: seq<Measure>)
    ensures ValidEdges(|Columns(ms)|, Graph(ms))
    ensures var n, edges := |Columns(ms)|, Graph(ms);
            && |Labels(n, edges, RESOLUTION)| == n
            && (M2(n, edges) > 0.0 ==>
                  Modularity(n, edges, Labels(n, edges, RESOLUTION), RESOLUTION)
                  >= Modularity(n, edges, Identity(n), RESOLUTION))
  {
    hide Graph;
    hide Columns;
    hide Modularity;
    hide Labels;
    hide M2;
    GraphIsValid(ms);
    if M2(|Columns(ms)|, Graph(ms)) > 0.0 {
      LabelsImprove(|Columns(ms)|, Graph(ms), RESOLUTION);
    }
  }
}
