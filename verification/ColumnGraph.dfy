/**
 The weighted graph of the measured column pairs: index the columns in order of first appearance and
 average the measurements of a pair, in either direction, into one undirected edge.
 */
module ColumnGraph {
  import opened Common
  import opened Sums
  import opened SortedSets
  import opened WeightedGraph
  import opened Aggregation

  /** One measured pair, with the weight its score gives it. */
  datatype Measure = Measure(column1: string, column2: string, weight: real)

  // ---------- Columns ----------

  predicate Mentions(m: Measure, c: string) {
    m.column1 == c || m.column2 == c
  }

  /** Every column of every measurement, as they come. */
  function ColumnList(ms: seq<Measure>): seq<string> {
    if ms == [] then []
    else ColumnList(ms[..|ms| - 1]) + [ms[|ms| - 1].column1] + [ms[|ms| - 1].column2]
  }

  lemma {:induction false} ColumnListMember(ms: seq<Measure>, c: string)
    ensures c in ColumnList(ms) <==> Mentioned(ms, c)
  {
    if ms != [] {
      var front, m := ms[..|ms| - 1], ms[|ms| - 1];
      assert ms == front + [m];
      ColumnListMember(front, c);
      MentionedAppend(front, m);
    }
  }

  /** The columns in order of first appearance. */
  function Columns(ms: seq<Measure>): (names: seq<string>)
    ensures NoDuplicates(names)
    ensures forall c :: c in names <==> Mentioned(ms, c)
  {
    assert forall c :: c in ColumnList(ms) <==> Mentioned(ms, c) by {
      forall c ensures c in ColumnList(ms) <==> Mentioned(ms, c) {
        ColumnListMember(ms, c);
      }
    }
    Distinct(ColumnList(ms))
  }

  ghost predicate Mentioned(ms: seq<Measure>, c: string) {
    exists m | m in ms :: Mentions(m, c)
  }

  lemma MentionedAppend(front: seq<Measure>, m: Measure)
    ensures forall c :: Mentioned(front + [m], c) <==> Mentioned(front, c) || m.column1 == c || m.column2 == c
  {
    var ms := front + [m];
    assert m in ms && forall x :: x in ms <==> x in front || x == m;
  }

  /** The index is the inverse of the list of names. */
  ghost predicate Indexes(index: map<string, nat>, names: seq<string>) {
    && (forall c :: c in index <==> c in names)
    && forall c | c in index :: index[c] < |names| && names[index[c]] == c
  }

  method Add(index: map<string, nat>, names: seq<string>, c: string, ghost list: seq<string>)
    returns (index': map<string, nat>, names': seq<string>)
    requires Indexes(index, names) && names == Distinct(list)
    ensures Indexes(index', names') && names' == Distinct(list + [c])
  {
    hide Distinct;
    DistinctAppend(list, c);
    index', names' := index, names;
    if c !in index {
      index' := index[c := |names|];
      names' := names + [c];
    }
  }

  method IndexColumns(ms: seq<Measure>) returns (index: map<string, nat>, names: seq<string>)
    ensures names == Columns(ms) && Indexes(index, names)
  {
    index, names := map[], [];
    for n := 0 to |ms|
      invariant names == Distinct(ColumnList(ms[..n])) && Indexes(index, names)
    {
      hide Indexes;
      hide Distinct;
      var m := ms[n];
      ghost var list := ColumnList(ms[..n]);
      assert ms[..n + 1][..n] == ms[..n];
      index, names := Add(index, names, m.column1, list);
      index, names := Add(index, names, m.column2, list + [m.column1]);
    }
    assert ms[..|ms|] == ms;
  }

  // ---------- The undirected graph ----------

  /** A measurement of the pair {a, b}, in either direction. */
  predicate Joins(m: Measure, a: string, b: string) {
    a != b && ((m.column1 == a && m.column2 == b) || (m.column1 == b && m.column2 == a))
  }

  function SumOf(ms: seq<Measure>, a: string, b: string): real {
    if ms == [] then 0.0
    else SumOf(ms[..|ms| - 1], a, b) + (if Joins(ms[|ms| - 1], a, b) then ms[|ms| - 1].weight else 0.0)
  }

  function CountOf(ms: seq<Measure>, a: string, b: string): nat {
    if ms == [] then 0
    else CountOf(ms[..|ms| - 1], a, b) + (if Joins(ms[|ms| - 1], a, b) then 1 else 0)
  }

  /** The mean of all measurements of a pair, whichever way they were taken. */
  function Mean(ms: seq<Measure>, a: string, b: string): real
    requires CountOf(ms, a, b) > 0
  {
    SumOf(ms, a, b) / CountOf(ms, a, b) as real
  }

  function WeightOf(a: string, b: string): Measure -> real {
    (m: Measure) =>
      if a != b && ((m.column1 == a && m.column2 == b) || (m.column1 == b && m.column2 == a)) then m.weight else 0.0
  }

  ghost function Measurements(ms: seq<Measure>, a: string, b: string): set<nat> {
    set i: nat | i < |ms| && IsMeasurementOf(ms[i], a, b)
  }

  /** A measurement of two different columns, named in either order. */
  ghost predicate IsMeasurementOf(m: Measure, a: string, b: string) {
    {m.column1, m.column2} == {a, b} && a != b
  }

  lemma {:induction false} SumIsTotal(ms: seq<Measure>, a: string, b: string)
    ensures SumOf(ms, a, b) == Total(ms, WeightOf(a, b))
  {
    if ms != [] {
      SumIsTotal(ms[..|ms| - 1], a, b);
    }
  }

  lemma {:induction false} CountIsSize(ms: seq<Measure>, a: string, b: string)
    ensures CountOf(ms, a, b) == |Measurements(ms, a, b)|
  {
    hide Joins;
    hide IsMeasurementOf;
    if ms != [] {
      var front, m := ms[..|ms| - 1], ms[|ms| - 1];
      assert ms == front + [m];
      CountIsSize(front, a, b);
      SamePair(m, a, b);
      var before, after := Measurements(front, a, b), Measurements(ms, a, b);
      assert after == before + (if Joins(m, a, b) then {|front|} else {});
      assert |front| !in before;
    }
  }

  /** The weight of a pair is the average of its measurements, whichever column was named first. */
  lemma MeanIsAverage(ms: seq<Measure>, a: string, b: string)
    requires Measurements(ms, a, b) != {}
    ensures CountOf(ms, a, b) > 0
    ensures Mean(ms, a, b) * |Measurements(ms, a, b)| as real == Total(ms, WeightOf(a, b))
  {
    hide CountOf;
    hide SumOf;
    hide Measurements;
    hide Total;
    SumIsTotal(ms, a, b);
    CountIsSize(ms, a, b);
    TimesQuotient(SumOf(ms, a, b), CountOf(ms, a, b) as real);
  }

  lemma SamePair(m: Measure, a: string, b: string)
    ensures Joins(m, a, b) <==> IsMeasurementOf(m, a, b)
  {
    if IsMeasurementOf(m, a, b) {
      assert a in {m.column1, m.column2} && b in {m.column1, m.column2};
    }
  }

  lemma TimesQuotient(x: real, y: real)
    requires y > 0.0
    ensures x / y * y == x
  {}

  lemma PairAppend(ms: seq<Measure>, m: Measure, a: string, b: string)
    ensures SumOf(ms + [m], a, b) == SumOf(ms, a, b) + (if Joins(m, a, b) then m.weight else 0.0)
    ensures CountOf(ms + [m], a, b) == CountOf(ms, a, b) + (if Joins(m, a, b) then 1 else 0)
  {
    assert (ms + [m])[..|ms|] == ms;
  }

  /** Which way a pair was measured does not matter. */
  lemma {:induction false} MeanIsSymmetric(ms: seq<Measure>, a: string, b: string)
    ensures SumOf(ms, a, b) == SumOf(ms, b, a) && CountOf(ms, a, b) == CountOf(ms, b, a)
  {
    if ms != [] {
      MeanIsSymmetric(ms[..|ms| - 1], a, b);
    }
  }

  predicate IsKey(names: seq<string>, ms: seq<Measure>, k: Key) {
    k.0 < k.1 < |names| && CountOf(ms, names[k.0], names[k.1]) > 0
  }

  ghost predicate Accumulated(names: seq<string>, ms: seq<Measure>, sum: map<Key, real>, count: map<Key, nat>) {
    && sum.Keys == count.Keys
    && (forall k: Key :: k in sum <==> IsKey(names, ms, k))
    && forall k | k in sum ::
         sum[k] == SumOf(ms, names[k.0], names[k.1]) && count[k] == CountOf(ms, names[k.0], names[k.1])
  }

  function KeyOf(i: nat, j: nat): Key {
    if i > j then (j, i) else (i, j)
  }

  lemma JoinsIsKey(names: seq<string>, m: Measure, i: nat, j: nat, k: Key)
    requires NoDuplicates(names) && i < |names| && j < |names| && names[i] == m.column1 && names[j] == m.column2
    requires k.0 < k.1 < |names|
    ensures Joins(m, names[k.0], names[k.1]) <==> k == KeyOf(i, j)
  {
  }

  lemma NotAccumulatedIsZero(ms: seq<Measure>, a: string, b: string)
    requires CountOf(ms, a, b) == 0
    ensures SumOf(ms, a, b) == 0.0
  {
  }

  lemma EmptyAccumulated(names: seq<string>)
    ensures Accumulated(names, [], map[], map[])
  {
  }

  method AddMeasure(names: seq<string>, ghost ms: seq<Measure>, m: Measure, i: nat, j: nat, sum: map<Key, real>,
                    count: map<Key, nat>)
    returns (sum': map<Key, real>, count': map<Key, nat>)
    requires NoDuplicates(names) && i < |names| && j < |names| && names[i] == m.column1 && names[j] == m.column2
    requires Accumulated(names, ms, sum, count)
    ensures Accumulated(names, ms + [m], sum', count')
  {
    hide SumOf;
    hide CountOf;
    hide Joins;
    hide KeyOf;
    hide NoDuplicates;
    forall k: Key | k.0 < k.1 < |names|
      ensures SumOf(ms + [m], names[k.0], names[k.1])
           == SumOf(ms, names[k.0], names[k.1]) + (if k == KeyOf(i, j) then m.weight else 0.0)
      ensures CountOf(ms + [m], names[k.0], names[k.1])
           == CountOf(ms, names[k.0], names[k.1]) + (if k == KeyOf(i, j) then 1 else 0)
    {
      PairAppend(ms, m, names[k.0], names[k.1]);
      JoinsIsKey(names, m, i, j, k);
    }
    sum', count' := sum, count;
    KeyIsOrdered(i, j);
    if i == j {
      return;
    }
    var key := KeyOf(i, j);
    if CountOf(ms, names[key.0], names[key.1]) == 0 {
      NotAccumulatedIsZero(ms, names[key.0], names[key.1]);
    }
    var s := if key in sum then sum[key] else 0.0;
    var c := if key in count then count[key] else 0;
    sum' := sum[key := s + m.weight];
    count' := count[key := c + 1];
  }

  lemma KeyIsOrdered(i: nat, j: nat)
    ensures KeyOf(i, j).0 <= KeyOf(i, j).1 && (KeyOf(i, j).0 == KeyOf(i, j).1 <==> i == j)
    ensures KeyOf(i, j).0 == i || KeyOf(i, j).0 == j
    ensures KeyOf(i, j).1 == i || KeyOf(i, j).1 == j
  {
  }

  /** The measured pairs of columns, as index pairs. */
  ghost function Keys(ms: seq<Measure>): set<Key> {
    var names := Columns(ms);
    set i: nat, j: nat | i < |names| && j < |names| && IsKey(names, ms, (i, j)) :: (i, j)
  }

  /** One edge per key whose mean weight is positive. */
  function EdgesFor(names: seq<string>, ms: seq<Measure>, keys: seq<Key>): seq<Edge>
    requires forall k | k in keys :: IsKey(names, ms, k)
  {
    if keys == [] then []
    else
      var front, k := EdgesFor(names, ms, keys[..|keys| - 1]), keys[|keys| - 1];
      assert k in keys && IsKey(names, ms, k);
      var w := Mean(ms, names[k.0], names[k.1]);
      if w > 0.0 then front + [Edge(k.0, k.1, w)] else front
  }

  ghost function Graph(ms: seq<Measure>): seq<Edge> {
    LessPairIsTotal();
    EdgesFor(Columns(ms), ms, Ascending<Key>(LessPair, Keys(ms)))
  }

  lemma {:induction false} EdgesForExactly(names: seq<string>, ms: seq<Measure>, keys: seq<Key>, e: Edge)
    requires forall k | k in keys :: IsKey(names, ms, k)
    ensures e in EdgesFor(names, ms, keys)
       <==> (e.i, e.j) in keys && e.w == Mean(ms, names[e.i], names[e.j]) && e.w > 0.0
  {
    hide IsKey;
    hide Mean;
    if keys != [] {
      var front, k := keys[..|keys| - 1], keys[|keys| - 1];
      assert keys == front + [k];
      EdgesForExactly(names, ms, front, e);
    }
  }

  /** The graph holds exactly the measured pairs of distinct columns whose mean weight is positive. */
  lemma GraphExactly(ms: seq<Measure>, e: Edge)
    ensures var names := Columns(ms);
            e in Graph(ms) <==> && e.i < e.j < |names| && CountOf(ms, names[e.i], names[e.j]) > 0
                                && e.w == Mean(ms, names[e.i], names[e.j]) && e.w > 0.0
  {
    hide CountOf;
    hide Mean;
    hide Columns;
    LessPairIsTotal();
    EdgesForExactly(Columns(ms), ms, Ascending<Key>(LessPair, Keys(ms)), e);
  }

  lemma GraphIsValid(ms: seq<Measure>)
    ensures ValidEdges(|Columns(ms)|, Graph(ms)) && PositiveEdges(Graph(ms))
  {
    hide Graph;
    hide Columns;
    forall e | e in Graph(ms) ensures e.j < |Columns(ms)| && e.i < |Columns(ms)| && e.w > 0.0 {
      GraphExactly(ms, e);
    }
  }

  method BuildGraph(ms: seq<Measure>, index: map<string, nat>, names: seq<string>) returns (edges: seq<Edge>)
    requires names == Columns(ms) && Indexes(index, names)
    ensures edges == Graph(ms)
  {
    hide Accumulated;
    hide Columns;
    hide NoDuplicates;
    hide IsKey;
    hide CountOf;
    var sum: map<Key, real>, count: map<Key, nat> := map[], map[];
    EmptyAccumulated(names);
    for n := 0 to |ms|
      invariant Accumulated(names, ms[..n], sum, count)
    {
      var m := ms[n];
      assert ms[..n + 1] == ms[..n] + [m];
      assert m in ms && Mentions(m, m.column1) && Mentions(m, m.column2);
      sum, count := AddMeasure(names, ms[..n], m, index[m.column1], index[m.column2], sum, count);
    }
    assert ms[..|ms|] == ms;
    LessPairIsTotal();
    KeysAreAccumulated(ms, sum, count);
    var keys := CollectSorted<Key>(LessPair, sum.Keys);
    edges := CollectEdges(names, ms, keys, sum, count);
  }

  lemma KeysAreAccumulated(ms: seq<Measure>, sum: map<Key, real>, count: map<Key, nat>)
    requires Accumulated(Columns(ms), ms, sum, count)
    ensures sum.Keys == count.Keys == Keys(ms)
    ensures forall k | k in sum :: IsKey(Columns(ms), ms, k) && count[k] > 0
                                   && sum[k] / count[k] as real == Mean(ms, Columns(ms)[k.0], Columns(ms)[k.1])
  {
    hide CountOf;
    hide SumOf;
    hide Columns;
    assert forall k: Key :: k == (k.0, k.1);
  }

  method CollectEdges(names: seq<string>, ghost ms: seq<Measure>, keys: seq<Key>, sum: map<Key, real>,
                      count: map<Key, nat>)
    returns (edges: seq<Edge>)
    requires forall k | k in keys :: k in sum && k in count && IsKey(names, ms, k) && count[k] > 0
    requires forall k | k in keys && IsKey(names, ms, k) ::
               sum[k] / count[k] as real == Mean(ms, names[k.0], names[k.1])
    ensures edges == EdgesFor(names, ms, keys)
  {
    hide Mean;
    hide IsKey;
    edges := [];
    for n := 0 to |keys|
      invariant edges == EdgesFor(names, ms, keys[..n])
    {
      var k := keys[n];
      assert k in keys && keys[..n + 1][..n] == keys[..n];
      var w := sum[k] / count[k] as real;
      if w > 0.0 {
        edges := edges + [Edge(k.0, k.1, w)];
      }
    }
    assert keys[..|keys|] == keys;
  }
}
