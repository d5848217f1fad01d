/**
 Value histograms and the additive statistics of one column pair.

 n*ln(n) is a parameter: only its value 0 at 0 is used.
 */
module Histogram {
  import opened Common
  import opened Sums

  type NLogN = f: nat -> real | f(0) == 0.0 witness ((n: nat) => 0.0)

  /** The value counts of one column over one population, with a running sum of n*ln(n). */
  datatype Hist = Hist(counts: map<string, nat>, total: nat, sumNLog: real)

  const EMPTY_HIST := Hist(map[], 0, 0.0)

  function CountIn(counts: map<string, nat>, v: string): nat {
    if v in counts then counts[v] else 0
  }

  function AddValue(f: NLogN, h: Hist, v: string): Hist {
    var n := CountIn(h.counts, v);
    Hist(h.counts[v := n + 1], h.total + 1, h.sumNLog + (f(n + 1) - f(n)))
  }

  function HistOf(f: NLogN, values: seq<string>): Hist {
    if values == [] then EMPTY_HIST
    else AddValue(f, HistOf(f, values[..|values| - 1]), values[|values| - 1])
  }

  function Occurrences(values: seq<string>, v: string): nat {
    if values == [] then 0
    else Occurrences(values[..|values| - 1], v) + (if values[|values| - 1] == v then 1 else 0)
  }

  function OccurrenceTerm(f: NLogN, values: seq<string>): string -> real {
    (v: string) => f(Occurrences(values, v))
  }

  lemma {:induction false} OccurrencesPositive(values: seq<string>, v: string)
    ensures Occurrences(values, v) > 0 <==> v in values
  {
    if values != [] {
      assert values == values[..|values| - 1] + [values[|values| - 1]];
      OccurrencesPositive(values[..|values| - 1], v);
    }
  }

  lemma Appending(f: NLogN, front: seq<string>, last: string)
    ensures HistOf(f, front + [last]) == AddValue(f, HistOf(f, front), last)
  {
    assert (front + [last])[..|front|] == front;
  }

  lemma OccurrencesAppend(front: seq<string>, last: string, v: string)
    ensures Occurrences(front + [last], v) == Occurrences(front, v) + (if last == v then 1 else 0)
  {
    assert (front + [last])[..|front|] == front;
  }

  lemma TermAppend(f: NLogN, front: seq<string>, last: string, v: string)
    ensures OccurrenceTerm(f, front + [last])(v)
         == if v == last then f(Occurrences(front, last) + 1) else OccurrenceTerm(f, front)(v)
    ensures OccurrenceTerm(f, front)(last) == f(Occurrences(front, last))
  {
    OccurrencesAppend(front, last, v);
  }

  lemma DistinctSum(f: NLogN, front: seq<string>, last: string, n: nat)
    requires n == Occurrences(front, last)
    ensures Total(Distinct(front + [last]), OccurrenceTerm(f, front + [last]))
         == Total(Distinct(front), OccurrenceTerm(f, front)) + (f(n + 1) - f(n))
  {
    hide Occurrences;
    hide OccurrenceTerm;
    hide Distinct;
    hide Total;
    var g, g' := OccurrenceTerm(f, front), OccurrenceTerm(f, front + [last]);
    DistinctAppend(front, last);
    forall v ensures g'(v) == (if v == last then f(n + 1) else g(v)) && g(last) == f(n) {
      TermAppend(f, front, last, v);
    }
    OccurrencesPositive(front, last);
    TermAppend(f, front, last, last);
    if last in front {
      TotalDelta(Distinct(front), g, g', last, f(n + 1) - f(n));
    } else {
      TotalCongruent(Distinct(front), g, g');
      TotalAppend(Distinct(front), last, g');
    }
  }

  lemma {:induction false} HistCounts(f: NLogN, values: seq<string>, v: string)
    ensures CountIn(HistOf(f, values).counts, v) == Occurrences(values, v)
    ensures HistOf(f, values).total == |values|
  {
    if values != [] {
      HistCounts(f, values[..|values| - 1], v);
    }
  }

  /** The incremental histogram is the group-by of the values: counts, total, and the sum over distinct
      values of n*ln(n), although that sum is never recomputed. */
  lemma {:induction false} HistIsGroupBy(f: NLogN, values: seq<string>)
    ensures forall v :: CountIn(HistOf(f, values).counts, v) == Occurrences(values, v)
    ensures HistOf(f, values).total == |values|
    ensures HistOf(f, values).sumNLog == Total(Distinct(values), OccurrenceTerm(f, values))
  {
    hide HistOf;
    hide Occurrences;
    hide OccurrenceTerm;
    hide Distinct;
    hide Total;
    hide CountIn;
    forall v ensures CountIn(HistOf(f, values).counts, v) == Occurrences(values, v) {
      HistCounts(f, values, v);
    }
    HistCounts(f, values, "");
    if values == [] {
      EmptyIsGroupBy(f);
    } else {
      var front, last := values[..|values| - 1], values[|values| - 1];
      assert values == front + [last];
      HistIsGroupBy(f, front);
      Appending(f, front, last);
      DistinctSum(f, front, last, Occurrences(front, last));
      HistCounts(f, front, last);
    }
  }

  lemma EmptyIsGroupBy(f: NLogN)
    ensures HistOf(f, []).sumNLog == Total(Distinct([]), OccurrenceTerm(f, []))
  {}

  lemma {:induction false} HistKeys(f: NLogN, values: seq<string>)
    ensures forall v :: v in HistOf(f, values).counts <==> v in values
  {
    if values != [] {
      assert values == values[..|values| - 1] + [values[|values| - 1]];
      HistKeys(f, values[..|values| - 1]);
    }
  }

  lemma DistinctKeys(f: NLogN, values: seq<string>)
    ensures |HistOf(f, values).counts| == |Distinct(values)|
  {
    hide HistOf;
    hide Distinct;
    HistKeys(f, values);
    WalkLength(Distinct(values), HistOf(f, values).counts.Keys);
  }

  /** The mutable histogram the workers and the distribution goroutine update. */
  class ValueHistogram {
    const f: NLogN
    var counts: map<string, nat>
    var total: nat
    var sumNLog: real
    ghost var seen: seq<string>

    ghost predicate Valid()
      reads this
    {
      Hist(counts, total, sumNLog) == HistOf(f, seen)
    }

    constructor (f: NLogN)
      ensures Valid() && this.f == f && seen == []
    {
      this.f := f;
      counts, total, sumNLog, seen := map[], 0, 0.0, [];
    }

    method Add(value: string)
      requires Valid()
      modifies this
      ensures Valid() && seen == old(seen) + [value]
    {
      hide HistOf;
      hide Distinct;
      Appending(f, seen, value);
      var n := if value in counts then counts[value] else 0;
      sumNLog := sumNLog + (f(n + 1) - f(n));
      counts := counts[value := n + 1];
      total := total + 1;
      seen := seen + [value];
    }

    method DistinctCount() returns (n: nat)
      requires Valid()
      ensures n == |Distinct(seen)|
    {
      DistinctKeys(f, seen);
      n := |counts|;
    }

    /** The value counts, in whatever order the map is walked. */
    method Counts(order: seq<string>) returns (r: seq<nat>)
      requires Valid() && IsWalk(order, counts.Keys)
      ensures |r| == |Distinct(seen)| == |order|
      ensures forall i | 0 <= i < |r| :: r[i] == Occurrences(seen, order[i])
    {
      hide HistOf;
      r := [];
      for i := 0 to |order|
        invariant |r| == i && forall j | 0 <= j < i :: r[j] == Occurrences(seen, order[j])
      {
        HistCounts(f, seen, order[i]);
        assert order[i] in order;
        r := r + [counts[order[i]]];
      }
      WalkLength(order, counts.Keys);
      DistinctKeys(f, seen);
    }
  }

  // ---------- Pair statistics ----------

  /** What one worker reports for one column pair: the size of its group and of its column2 distribution. */
  datatype Group = Group(observations: nat, distinct: nat, nLogN: real)

  /** groupSizes counts how many groups had each size. */
  datatype Stats = Stats(observations: nat, groups: nat, cells: nat, jointNLogN: real, groupSizes: multiset<nat>)

  const EMPTY_STATS := Stats(0, 0, 0, 0.0, multiset{})

  function AddGroup(s: Stats, g: Group): Stats {
    Stats(s.observations + g.observations, s.groups + 1, s.cells + g.distinct, s.jointNLogN + g.nLogN,
          s.groupSizes + multiset{g.observations})
  }

  /** The groups of the keys ks, folded in that order. */
  function FoldKeys<K(!new)>(ks: seq<K>, g: K -> Group): Stats {
    if ks == [] then EMPTY_STATS else AddGroup(FoldKeys(ks[..|ks| - 1], g), g(ks[|ks| - 1]))
  }

  lemma FoldAppend<K(!new)>(ks: seq<K>, k: K, g: K -> Group)
    ensures FoldKeys(ks + [k], g) == AddGroup(FoldKeys(ks, g), g(k))
  {
    assert (ks + [k])[..|ks|] == ks;
  }

  lemma {:induction false} FoldMiddle<K(!new)>(a: seq<K>, k: K, b: seq<K>, g: K -> Group)
    ensures FoldKeys(a + [k] + b, g) == AddGroup(FoldKeys(a + b, g), g(k))
  {
    hide FoldKeys;
    if b == [] {
      assert a + [k] + b == a + [k] && a + b == a;
      FoldAppend(a, k, g);
    } else {
      var front, last := b[..|b| - 1], b[|b| - 1];
      FoldMiddle(a, k, front, g);
      assert a + [k] + b == (a + [k] + front) + [last] && a + b == (a + front) + [last];
      FoldAppend(a + [k] + front, last, g);
      FoldAppend(a + front, last, g);
    }
  }

  /** Folding the same set of groups gives the same statistics, whatever the order of arrival. */
  lemma {:induction false} FoldOrderIndependent<K(!new)>(a: seq<K>, b: seq<K>, g: K -> Group)
    requires NoDuplicates(a) && NoDuplicates(b) && forall k :: k in a <==> k in b
    ensures FoldKeys(a, g) == FoldKeys(b, g)
  {
    assert |b| > 0 ==> b[0] in b;
    if a != [] {
      var front, last := a[..|a| - 1], a[|a| - 1];
      assert a == front + [last];
      assert last in a && last in b;
      var i :| 0 <= i < |b| && b[i] == last;
      var b1, b2 := b[..i], b[i + 1..];
      assert b == b1 + [last] + b2;
      forall k ensures k in front <==> k in b1 + b2 {
        assert k in a <==> k in front || k == last;
        assert k in b <==> k in b1 + b2 || k == last;
      }
      FoldOrderIndependent(front, b1 + b2, g);
      FoldMiddle(b1, last, b2, g);
    }
  }
}
