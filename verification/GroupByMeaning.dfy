/**
 The statistics of a column pair, counted in the rows: cells, groups and observations are sizes of sets of rows and
 values, and the joint n ln n is a sum over the cells. Nothing here folds groups.
 */
module GroupByMeaning {
  import opened Common
  import opened Sums
  import opened Histogram
  import opened ClusteringPool
  import opened ClusteringPoolProofs
  import opened PairScore

  // ---------- Rows ----------

  /** The row has the text t, which is not empty, in column p. */
  predicate HasText(r: Row, p: nat, t: string) {
    t != "" && p < |r| && (r[p] == Str(t) || r[p] == Other(t))
  }

  /** The row belongs to the group of v, a non-empty string in column p. */
  predicate InGroup(r: Row, p: nat, v: string) {
    v != "" && p < |r| && r[p] == Str(v)
  }

  predicate Shows(r: Row, p1: nat, p2: nat, v: string, t: string) {
    InGroup(r, p1, v) && HasText(r, p2, t)
  }

  /** The row has some text in column p. */
  predicate HasSomeText(r: Row, p: nat) {
    p < |r| && ((r[p].Str? && r[p].s != "") || (r[p].Other? && r[p].text != ""))
  }

  lemma TextMeaning(r: Row, p: nat, t: string)
    ensures HasText(r, p, t) <==> t != "" && TextAt(r, p) == t
    ensures HasSomeText(r, p) <==> TextAt(r, p) != ""
    ensures InGroup(r, p, t) <==> t != "" && GroupKeyAt(r, p) == t
  {}

  // ---------- Sets of rows ----------

  ghost function RowsShowing(rows: seq<Row>, p1: nat, p2: nat, v: string, t: string): set<nat> {
    set i: nat | i < |rows| && Shows(rows[i], p1, p2, v, t)
  }

  /** The rows of v's group that have a text in column p2. */
  ghost function GroupRows(rows: seq<Row>, p1: nat, p2: nat, v: string): set<nat> {
    set i: nat | i < |rows| && InGroup(rows[i], p1, v) && HasSomeText(rows[i], p2)
  }

  ghost function RowsWithText(rows: seq<Row>, p: nat, t: string): set<nat> {
    set i: nat | i < |rows| && HasText(rows[i], p, t)
  }

  lemma GroupRowsAppend(rows: seq<Row>, r: Row, p1: nat, p2: nat, v: string)
    ensures |GroupRows(rows + [r], p1, p2, v)|
         == |GroupRows(rows, p1, p2, v)| + (if InGroup(r, p1, v) && HasSomeText(r, p2) then 1 else 0)
  {
    hide InGroup;
    hide HasSomeText;
    var before, after := GroupRows(rows, p1, p2, v), GroupRows(rows + [r], p1, p2, v);
    assert after == before + (if InGroup(r, p1, v) && HasSomeText(r, p2) then {|rows|} else {});
    assert |rows| !in before;
  }

  lemma RowsShowingAppend(rows: seq<Row>, r: Row, p1: nat, p2: nat, v: string, t: string)
    ensures |RowsShowing(rows + [r], p1, p2, v, t)|
         == |RowsShowing(rows, p1, p2, v, t)| + (if Shows(r, p1, p2, v, t) then 1 else 0)
  {
    hide Shows;
    var before, after := RowsShowing(rows, p1, p2, v, t), RowsShowing(rows + [r], p1, p2, v, t);
    assert after == before + (if Shows(r, p1, p2, v, t) then {|rows|} else {});
    assert |rows| !in before;
  }

  lemma RowsWithTextAppend(rows: seq<Row>, r: Row, p: nat, t: string)
    ensures |RowsWithText(rows + [r], p, t)| == |RowsWithText(rows, p, t)| + (if HasText(r, p, t) then 1 else 0)
  {
    hide HasText;
    var before, after := RowsWithText(rows, p, t), RowsWithText(rows + [r], p, t);
    assert after == before + (if HasText(r, p, t) then {|rows|} else {});
    assert |rows| !in before;
  }

  /** The values of a group, counted in the rows. */
  lemma {:induction false} GroupValuesAreRows(rows: seq<Row>, p1: nat, p2: nat, v: string, t: string)
    requires v != ""
    ensures |GroupValues(rows, p1, p2, v)| == |GroupRows(rows, p1, p2, v)|
    ensures t != "" ==> Occurrences(GroupValues(rows, p1, p2, v), t) == |RowsShowing(rows, p1, p2, v, t)|
  {
    hide Texts;
    hide RowsWith;
    hide Occurrences;
    hide TextAt;
    hide GroupKeyAt;
    if rows == [] {
      NoGroupValues(p1, p2, v, t);
    } else {
      var front, r := rows[..|rows| - 1], rows[|rows| - 1];
      assert rows == front + [r];
      GroupValuesAreRows(front, p1, p2, v, t);
      RowsWithAppend(front, r, p1, v);
      TextsAppend(RowsWith(front, p1, v), r, p2);
      GroupRowsAppend(front, r, p1, p2, v);
      RowsShowingAppend(front, r, p1, p2, v, t);
      TextMeaning(r, p1, v);
      TextMeaning(r, p2, t);
      OccurrencesAppend(GroupValues(front, p1, p2, v), TextAt(r, p2), t);
    }
  }

  lemma NoGroupValues(p1: nat, p2: nat, v: string, t: string)
    ensures GroupValues([], p1, p2, v) == [] && Occurrences(GroupValues([], p1, p2, v), t) == 0
    ensures GroupRows([], p1, p2, v) == {} && RowsShowing([], p1, p2, v, t) == {}
  {}

  /** The marginal of a column counts the rows with each text. */
  lemma {:induction false} MarginalCountsRows(f: NLogN, rows: seq<Row>, p: nat, t: string)
    requires t != ""
    ensures CountIn(HistOf(f, Texts(rows, p)).counts, t) == |RowsWithText(rows, p, t)|
  {
    hide Texts;
    hide HistOf;
    hide TextAt;
    hide CountIn;
    hide Occurrences;
    HistCounts(f, Texts(rows, p), t);
    if rows == [] {
      NoTextRows(p, t);
    } else {
      var front, r := rows[..|rows| - 1], rows[|rows| - 1];
      assert rows == front + [r];
      MarginalCountsRows(f, front, p, t);
      HistCounts(f, Texts(front, p), t);
      TextsAppend(front, r, p);
      RowsWithTextAppend(front, r, p, t);
      TextMeaning(r, p, t);
      OccurrencesAppend(Texts(front, p), TextAt(r, p), t);
    }
  }

  lemma NoTextRows(p: nat, t: string)
    ensures Occurrences(Texts([], p), t) == 0 && RowsWithText([], p, t) == {}
  {}

  // ---------- Groups and cells ----------

  /** The group of v has more texts than the minimum. */
  ghost predicate Qualifies(c: Config, rows: seq<Row>, p1: nat, p2: nat, v: string) {
    v != "" && |GroupRows(rows, p1, p2, v)| > c.minCount
  }

  lemma QualifyingKeysAre(c: Config, rows: seq<Row>, p1: nat, p2: nat, v: string)
    ensures v in QualifyingKeys(c, rows, p1, p2) <==> Qualifies(c, rows, p1, p2, v)
  {
    hide Texts;
    hide RowsWith;
    hide GroupKeys;
    hide Distinct;
    hide Qualifying;
    hide GroupRows;
    GroupKeysMember(rows, p1, v);
    if v != "" {
      GroupValuesAreRows(rows, p1, p2, v, "");
      NoRowsNoTexts(p2);
    }
  }

  lemma NoRowsNoTexts(p: nat)
    ensures Texts([], p) == []
  {}

  /** The pairs of values that occur together in a qualifying group. */
  ghost predicate IsCell(c: Config, rows: seq<Row>, p1: nat, p2: nat, v: string, t: string) {
    Qualifies(c, rows, p1, p2, v) && RowsShowing(rows, p1, p2, v, t) != {}
  }

  type ValuePair = (string, string)

  ghost function PairsFor(v: string, ts: seq<string>): (r: seq<ValuePair>)
    ensures |r| == |ts| && forall i | 0 <= i < |ts| :: r[i] == (v, ts[i])
  {
    seq(|ts|, i requires 0 <= i < |ts| => (v, ts[i]))
  }

  /** The cells group by group. */
  ghost function CellList(rows: seq<Row>, p1: nat, p2: nat, ks: seq<string>): seq<ValuePair> {
    if ks == [] then []
    else
      var v := ks[|ks| - 1];
      CellList(rows, p1, p2, ks[..|ks| - 1]) + PairsFor(v, Distinct(GroupValues(rows, p1, p2, v)))
  }

  lemma {:induction false} CellListMembers(rows: seq<Row>, p1: nat, p2: nat, ks: seq<string>, v: string, t: string)
    ensures (v, t) in CellList(rows, p1, p2, ks) <==> v in ks && t in GroupValues(rows, p1, p2, v)
  {
    hide GroupValues;
    hide Distinct;
    if ks != [] {
      var front, last := ks[..|ks| - 1], ks[|ks| - 1];
      assert ks == front + [last];
      CellListMembers(rows, p1, p2, front, v, t);
      PairsMember(last, Distinct(GroupValues(rows, p1, p2, last)), v, t);
    }
  }

  lemma PairsMember(v: string, ts: seq<string>, w: string, t: string)
    ensures (w, t) in PairsFor(v, ts) <==> w == v && t in ts
  {
    var r := PairsFor(v, ts);
    if w == v && t in ts {
      var i :| 0 <= i < |ts| && ts[i] == t;
      assert r[i] == (w, t);
    }
  }

  lemma {:induction false} CellListDistinct(rows: seq<Row>, p1: nat, p2: nat, ks: seq<string>)
    requires NoDuplicates(ks)
    ensures NoDuplicates(CellList(rows, p1, p2, ks))
  {
    hide GroupValues;
    hide Distinct;
    if ks != [] {
      var front, v := ks[..|ks| - 1], ks[|ks| - 1];
      assert ks == front + [v];
      NoDuplicatesFront(front, v);
      CellListDistinct(rows, p1, p2, front);
      var a, b := CellList(rows, p1, p2, front), PairsFor(v, Distinct(GroupValues(rows, p1, p2, v)));
      forall x | x in a ensures x !in b {
        CellListMembers(rows, p1, p2, front, x.0, x.1);
        PairsMember(v, Distinct(GroupValues(rows, p1, p2, v)), x.0, x.1);
        assert x == (x.0, x.1);
      }
      JoinDistinct(a, b);
    }
  }

  lemma JoinDistinct<T>(a: seq<T>, b: seq<T>)
    requires NoDuplicates(a) && NoDuplicates(b) && forall x | x in a :: x !in b
    ensures NoDuplicates(a + b)
  {
    forall i, j | 0 <= i < j < |a + b| ensures (a + b)[i] != (a + b)[j] {
      if i < |a| <= j {
        assert a[i] in a && b[j - |a|] in b;
      }
    }
  }

  // ---------- The folded statistics ----------

  /** The number of rows that show a cell. */
  ghost function CellTerm(c: Config, rows: seq<Row>, p1: nat, p2: nat): ValuePair -> real {
    (x: ValuePair) => c.f(|RowsShowing(rows, p1, p2, x.0, x.1)|)
  }

  lemma {:induction false} TotalConcat<T>(a: seq<T>, b: seq<T>, f: T -> real)
    ensures Total(a + b, f) == Total(a, f) + Total(b, f)
  {
    hide Total;
    if b == [] {
      assert a + b == a;
      EmptyTotal(f);
    } else {
      var front, last := b[..|b| - 1], b[|b| - 1];
      TotalConcat(a, front, f);
      assert a + b == (a + front) + [last] && b == front + [last];
      TotalAppend(a + front, last, f);
      TotalAppend(front, last, f);
    }
  }

  lemma EmptyTotal<T>(f: T -> real)
    ensures Total([], f) == 0.0
  {}

  lemma {:induction false} PairsTotal(v: string, ts: seq<string>, f: ValuePair -> real, g: string -> real)
    requires forall t | t in ts :: f((v, t)) == g(t)
    ensures Total(PairsFor(v, ts), f) == Total(ts, g)
  {
    hide Total;
    if ts == [] {
      EmptyTotal(f);
      EmptyTotal(g);
      assert PairsFor(v, ts) == [];
    } else {
      var front, t := ts[..|ts| - 1], ts[|ts| - 1];
      assert ts == front + [t] && PairsFor(v, ts) == PairsFor(v, front) + [(v, t)];
      PairsTotal(v, front, f, g);
      TotalAppend(PairsFor(v, front), (v, t), f);
      TotalAppend(front, t, g);
    }
  }

  /** One group's cells and joint term. */
  lemma GroupTotal(c: Config, rows: seq<Row>, p1: nat, p2: nat, v: string)
    requires v != ""
    ensures Total(PairsFor(v, Distinct(GroupValues(rows, p1, p2, v))), CellTerm(c, rows, p1, p2))
         == DirectGroup(c, rows, p1, p2, v).nLogN
    ensures |Distinct(GroupValues(rows, p1, p2, v))| == DirectGroup(c, rows, p1, p2, v).distinct
    ensures |GroupRows(rows, p1, p2, v)| == DirectGroup(c, rows, p1, p2, v).observations
  {
    hide Total;
    hide Distinct;
    hide RowsShowing;
    hide GroupRows;
    hide Texts;
    hide RowsWith;
    var values := GroupValues(rows, p1, p2, v);
    GroupValuesAreRows(rows, p1, p2, v, "");
    forall t | t in Distinct(values)
      ensures CellTerm(c, rows, p1, p2)((v, t)) == OccurrenceTerm(c.f, values)(t)
    {
      ValuesAreTexts(rows, p1, p2, v, t);
      GroupValuesAreRows(rows, p1, p2, v, t);
    }
    PairsTotal(v, Distinct(values), CellTerm(c, rows, p1, p2), OccurrenceTerm(c.f, values));
  }

  lemma {:induction false} TextsNotEmpty(rows: seq<Row>, p: nat, t: string)
    requires t in Texts(rows, p)
    ensures t != ""
  {
    var front := rows[..|rows| - 1];
    if t in Texts(front, p) {
      TextsNotEmpty(front, p, t);
    }
  }

  lemma ValuesAreTexts(rows: seq<Row>, p1: nat, p2: nat, v: string, t: string)
    requires t in GroupValues(rows, p1, p2, v)
    ensures t != ""
  {
    hide Texts;
    TextsNotEmpty(RowsWith(rows, p1, v), p2, t);
  }

  /** The qualifying values whose group has n texts. */
  ghost function KeysOfSize(rows: seq<Row>, p1: nat, p2: nat, ks: seq<string>, n: nat): set<string> {
    set v | v in ks && |GroupRows(rows, p1, p2, v)| == n
  }

  lemma KeysOfSizeAppend(rows: seq<Row>, p1: nat, p2: nat, ks: seq<string>, v: string, n: nat)
    requires v !in ks
    ensures |KeysOfSize(rows, p1, p2, ks + [v], n)|
         == |KeysOfSize(rows, p1, p2, ks, n)| + (if |GroupRows(rows, p1, p2, v)| == n then 1 else 0)
  {
    hide GroupRows;
    var before, after := KeysOfSize(rows, p1, p2, ks, n), KeysOfSize(rows, p1, p2, ks + [v], n);
    assert after == before + (if |GroupRows(rows, p1, p2, v)| == n then {v} else {});
  }

  /** The rows of the groups of ks that have a text. */
  ghost function RowsOfGroups(rows: seq<Row>, p1: nat, p2: nat, ks: seq<string>): set<nat> {
    set i: nat | i < |rows| && HasSomeText(rows[i], p2) && GroupKeyAt(rows[i], p1) in ks
  }

  lemma RowsOfGroupsAppend(rows: seq<Row>, p1: nat, p2: nat, ks: seq<string>, v: string)
    requires v !in ks && v != ""
    ensures |RowsOfGroups(rows, p1, p2, ks + [v])| == |RowsOfGroups(rows, p1, p2, ks)| + |GroupRows(rows, p1, p2, v)|
  {
    var before, after := RowsOfGroups(rows, p1, p2, ks), RowsOfGroups(rows, p1, p2, ks + [v]);
    var group := GroupRows(rows, p1, p2, v);
    assert after == before + group && before !! group;
  }

  /** What folding the groups of a list of values amounts to. */
  ghost predicate FoldMeans(c: Config, rows: seq<Row>, p1: nat, p2: nat, ks: seq<string>, s: Stats) {
    && s.groups == |ks| && s.cells == |CellList(rows, p1, p2, ks)|
    && s.jointNLogN == Total(CellList(rows, p1, p2, ks), CellTerm(c, rows, p1, p2))
    && s.observations == |RowsOfGroups(rows, p1, p2, ks)|
    && forall n: nat :: s.groupSizes[n] == |KeysOfSize(rows, p1, p2, ks, n)|
  }

  lemma FoldStep(c: Config, rows: seq<Row>, p1: nat, p2: nat, ks: seq<string>, v: string, s: Stats)
    requires FoldMeans(c, rows, p1, p2, ks, s) && v !in ks && v != ""
    ensures FoldMeans(c, rows, p1, p2, ks + [v], AddGroup(s, DirectGroup(c, rows, p1, p2, v)))
  {
    hide Total;
    hide CellTerm;
    hide DirectGroup;
    hide GroupRows;
    hide GroupValues;
    hide Distinct;
    hide KeysOfSize;
    hide RowsOfGroups;
    var g, all := DirectGroup(c, rows, p1, p2, v), ks + [v];
    var ts := Distinct(GroupValues(rows, p1, p2, v));
    GroupTotal(c, rows, p1, p2, v);
    assert all[..|ks|] == ks;
    assert CellList(rows, p1, p2, all) == CellList(rows, p1, p2, ks) + PairsFor(v, ts);
    TotalConcat(CellList(rows, p1, p2, ks), PairsFor(v, ts), CellTerm(c, rows, p1, p2));
    RowsOfGroupsAppend(rows, p1, p2, ks, v);
    forall n: nat
      ensures |KeysOfSize(rows, p1, p2, all, n)| == AddGroup(s, g).groupSizes[n]
    {
      KeysOfSizeAppend(rows, p1, p2, ks, v, n);
    }
  }

  lemma {:induction false} FoldIsCounted(c: Config, rows: seq<Row>, p1: nat, p2: nat, ks: seq<string>,
                                         g: string -> Group)
    requires NoDuplicates(ks) && forall v | v in ks :: v != "" && g(v) == DirectGroup(c, rows, p1, p2, v)
    ensures FoldMeans(c, rows, p1, p2, ks, FoldKeys(ks, g))
  {
    hide FoldMeans;
    hide DirectGroup;
    hide AddGroup;
    if ks == [] {
      FoldOfNothing(c, rows, p1, p2);
    } else {
      var front, v := ks[..|ks| - 1], ks[|ks| - 1];
      assert ks == front + [v] && v in ks && forall x | x in front :: x in ks;
      NoDuplicatesFront(front, v);
      FoldIsCounted(c, rows, p1, p2, front, g);
      FoldStep(c, rows, p1, p2, front, v, FoldKeys(front, g));
    }
  }

  lemma FoldOfNothing(c: Config, rows: seq<Row>, p1: nat, p2: nat)
    ensures FoldMeans(c, rows, p1, p2, [], EMPTY_STATS)
  {
    hide GroupRows;
    assert RowsOfGroups(rows, p1, p2, []) == {};
    forall n: nat ensures KeysOfSize(rows, p1, p2, [], n) == {} {}
  }

  // ---------- The statistics of a pair ----------

  /** The rows that fall into a qualifying group and have a text. */
  ghost function QualifiedRows(c: Config, rows: seq<Row>, p1: nat, p2: nat): set<nat> {
    set i: nat |
      && i < |rows| && HasSomeText(rows[i], p2)
      && p1 < |rows[i]| && rows[i][p1].Str? && Qualifies(c, rows, p1, p2, rows[i][p1].s)
  }

  /** The values of the qualifying groups. */
  ghost predicate AreGroups(c: Config, rows: seq<Row>, p1: nat, p2: nat, groups: set<string>) {
    forall v :: v in groups <==> Qualifies(c, rows, p1, p2, v)
  }

  /** The cells of the qualifying groups, each once, in any order. */
  ghost predicate AreCells(c: Config, rows: seq<Row>, p1: nat, p2: nat, cells: seq<ValuePair>) {
    NoDuplicates(cells) && forall v, t :: (v, t) in cells <==> IsCell(c, rows, p1, p2, v, t)
  }

  lemma ListedCells(c: Config, rows: seq<Row>, p1: nat, p2: nat)
    ensures AreCells(c, rows, p1, p2, CellList(rows, p1, p2, QualifyingKeys(c, rows, p1, p2)))
  {
    hide QualifyingKeys;
    hide CellList;
    hide GroupValues;
    hide Qualifies;
    hide RowsShowing;
    hide Occurrences;
    var ks := QualifyingKeys(c, rows, p1, p2);
    KeysAreDistinct(c, rows, p1, p2);
    CellListDistinct(rows, p1, p2, ks);
    forall v, t ensures (v, t) in CellList(rows, p1, p2, ks) <==> IsCell(c, rows, p1, p2, v, t) {
      CellListMembers(rows, p1, p2, ks, v, t);
      QualifyingKeysAre(c, rows, p1, p2, v);
      NoEmptyText(rows, p1, p2, v, t);
      if v in ks && t != "" {
        KeysAreTexts(c, rows, p1, p2, v);
        GroupValuesAreRows(rows, p1, p2, v, t);
        OccurrencesPositive(GroupValues(rows, p1, p2, v), t);
      }
    }
  }

  lemma NoEmptyText(rows: seq<Row>, p1: nat, p2: nat, v: string, t: string)
    ensures t == "" ==> t !in GroupValues(rows, p1, p2, v) && RowsShowing(rows, p1, p2, v, t) == {}
  {
    if t in GroupValues(rows, p1, p2, v) {
      ValuesAreTexts(rows, p1, p2, v, t);
    }
  }

  lemma KeysAreTexts(c: Config, rows: seq<Row>, p1: nat, p2: nat, v: string)
    requires v in QualifyingKeys(c, rows, p1, p2)
    ensures v != ""
  {
    hide QualifyingKeys;
    hide GroupRows;
    QualifyingKeysAre(c, rows, p1, p2, v);
  }

  lemma KeysAreDistinct(c: Config, rows: seq<Row>, p1: nat, p2: nat)
    ensures NoDuplicates(QualifyingKeys(c, rows, p1, p2))
  {
    hide Qualifying;
    hide Distinct;
  }

  lemma SameRows(c: Config, rows: seq<Row>, p1: nat, p2: nat)
    ensures RowsOfGroups(rows, p1, p2, QualifyingKeys(c, rows, p1, p2)) == QualifiedRows(c, rows, p1, p2)
  {
    hide QualifyingKeys;
    hide GroupRows;
    forall v ensures v in QualifyingKeys(c, rows, p1, p2) <==> Qualifies(c, rows, p1, p2, v) {
      QualifyingKeysAre(c, rows, p1, p2, v);
    }
  }

  /**
   The statistics of a pair, for every input, counted in the rows: the observations are the rows with a text in a
   qualifying group, the groups are the qualifying values, sizes[n] of them with n such rows, the cells are the value
   pairs that occur in them, and the joint term is the sum over the cells of f(number of rows that show the cell).
   */
  lemma StatsMeaning(c: Config, rows: seq<Row>, p1: nat, p2: nat, groups: set<string>, cells: seq<ValuePair>)
    requires AreGroups(c, rows, p1, p2, groups) && AreCells(c, rows, p1, p2, cells)
    ensures var s := DirectStats(c, rows, p1, p2);
            && s.observations == |QualifiedRows(c, rows, p1, p2)|
            && s.groups == |groups|
            && (forall n: nat :: s.groupSizes[n] == |set v | v in groups && |GroupRows(rows, p1, p2, v)| == n|)
            && s.cells == |cells|
            && s.jointNLogN == Total(cells, CellTerm(c, rows, p1, p2))
  {
    hide QualifyingKeys;
    hide QualifiedRows;
    hide RowsOfGroups;
    hide CellList;
    hide CellTerm;
    hide Total;
    hide GroupRows;
    hide Qualifies;
    hide IsCell;
    hide DirectGroup;
    hide DirectStats;
    hide FoldKeys;
    var ks, g := QualifyingKeys(c, rows, p1, p2), (v: string) => DirectGroup(c, rows, p1, p2, v);
    var list := CellList(rows, p1, p2, ks);
    DirectStatsUnfold(c, rows, p1, p2);
    KeysAreDistinct(c, rows, p1, p2);
    forall v ensures v in ks <==> v in groups {
      QualifyingKeysAre(c, rows, p1, p2, v);
    }
    forall v | v in ks ensures v != "" {
      KeysAreTexts(c, rows, p1, p2, v);
    }
    FoldIsCounted(c, rows, p1, p2, ks, g);
    SameRows(c, rows, p1, p2);
    WalkLength(ks, groups);
    ListedCells(c, rows, p1, p2);
    SameCells(list, cells, CellTerm(c, rows, p1, p2));
    forall n: nat ensures KeysOfSize(rows, p1, p2, ks, n) == set v | v in groups && |GroupRows(rows, p1, p2, v)| == n {}
  }

  lemma ObservationsAreRows(c: Config, rows: seq<Row>, p1: nat, p2: nat)
    ensures DirectStats(c, rows, p1, p2).observations == |QualifiedRows(c, rows, p1, p2)|
  {
    hide QualifiedRows;
    hide DirectStats;
    hide QualifyingKeys;
    hide CellList;
    var groups := set v | v in QualifyingKeys(c, rows, p1, p2);
    forall v ensures v in groups <==> Qualifies(c, rows, p1, p2, v) {
      QualifyingKeysAre(c, rows, p1, p2, v);
    }
    ListedCells(c, rows, p1, p2);
    StatsMeaning(c, rows, p1, p2, groups, CellList(rows, p1, p2, QualifyingKeys(c, rows, p1, p2)));
  }

  lemma GroupIsQualified(c: Config, rows: seq<Row>, p1: nat, p2: nat, v: string)
    requires Qualifies(c, rows, p1, p2, v)
    ensures |QualifiedRows(c, rows, p1, p2)| > c.minCount
  {
    var group, all := GroupRows(rows, p1, p2, v), QualifiedRows(c, rows, p1, p2);
    assert group <= all;
    assert all == group + (all - group);
  }

  /** An associated pair, counted in the rows: a qualifying group has two rows, two rows have different texts in
      column2, and there are fewer cells than independence predicts. */
  lemma AssociatedMeaning(c: Config, rows: seq<Row>, p1: nat, p2: nat, cells: seq<ValuePair>)
    requires AreCells(c, rows, p1, p2, cells)
    ensures Associated(c, rows, p1, p2)
       <==> && (exists v :: Qualifies(c, rows, p1, p2, v) && |GroupRows(rows, p1, p2, v)| > 1)
            && (exists t, u :: t != u && RowsWithText(rows, p2, t) != {} && RowsWithText(rows, p2, u) != {})
            && |cells| as real < ExpectedCells(c, rows, p1, p2)
  {
    hide QualifyingKeys;
    hide DirectStats;
    hide ExpectedCells;
    hide GroupRows;
    hide RowsWithText;
    hide GroupValues;
    hide AreCells;
    hide Distinct;
    hide Texts;
    CellsOf(c, rows, p1, p2, cells);
    forall v ensures v in QualifyingKeys(c, rows, p1, p2) <==> Qualifies(c, rows, p1, p2, v) {
      QualifyingKeysAre(c, rows, p1, p2, v);
    }
    forall v | v != "" ensures |GroupValues(rows, p1, p2, v)| == |GroupRows(rows, p1, p2, v)| {
      GroupValuesAreRows(rows, p1, p2, v, "");
    }
    if HasRepeatedGroup(c, rows, p1, p2) {
      var v :| v in QualifyingKeys(c, rows, p1, p2) && |GroupValues(rows, p1, p2, v)| > 1;
      GroupHasText(c, rows, p1, p2, v);
      TwoTexts(c.f, rows, p2);
    } else {
      assert forall v | Qualifies(c, rows, p1, p2, v) :: v in QualifyingKeys(c, rows, p1, p2);
    }
  }

  lemma GroupHasText(c: Config, rows: seq<Row>, p1: nat, p2: nat, v: string)
    requires |GroupValues(rows, p1, p2, v)| > 1
    ensures Texts(rows, p2) != []
  {
    hide Texts;
    hide RowsWith;
    GroupTextsBound(rows, p1, p2, v);
  }

  /** More than one distinct text: two rows with different texts. */
  lemma TwoTexts(f: NLogN, rows: seq<Row>, p: nat)
    requires Texts(rows, p) != []
    ensures |Distinct(Texts(rows, p))| != 1
       <==> exists t, u :: t != u && RowsWithText(rows, p, t) != {} && RowsWithText(rows, p, u) != {}
  {
    hide Texts;
    hide Distinct;
    hide RowsWithText;
    var values := Texts(rows, p);
    var ds := Distinct(values);
    forall t ensures t in ds <==> RowsWithText(rows, p, t) != {} {
      TextIsInRow(f, rows, p, t);
    }
    assert values[0] in values && values[0] in ds;
    if |ds| != 1 {
      assert ds[0] != ds[1] && ds[0] in ds && ds[1] in ds;
    }
    if t, u :| t != u && RowsWithText(rows, p, t) != {} && RowsWithText(rows, p, u) != {} {
      assert t in ds && u in ds;
    }
  }

  lemma TextIsInRow(f: NLogN, rows: seq<Row>, p: nat, t: string)
    ensures t in Texts(rows, p) <==> RowsWithText(rows, p, t) != {}
  {
    hide Texts;
    hide HistOf;
    hide CountIn;
    if t == "" {
      assert RowsWithText(rows, p, t) == {};
      if t in Texts(rows, p) {
        TextsNotEmpty(rows, p, t);
      }
    } else {
      MarginalCountsRows(f, rows, p, t);
      HistCounts(f, Texts(rows, p), t);
      OccurrencesPositive(Texts(rows, p), t);
    }
  }

  lemma CellsOf(c: Config, rows: seq<Row>, p1: nat, p2: nat, cells: seq<ValuePair>)
    requires AreCells(c, rows, p1, p2, cells)
    ensures DirectStats(c, rows, p1, p2).cells == |cells|
  {
    hide DirectStats;
    hide QualifyingKeys;
    hide AreCells;
    hide GroupRows;
    var groups := set v | v in QualifyingKeys(c, rows, p1, p2);
    forall v ensures v in groups <==> Qualifies(c, rows, p1, p2, v) {
      QualifyingKeysAre(c, rows, p1, p2, v);
    }
    StatsMeaning(c, rows, p1, p2, groups, cells);
  }

  lemma SameCells(a: seq<ValuePair>, b: seq<ValuePair>, f: ValuePair -> real)
    requires NoDuplicates(a) && NoDuplicates(b) && forall v, t :: (v, t) in a <==> (v, t) in b
    ensures |a| == |b| && Total(a, f) == Total(b, f)
  {
    hide Total;
    forall x: ValuePair ensures x in a <==> x in b {
      assert x == (x.0, x.1);
    }
    TotalOfWalk(a, b, f);
    var elements := set x | x in a;
    WalkLength(a, elements);
    WalkLength(b, elements);
  }

  /** The same of the pooled statistics, at the end of every run. */
  lemma PoolStatsMeaning(c: Config, rows: seq<Row>, run: seq<Sys>, d: nat, e: nat, groups: set<string>,
                         cells: seq<ValuePair>)
    requires DistinctColumns(c) && IsRun(c, rows, run) && run[|run| - 1].scores.Read?
    requires d < |c.columns1| && e < |Evals(c, d)|
    requires AreGroups(c, rows, c.columns1[d], Evals(c, d)[e], groups)
    requires AreCells(c, rows, c.columns1[d], Evals(c, d)[e], cells)
    ensures var p1, p2 := c.columns1[d], Evals(c, d)[e];
            var s := StatsAt(run[|run| - 1].acc, (p1, p2));
            && s.observations == |QualifiedRows(c, rows, p1, p2)|
            && s.groups == |groups|
            && (forall n: nat :: s.groupSizes[n] == |set v | v in groups && |GroupRows(rows, p1, p2, v)| == n|)
            && s.cells == |cells|
            && s.jointNLogN == Total(cells, CellTerm(c, rows, p1, p2))
  {
    hide Next;
    hide AreGroups;
    hide AreCells;
    hide DirectStats;
    hide QualifiedRows;
    hide GroupRows;
    hide Total;
    hide CellTerm;
    hide Evals;
    PoolComputesGroupBy(c, rows, run, d, e);
    StatsMeaning(c, rows, c.columns1[d], Evals(c, d)[e], groups, cells);
  }
}
