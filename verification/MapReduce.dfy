/**
 The map_reduce column: rows are grouped by key and each group is aggregated into an intermediate row;
 then the intermediate rows are aggregated, in whatever order the key map is walked.
 */
module MapReduce {
  import opened Common
  import opened ColumnAggregates

  /** Where the key comes from: a column, or an alternate key for the rows where that column is absent. */
  datatype KeySpec = KeySpec(mapOn: nat, alternate: Option<Row -> string>)

  function KeyOf(spec: KeySpec, row: Row): string {
    var cell := if spec.mapOn < |row| then row[spec.mapOn] else Nil;
    if cell.Nil? then (if spec.alternate.Some? then spec.alternate.value(row) else "") else TextOf(cell)
  }

  function EmptyRow(n: nat): Row {
    seq(n, _ => Nil)
  }

  predicate DistinctOutputs(evals: seq<ColumnEval>) {
    forall i, j | 0 <= i < j < |evals| :: evals[i].outputPos != evals[j].outputPos
  }

  ghost predicate OutputsFit(evals: seq<ColumnEval>, width: nat) {
    forall e | e in evals :: e.outputPos < width
  }

  /** Every evaluator in turn on one row. */
  function UpdateRow(evals: seq<ColumnEval>, cur: Row, row: Row): (r: Option<Row>)
    requires OutputsFit(evals, |cur|)
    ensures r.Some? ==> |r.value| == |cur|
  {
    if evals == [] then Some(cur)
    else
      var e := evals[|evals| - 1];
      match UpdateRow(evals[..|evals| - 1], cur, row)
      case None => None
      case Some(next) =>
        match UpdateCell(e, next[e.outputPos], row)
        case None => None
        case Some(c) => Some(next[e.outputPos := c])
  }

  function DoneRow(evals: seq<ColumnEval>, cur: Row): (r: Option<Row>)
    requires OutputsFit(evals, |cur|)
    ensures r.Some? ==> |r.value| == |cur|
  {
    if evals == [] then Some(cur)
    else
      var e := evals[|evals| - 1];
      match DoneRow(evals[..|evals| - 1], cur)
      case None => None
      case Some(next) =>
        match DoneCell(e, next[e.outputPos])
        case None => None
        case Some(c) => Some(next[e.outputPos := c])
  }

  ghost predicate Fits(values: map<string, Row>, evals: seq<ColumnEval>, width: nat) {
    OutputsFit(evals, width) && forall k | k in values :: |values[k]| == width
  }

  /** The intermediate rows after one more input row. */
  function Grow(spec: KeySpec, evals: seq<ColumnEval>, width: nat, values: map<string, Row>,
                row: Row): (r: Option<map<string, Row>>)
    requires Fits(values, evals, width)
    ensures r.Some? ==> Fits(r.value, evals, width)
  {
    var key := KeyOf(spec, row);
    if key == "" then Some(values)
    else match UpdateRow(evals, if key in values then values[key] else EmptyRow(width), row)
      case None => None
      case Some(next) => Some(values[key := next])
  }

  /** The intermediate rows after all input rows. */
  function Grouped(spec: KeySpec, evals: seq<ColumnEval>, width: nat, rows: seq<Row>): (r: Option<map<string, Row>>)
    requires OutputsFit(evals, width)
    ensures r.Some? ==> Fits(r.value, evals, width)
  {
    if rows == [] then Some(map[])
    else match Grouped(spec, evals, width, rows[..|rows| - 1])
      case None => None
      case Some(values) => Grow(spec, evals, width, values, rows[|rows| - 1])
  }

  /** The intermediate rows closed and reduced in a given key order. */
  function Reduced(mapEvals: seq<ColumnEval>, reduceEvals: seq<ColumnEval>, width: nat, values: map<string, Row>,
                   order: seq<string>, cur: Row): (r: Option<Row>)
    requires Fits(values, mapEvals, width) && OutputsFit(reduceEvals, |cur|)
    requires forall k | k in order :: k in values
    ensures r.Some? ==> |r.value| == |cur|
  {
    if order == [] then Some(cur)
    else
      var key := order[|order| - 1];
      match Reduced(mapEvals, reduceEvals, width, values, order[..|order| - 1], cur)
      case None => None
      case Some(next) =>
        match DoneRow(mapEvals, values[key])
        case None => None
        case Some(finished) => UpdateRow(reduceEvals, next, finished)
  }

  /** The output row of the whole map_reduce. */
  function Output(mapEvals: seq<ColumnEval>, reduceEvals: seq<ColumnEval>, width: nat, values: map<string, Row>,
                  order: seq<string>, cur: Row): Option<Row>
    requires Fits(values, mapEvals, width) && OutputsFit(reduceEvals, |cur|)
    requires forall k | k in order :: k in values
  {
    match Reduced(mapEvals, reduceEvals, width, values, order, cur)
    case None => None
    case Some(next) => DoneRow(reduceEvals, next)
  }

  // ---------- One evaluator among several ----------

  lemma {:induction false} UpdateRowAt(evals: seq<ColumnEval>, cur: Row, row: Row, i: nat)
    requires OutputsFit(evals, |cur|) && DistinctOutputs(evals) && i < |evals|
    requires UpdateRow(evals, cur, row).Some?
    ensures UpdateCell(evals[i], cur[evals[i].outputPos], row)
         == Some(UpdateRow(evals, cur, row).value[evals[i].outputPos])
  {
    hide UpdateCell;
    var front, e := evals[..|evals| - 1], evals[|evals| - 1];
    if i < |front| {
      UpdateRowAt(front, cur, row, i);
      assert front[i] == evals[i];
    } else {
      UpdateRowElsewhere(front, cur, row, e.outputPos);
    }
  }

  lemma {:induction false} UpdateRowElsewhere(evals: seq<ColumnEval>, cur: Row, row: Row, p: nat)
    requires OutputsFit(evals, |cur|) && p < |cur| && forall e | e in evals :: e.outputPos != p
    requires UpdateRow(evals, cur, row).Some?
    ensures UpdateRow(evals, cur, row).value[p] == cur[p]
  {
    hide UpdateCell;
    if evals != [] {
      UpdateRowElsewhere(evals[..|evals| - 1], cur, row, p);
    }
  }

  lemma {:induction false} DoneRowAt(evals: seq<ColumnEval>, cur: Row, i: nat)
    requires OutputsFit(evals, |cur|) && DistinctOutputs(evals) && i < |evals|
    requires DoneRow(evals, cur).Some?
    ensures DoneCell(evals[i], cur[evals[i].outputPos]) == Some(DoneRow(evals, cur).value[evals[i].outputPos])
  {
    hide DoneCell;
    var front, e := evals[..|evals| - 1], evals[|evals| - 1];
    if i < |front| {
      DoneRowAt(front, cur, i);
      assert front[i] == evals[i];
    } else {
      DoneRowElsewhere(front, cur, e.outputPos);
    }
  }

  lemma {:induction false} DoneRowElsewhere(evals: seq<ColumnEval>, cur: Row, p: nat)
    requires OutputsFit(evals, |cur|) && p < |cur| && forall e | e in evals :: e.outputPos != p
    requires DoneRow(evals, cur).Some?
    ensures DoneRow(evals, cur).value[p] == cur[p]
  {
    hide DoneCell;
    if evals != [] {
      DoneRowElsewhere(evals[..|evals| - 1], cur, p);
    }
  }

  // ---------- The map side is a group-by ----------

  /** The rows whose key is one of the given keys, in order. */
  function RowsWith(spec: KeySpec, keys: set<string>, rows: seq<Row>): (r: seq<Row>)
    ensures forall x | x in r :: x in rows
  {
    if rows == [] then []
    else
      var front, last := RowsWith(spec, keys, rows[..|rows| - 1]), rows[|rows| - 1];
      if KeyOf(spec, last) in keys then front + [last] else front
  }

  /** The non-empty keys of the rows. */
  function KeysOf(spec: KeySpec, rows: seq<Row>): (r: set<string>)
    ensures "" !in r
  {
    set r | r in rows && KeyOf(spec, r) != "" :: KeyOf(spec, r)
  }

  lemma KeysAppend(spec: KeySpec, rows: seq<Row>, row: Row)
    ensures KeysOf(spec, rows + [row])
         == KeysOf(spec, rows) + (if KeyOf(spec, row) == "" then {} else {KeyOf(spec, row)})
  {
    hide KeyOf;
  }

  lemma {:induction false} NoRowsForNewKey(spec: KeySpec, rows: seq<Row>, k: string)
    requires forall r | r in rows :: KeyOf(spec, r) != k
    ensures RowsWith(spec, {k}, rows) == []
  {
    hide KeyOf;
    if rows != [] {
      NoRowsForNewKey(spec, rows[..|rows| - 1], k);
    }
  }

  lemma GroupedAppend(spec: KeySpec, evals: seq<ColumnEval>, width: nat, front: seq<Row>, row: Row)
    requires OutputsFit(evals, width) && Grouped(spec, evals, width, front + [row]).Some?
    ensures Grouped(spec, evals, width, front).Some?
    ensures Grouped(spec, evals, width, front + [row])
         == Grow(spec, evals, width, Grouped(spec, evals, width, front).value, row)
  {
    hide Grow;
    assert (front + [row])[..|front|] == front;
  }

  lemma RowsWithAppend(spec: KeySpec, keys: set<string>, front: seq<Row>, row: Row)
    ensures RowsWith(spec, keys, front + [row])
         == if KeyOf(spec, row) in keys then RowsWith(spec, keys, front) + [row] else RowsWith(spec, keys, front)
  {
    hide KeyOf;
    assert (front + [row])[..|front|] == front;
  }

  /** A row changes no intermediate row but its own key's. */
  lemma GrowElsewhere(spec: KeySpec, evals: seq<ColumnEval>, width: nat, before: map<string, Row>, row: Row)
    requires Fits(before, evals, width) && Grow(spec, evals, width, before, row).Some?
    ensures var after, key := Grow(spec, evals, width, before, row).value, KeyOf(spec, row);
            && after.Keys == before.Keys + (if key == "" then {} else {key})
            && forall k | k in before && k != key :: after[k] == before[k]
  {
    hide UpdateRow;
    hide KeyOf;
  }

  /** There is one intermediate row per non-empty key, and its cells are the aggregates of that key's rows. */
  lemma {:induction false} GroupedIsGroupBy(spec: KeySpec, evals: seq<ColumnEval>, width: nat, rows: seq<Row>)
    requires OutputsFit(evals, width) && DistinctOutputs(evals) && Grouped(spec, evals, width, rows).Some?
    ensures Grouped(spec, evals, width, rows).value.Keys == KeysOf(spec, rows)
    ensures forall k, i | k in Grouped(spec, evals, width, rows).value && 0 <= i < |evals| ::
              Fold(evals[i], Nil, RowsWith(spec, {k}, rows))
                == Some(Grouped(spec, evals, width, rows).value[k][evals[i].outputPos])
  {
    hide KeyOf;
    hide UpdateRow;
    hide KeysOf;
    hide Fold;
    hide Grow;
    hide RowsWith;
    if rows == [] {
      NoKeys(spec);
    } else {
      hide Grouped;
      var front, row := rows[..|rows| - 1], rows[|rows| - 1];
      assert rows == front + [row];
      GroupedAppend(spec, evals, width, front, row);
      GroupedIsGroupBy(spec, evals, width, front);
      KeysAppend(spec, front, row);
      var before, after := Grouped(spec, evals, width, front).value, Grouped(spec, evals, width, rows).value;
      GrowElsewhere(spec, evals, width, before, row);
      forall k, i | k in after && 0 <= i < |evals|
        ensures Fold(evals[i], Nil, RowsWith(spec, {k}, rows)) == Some(after[k][evals[i].outputPos])
      {
        RowsWithAppend(spec, {k}, front, row);
        if k == KeyOf(spec, row) {
          GrownCell(spec, evals, width, front, before, row, i);
        }
      }
    }
  }

  lemma NoKeys(spec: KeySpec)
    ensures KeysOf(spec, []) == {}
  {
    hide KeyOf;
  }

  lemma GrownCell(spec: KeySpec, evals: seq<ColumnEval>, width: nat, front: seq<Row>, before: map<string, Row>,
                  row: Row, i: nat)
    requires Fits(before, evals, width) && DistinctOutputs(evals) && i < |evals| && KeyOf(spec, row) != ""
    requires before.Keys == KeysOf(spec, front) && Grow(spec, evals, width, before, row).Some?
    requires KeyOf(spec, row) in before ==>
               Fold(evals[i], Nil, RowsWith(spec, {KeyOf(spec, row)}, front))
                 == Some(before[KeyOf(spec, row)][evals[i].outputPos])
    ensures Fold(evals[i], Nil, RowsWith(spec, {KeyOf(spec, row)}, front) + [row])
         == Some(Grow(spec, evals, width, before, row).value[KeyOf(spec, row)][evals[i].outputPos])
  {
    hide KeyOf;
    hide UpdateRow;
    hide RowsWith;
    var k := KeyOf(spec, row);
    var cur := if k in before then before[k] else EmptyRow(width);
    if k !in before {
      NoRowsForNewKey(spec, front, k);
    }
    FoldAppend(evals[i], Nil, RowsWith(spec, {k}, front), row);
    UpdateRowAt(evals, cur, row, i);
  }

  /** A `distinct_count` in the map gives each key the number of its distinct value texts. */
  lemma MapDistinctCount(spec: KeySpec, evals: seq<ColumnEval>, width: nat, rows: seq<Row>, k: string, i: nat)
    requires OutputsFit(evals, width) && DistinctOutputs(evals) && Grouped(spec, evals, width, rows).Some?
    requires k in Grouped(spec, evals, width, rows).value && i < |evals| && evals[i].kind == DistinctCount
    requires DoneRow(evals, Grouped(spec, evals, width, rows).value[k]).Some?
    ensures DoneRow(evals, Grouped(spec, evals, width, rows).value[k]).value[evals[i].outputPos]
         == Num(Wrap64(|ValueSet(evals[i], RowsWith(spec, {k}, rows))|))
  {
    hide Fold;
    hide DoneCell;
    hide DoneRow;
    hide Grouped;
    hide ValueSet;
    hide Wrap64;
    hide RowsWith;
    GroupedIsGroupBy(spec, evals, width, rows);
    DoneRowAt(evals, Grouped(spec, evals, width, rows).value[k], i);
    DistinctFold(evals[i], RowsWith(spec, {k}, rows));
  }

  // ---------- Two levels equal one ----------

  /** The reduce kind that completes a map kind. */
  predicate Completes(reduceKind: Kind, mapKind: Kind) {
    match mapKind
    case Count => reduceKind == Sum
    case DistinctCount => false
    case _ => reduceKind == mapKind
  }

  /** Aggregating the rows of two disjoint key sets apart and joining is aggregating them together. */
  lemma {:induction false} SplitByKeys(spec: KeySpec, e: ColumnEval, a: set<string>, b: set<string>, rows: seq<Row>)
    requires e.kind != DistinctCount && a !! b && forall r | r in rows :: NumericInput(e, r)
    ensures var fa, fb := Fold(e, Nil, RowsWith(spec, a, rows)), Fold(e, Nil, RowsWith(spec, b, rows));
            var fab := Fold(e, Nil, RowsWith(spec, a + b, rows));
            && fa.Some? && fb.Some? && IsNumeric(fa.value) && IsNumeric(fb.value)
            && fab == Some(Join(e.kind, fa.value, fb.value))
  {
    hide KeyOf;
    hide Join;
    hide Fold;
    hide NumericInput;
    FoldFrom(e, Nil, RowsWith(spec, a, rows));
    FoldFrom(e, Nil, RowsWith(spec, b, rows));
    if rows == [] {
      FoldNothing(e);
      JoinNil(e.kind, Nil);
    } else {
      var front, row := rows[..|rows| - 1], rows[|rows| - 1];
      SplitByKeys(spec, e, a, b, front);
      var x, y := Fold(e, Nil, RowsWith(spec, a, front)).value, Fold(e, Nil, RowsWith(spec, b, front)).value;
      FoldFrom(e, Nil, RowsWith(spec, a, front));
      FoldFrom(e, Nil, RowsWith(spec, b, front));
      AppendNumeric(e, RowsWith(spec, a, front), row, x);
      AppendNumeric(e, RowsWith(spec, b, front), row, y);
      AppendNumeric(e, RowsWith(spec, a + b, front), row, Join(e.kind, x, y));
      JoinSwap(e.kind, x, y, Contribution(e, row));
      JoinAssoc(e.kind, x, y, Contribution(e, row));
    }
  }

  lemma FoldNothing(e: ColumnEval)
    ensures Fold(e, Nil, []) == Some(Nil)
  {
  }

  lemma AppendNumeric(e: ColumnEval, rows: seq<Row>, row: Row, x: Cell)
    requires e.kind != DistinctCount && NumericInput(e, row) && Fold(e, Nil, rows) == Some(x) && IsNumeric(x)
    ensures IsNumeric(Contribution(e, row)) && Fold(e, Nil, rows + [row]) == Some(Join(e.kind, x, Contribution(e, row)))
  {
    hide Join;
    hide UpdateCell;
    hide Contribution;
    FoldAppend(e, Nil, rows, row);
    UpdateIsJoin(e, x, row);
  }

  lemma JoinSameKind(r: Kind, m: Kind, a: Cell, b: Cell)
    requires Completes(r, m) && IsNumeric(a) && IsNumeric(b)
    ensures Join(r, a, b) == Join(m, a, b)
  {
  }

  /** The reduce evaluator reads one column of the map and filters nothing. */
  predicate ReducesColumn(re: ColumnEval, me: ColumnEval) {
    Completes(re.kind, me.kind) && re.inputPos == Some(me.outputPos) && re.accepts.None?
  }

  lemma ReduceStep(re: ColumnEval, me: ColumnEval, acc: Cell, finished: Row)
    requires ReducesColumn(re, me) && me.outputPos < |finished| && IsNumeric(acc) && IsNumeric(finished[me.outputPos])
    ensures UpdateCell(re, acc, finished) == Some(Join(me.kind, acc, finished[me.outputPos]))
  {
    hide Join;
    UpdateIsJoin(re, acc, finished);
    JoinSameKind(re.kind, me.kind, acc, finished[me.outputPos]);
    JoinNil(re.kind, acc);
  }

  /** What makes two levels comparable with one: map evaluator i feeds reduce evaluator j. */
  ghost predicate Comparable(mapEvals: seq<ColumnEval>, reduceEvals: seq<ColumnEval>, i: nat, j: nat, rows: seq<Row>,
                             cur: Row) {
    && DistinctOutputs(mapEvals) && DistinctOutputs(reduceEvals) && OutputsFit(reduceEvals, |cur|)
    && i < |mapEvals| && j < |reduceEvals| && ReducesColumn(reduceEvals[j], mapEvals[i])
    && IsNumeric(cur[reduceEvals[j].outputPos]) && forall r | r in rows :: NumericInput(mapEvals[i], r)
  }

  lemma {:induction false} ReducedIsOneLevel(
    spec: KeySpec, mapEvals: seq<ColumnEval>, reduceEvals: seq<ColumnEval>, width: nat, rows: seq<Row>,
    order: seq<string>, cur: Row, i: nat, j: nat, values: map<string, Row>)
    requires OutputsFit(mapEvals, width) && Comparable(mapEvals, reduceEvals, i, j, rows, cur)
    requires Grouped(spec, mapEvals, width, rows) == Some(values)
    requires (forall k | k in order :: k in values) && NoDuplicates(order)
    requires Reduced(mapEvals, reduceEvals, width, values, order, cur).Some?
    ensures Fold(mapEvals[i], cur[reduceEvals[j].outputPos], RowsWith(spec, Elements(order), rows))
         == Some(Reduced(mapEvals, reduceEvals, width, values, order, cur).value[reduceEvals[j].outputPos])
    decreases |order|
  {
    hide Fold;
    hide Grouped;
    hide UpdateRow;
    hide DoneRow;
    hide RowsWith;
    hide UpdateCell;
    hide NumericInput;
    hide Join;
    var me, p, cell := mapEvals[i], reduceEvals[j].outputPos, cur[reduceEvals[j].outputPos];
    if order == [] {
      NoRows(spec, rows);
      FoldFrom(me, cell, []);
      FoldNothing(me);
      JoinNil(me.kind, cell);
    } else {
      var front, key := order[..|order| - 1], order[|order| - 1];
      assert order == front + [key];
      ReducedIsOneLevel(spec, mapEvals, reduceEvals, width, rows, front, cur, i, j, values);
      var next := Reduced(mapEvals, reduceEvals, width, values, front, cur).value;
      var finished := DoneRow(mapEvals, values[key]).value;
      KeyCell(spec, mapEvals, width, rows, key, i, values);
      SplitByKeys(spec, me, Elements(front), {key}, rows);
      assert Elements(order) == Elements(front) + {key};
      var x, y := Fold(me, Nil, RowsWith(spec, Elements(front), rows)).value, finished[me.outputPos];
      FoldFrom(me, cell, RowsWith(spec, Elements(front), rows));
      FoldFrom(me, cell, RowsWith(spec, Elements(order), rows));
      JoinAssoc(me.kind, cell, x, y);
      ReduceStep(reduceEvals[j], me, next[p], finished);
      UpdateRowAt(reduceEvals, next, finished, j);
    }
  }

  function Elements(order: seq<string>): set<string> {
    set k | k in order
  }

  lemma {:induction false} NoRows(spec: KeySpec, rows: seq<Row>)
    ensures RowsWith(spec, Elements([]), rows) == []
  {
    hide KeyOf;
    if rows != [] {
      NoRows(spec, rows[..|rows| - 1]);
    }
  }

  lemma KeyCell(spec: KeySpec, evals: seq<ColumnEval>, width: nat, rows: seq<Row>, key: string, i: nat,
                values: map<string, Row>)
    requires OutputsFit(evals, width) && DistinctOutputs(evals) && i < |evals| && evals[i].kind != DistinctCount
    requires Grouped(spec, evals, width, rows) == Some(values) && key in values && DoneRow(evals, values[key]).Some?
    ensures Fold(evals[i], Nil, RowsWith(spec, {key}, rows))
         == Some(DoneRow(evals, values[key]).value[evals[i].outputPos])
  {
    hide Fold;
    hide Grouped;
    hide DoneRow;
    hide RowsWith;
    GroupedIsGroupBy(spec, evals, width, rows);
    DoneRowAt(evals, values[key], i);
  }

  /** The rows with a non-empty key. */
  function KeyedRows(spec: KeySpec, rows: seq<Row>): (r: seq<Row>)
  {
    if rows == [] then []
    else
      var front, last := KeyedRows(spec, rows[..|rows| - 1]), rows[|rows| - 1];
      if KeyOf(spec, last) != "" then front + [last] else front
  }

  lemma {:induction false} AllKeysAreKeyed(spec: KeySpec, keys: set<string>, rows: seq<Row>)
    requires "" !in keys && KeysOf(spec, rows) <= keys
    ensures RowsWith(spec, keys, rows) == KeyedRows(spec, rows)
  {
    hide KeyOf;
    if rows != [] {
      AllKeysAreKeyed(spec, keys, rows[..|rows| - 1]);
      assert rows[|rows| - 1] in rows;
    }
  }

  /**
   For every key order, count-then-sum, sum-then-sum, min-then-min and max-then-max give the single-level
   aggregate over the rows with a non-empty key, 64-bit wrap-around included.
   */
  lemma TwoLevelsAreOne(
    spec: KeySpec, mapEvals: seq<ColumnEval>, reduceEvals: seq<ColumnEval>, width: nat, rows: seq<Row>,
    order: seq<string>, cur: Row, i: nat, j: nat, values: map<string, Row>)
    requires OutputsFit(mapEvals, width) && Comparable(mapEvals, reduceEvals, i, j, rows, cur)
    requires Grouped(spec, mapEvals, width, rows) == Some(values) && IsWalk(order, values.Keys)
    requires Output(mapEvals, reduceEvals, width, values, order, cur).Some?
    ensures Fold(mapEvals[i], cur[reduceEvals[j].outputPos], KeyedRows(spec, rows))
         == Some(Output(mapEvals, reduceEvals, width, values, order, cur).value[reduceEvals[j].outputPos])
  {
    hide Fold;
    hide Grouped;
    hide Reduced;
    hide DoneRow;
    hide RowsWith;
    hide KeyedRows;
    hide NumericInput;
    ReducedIsOneLevel(spec, mapEvals, reduceEvals, width, rows, order, cur, i, j, values);
    GroupedIsGroupBy(spec, mapEvals, width, rows);
    assert Elements(order) == values.Keys;
    AllKeysAreKeyed(spec, Elements(order), rows);
    DoneRowAt(reduceEvals, Reduced(mapEvals, reduceEvals, width, values, order, cur).value, j);
  }

  // ---------- No failure on integer columns ----------

  /** The shape of an accumulator cell that its evaluator can continue from. */
  predicate Continues(e: ColumnEval, c: Cell) {
    c.Nil? || (if e.kind == DistinctCount then c.Values? else c.Num?)
  }

  lemma {:induction false} UpdateRowSucceeds(evals: seq<ColumnEval>, cur: Row, row: Row)
    requires OutputsFit(evals, |cur|) && DistinctOutputs(evals)
    requires forall e | e in evals ::
               Continues(e, cur[e.outputPos]) && (e.kind == DistinctCount || NumericInput(e, row))
    ensures UpdateRow(evals, cur, row).Some?
    ensures forall e | e in evals :: Continues(e, UpdateRow(evals, cur, row).value[e.outputPos])
  {
    hide Join;
    hide Accepts;
    hide TextOf;
    if evals != [] {
      var front, e := evals[..|evals| - 1], evals[|evals| - 1];
      assert evals == front + [e];
      UpdateRowSucceeds(front, cur, row);
      UpdateRowElsewhere(front, cur, row, e.outputPos);
      CellSucceeds(e, cur[e.outputPos], row);
      hide UpdateCell;
      forall d | d in front ensures d.outputPos != e.outputPos {
        var n :| 0 <= n < |front| && front[n] == d;
        assert evals[n] == d;
      }
    }
  }

  lemma CellSucceeds(e: ColumnEval, acc: Cell, row: Row)
    requires Continues(e, acc) && (e.kind == DistinctCount || NumericInput(e, row))
    ensures UpdateCell(e, acc, row).Some? && Continues(e, UpdateCell(e, acc, row).value)
  {
    hide Wrap64;
    hide TextOf;
  }

  /** On integer columns the map side never fails, and what it leaves can be closed. */
  lemma {:induction false} GroupedSucceeds(spec: KeySpec, evals: seq<ColumnEval>, width: nat, rows: seq<Row>)
    requires OutputsFit(evals, width) && DistinctOutputs(evals)
    requires forall e, r | e in evals && r in rows :: e.kind == DistinctCount || NumericInput(e, r)
    ensures Grouped(spec, evals, width, rows).Some?
    ensures forall k, e | k in Grouped(spec, evals, width, rows).value && e in evals ::
              Continues(e, Grouped(spec, evals, width, rows).value[k][e.outputPos])
  {
    hide UpdateRow;
    hide NumericInput;
    hide KeyOf;
    if rows != [] {
      var front, row := rows[..|rows| - 1], rows[|rows| - 1];
      GroupedSucceeds(spec, evals, width, front);
      var values, key := Grouped(spec, evals, width, front).value, KeyOf(spec, row);
      if key != "" {
        UpdateRowSucceeds(evals, if key in values then values[key] else EmptyRow(width), row);
      }
    }
  }

  lemma {:induction false} DoneRowSucceeds(evals: seq<ColumnEval>, cur: Row)
    requires OutputsFit(evals, |cur|) && DistinctOutputs(evals)
        && forall e | e in evals :: Continues(e, cur[e.outputPos])
    ensures DoneRow(evals, cur).Some?
  {
    if evals != [] {
      var front, e := evals[..|evals| - 1], evals[|evals| - 1];
      assert evals == front + [e];
      DoneRowSucceeds(front, cur);
      DoneRowElsewhere(front, cur, e.outputPos);
    }
  }

  /** A closed intermediate row holds numbers in every map column. */
  lemma ClosedIsNumeric(evals: seq<ColumnEval>, cur: Row)
    requires OutputsFit(evals, |cur|) && DistinctOutputs(evals)
        && forall e | e in evals :: Continues(e, cur[e.outputPos])
    ensures DoneRow(evals, cur).Some? && forall e | e in evals :: IsNumeric(DoneRow(evals, cur).value[e.outputPos])
  {
    hide DoneRow;
    hide Wrap64;
    DoneRowSucceeds(evals, cur);
    forall e | e in evals ensures IsNumeric(DoneRow(evals, cur).value[e.outputPos]) {
      var i :| 0 <= i < |evals| && evals[i] == e;
      DoneRowAt(evals, cur, i);
    }
  }

  /** The reduce evaluators read columns that the map writes. */
  ghost predicate ReadsMap(reduceEvals: seq<ColumnEval>, mapEvals: seq<ColumnEval>) {
    forall e | e in reduceEvals && e.inputPos.Some? :: exists m | m in mapEvals :: m.outputPos == e.inputPos.value
  }

  lemma {:induction false} ReducedSucceeds(
    mapEvals: seq<ColumnEval>, reduceEvals: seq<ColumnEval>, width: nat, values: map<string, Row>,
    order: seq<string>, cur: Row)
    requires Fits(values, mapEvals, width) && DistinctOutputs(mapEvals) && OutputsFit(reduceEvals, |cur|)
        && DistinctOutputs(reduceEvals)
    requires ReadsMap(reduceEvals, mapEvals) && forall k | k in order :: k in values
    requires forall k, e | k in values && e in mapEvals :: Continues(e, values[k][e.outputPos])
    requires forall e | e in reduceEvals :: Continues(e, cur[e.outputPos])
    ensures Reduced(mapEvals, reduceEvals, width, values, order, cur).Some?
    ensures forall e | e in reduceEvals ::
              Continues(e, Reduced(mapEvals, reduceEvals, width, values, order, cur).value[e.outputPos])
    decreases |order|
  {
    hide DoneRow;
    hide UpdateRow;
    hide Continues;
    if order != [] {
      var front, key := order[..|order| - 1], order[|order| - 1];
      ReducedSucceeds(mapEvals, reduceEvals, width, values, front, cur);
      ClosedIsNumeric(mapEvals, values[key]);
      var next := Reduced(mapEvals, reduceEvals, width, values, front, cur).value;
      UpdateRowSucceeds(reduceEvals, next, DoneRow(mapEvals, values[key]).value);
    }
  }

  /** On integer columns a map_reduce always has an output, whatever the key order. */
  lemma OutputSucceeds(spec: KeySpec, mapEvals: seq<ColumnEval>, reduceEvals: seq<ColumnEval>, width: nat,
                       rows: seq<Row>, order: seq<string>, cur: Row)
    requires OutputsFit(mapEvals, width) && DistinctOutputs(mapEvals) && OutputsFit(reduceEvals, |cur|)
        && DistinctOutputs(reduceEvals)
    requires forall e, r | e in mapEvals && r in rows :: e.kind == DistinctCount || NumericInput(e, r)
    requires ReadsMap(reduceEvals, mapEvals) && forall e | e in reduceEvals :: Continues(e, cur[e.outputPos])
    requires Grouped(spec, mapEvals, width, rows).Some? ==>
          IsWalk(order, Grouped(spec, mapEvals, width, rows).value.Keys)
    ensures Grouped(spec, mapEvals, width, rows).Some?
    ensures Output(mapEvals, reduceEvals, width, Grouped(spec, mapEvals, width, rows).value, order, cur).Some?
  {
    hide Grouped;
    hide DoneRow;
    hide Reduced;
    hide Continues;
    hide NumericInput;
    GroupedSucceeds(spec, mapEvals, width, rows);
    var values := Grouped(spec, mapEvals, width, rows).value;
    ReducedSucceeds(mapEvals, reduceEvals, width, values, order, cur);
    DoneRowSucceeds(reduceEvals, Reduced(mapEvals, reduceEvals, width, values, order, cur).value);
  }

  // ---------- The evaluator object ----------

  /** Every evaluator in turn on one row, in place. */
  method UpdateAll(evals: seq<ColumnEval>, cur: Row, row: Row) returns (r: Option<Row>)
    requires OutputsFit(evals, |cur|)
    ensures r == UpdateRow(evals, cur, row)
  {
    hide UpdateCell;
    var next := cur;
    for i := 0 to |evals|
      invariant |next| == |cur| && UpdateRow(evals[..i], cur, row) == Some(next)
    {
      var e := evals[i];
      assert evals[..i + 1][..i] == evals[..i];
      var c := UpdateCell(e, next[e.outputPos], row);
      if c.None? {
        UpdateRowPrefix(evals, cur, row, i + 1);
        return None;
      }
      next := next[e.outputPos := c.value];
    }
    assert evals[..|evals|] == evals;
    return Some(next);
  }

  method DoneAll(evals: seq<ColumnEval>, cur: Row) returns (r: Option<Row>)
    requires OutputsFit(evals, |cur|)
    ensures r == DoneRow(evals, cur)
  {
    hide DoneCell;
    var next := cur;
    for i := 0 to |evals|
      invariant |next| == |cur| && DoneRow(evals[..i], cur) == Some(next)
    {
      var e := evals[i];
      assert evals[..i + 1][..i] == evals[..i];
      var c := DoneCell(e, next[e.outputPos]);
      if c.None? {
        DoneRowPrefix(evals, cur, i + 1);
        return None;
      }
      next := next[e.outputPos := c.value];
    }
    assert evals[..|evals|] == evals;
    return Some(next);
  }

  lemma {:induction false} UpdateRowPrefix(evals: seq<ColumnEval>, cur: Row, row: Row, i: nat)
    requires OutputsFit(evals, |cur|) && i <= |evals| && UpdateRow(evals[..i], cur, row).None?
    ensures UpdateRow(evals, cur, row).None?
  {
    hide UpdateCell;
    if i == |evals| {
      assert evals[..i] == evals;
    } else {
      var front := evals[..|evals| - 1];
      assert front[..i] == evals[..i];
      UpdateRowPrefix(front, cur, row, i);
    }
  }

  lemma {:induction false} DoneRowPrefix(evals: seq<ColumnEval>, cur: Row, i: nat)
    requires OutputsFit(evals, |cur|) && i <= |evals| && DoneRow(evals[..i], cur).None?
    ensures DoneRow(evals, cur).None?
  {
    hide DoneCell;
    if i == |evals| {
      assert evals[..i] == evals;
    } else {
      var front := evals[..|evals| - 1];
      assert front[..i] == evals[..i];
      DoneRowPrefix(front, cur, i);
    }
  }

  /** Any key that cannot be closed, or any prefix that fails, makes the whole walk fail. */
  lemma {:induction false} ReducedFails(
    mapEvals: seq<ColumnEval>, reduceEvals: seq<ColumnEval>, width: nat, values: map<string, Row>,
    order: seq<string>, cur: Row, i: nat)
    requires Fits(values, mapEvals, width) && OutputsFit(reduceEvals, |cur|) && forall k | k in order :: k in values
    requires || (i < |order| && DoneRow(mapEvals, values[order[i]]).None?)
             || (i <= |order| && Reduced(mapEvals, reduceEvals, width, values, order[..i], cur).None?)
    ensures Reduced(mapEvals, reduceEvals, width, values, order, cur).None?
    decreases |order|
  {
    hide DoneRow;
    hide UpdateRow;
    if i == |order| {
      assert order[..i] == order;
    } else if i < |order| - 1 || DoneRow(mapEvals, values[order[i]]).Some? {
      var front := order[..|order| - 1];
      assert front[..i] == order[..i];
      ReducedFails(mapEvals, reduceEvals, width, values, front, cur, i);
    }
  }

  /** The closed groups aggregated in the given key order. */
  method ReduceWalk(ghost mapEvals: seq<ColumnEval>, reduceEvals: seq<ColumnEval>, ghost width: nat,
                    ghost groups: map<string, Row>,
                    closed: map<string, Row>, order: seq<string>, cur: Row) returns (r: Option<Row>)
    requires Fits(groups, mapEvals, width) && OutputsFit(reduceEvals, |cur|) && closed.Keys == groups.Keys
    requires forall k | k in groups :: DoneRow(mapEvals, groups[k]) == Some(closed[k])
    requires forall k | k in order :: k in groups
    ensures r == Reduced(mapEvals, reduceEvals, width, groups, order, cur)
  {
    hide UpdateRow;
    hide DoneRow;
    var next := cur;
    for n := 0 to |order|
      invariant |next| == |cur| && Reduced(mapEvals, reduceEvals, width, groups, order[..n], cur) == Some(next)
    {
      assert order[..n + 1][..n] == order[..n];
      var more := UpdateAll(reduceEvals, next, closed[order[n]]);
      if more.None? {
        ReducedFails(mapEvals, reduceEvals, width, groups, order, cur, n + 1);
        return None;
      }
      next := more.value;
    }
    assert order[..|order|] == order;
    return Some(next);
  }

  class MapReduceEval {
    const spec: KeySpec
    const mapEvals: seq<ColumnEval>
    const reduceEvals: seq<ColumnEval>
    const width: nat
    var values: map<string, Row>
    ghost var seen: seq<Row>

    ghost predicate Valid()
      reads this
    {
      OutputsFit(mapEvals, width) && Grouped(spec, mapEvals, width, seen) == Some(values)
    }

    constructor (spec: KeySpec, mapEvals: seq<ColumnEval>, reduceEvals: seq<ColumnEval>, width: nat)
      requires OutputsFit(mapEvals, width)
      ensures Valid() && seen == [] && this.spec == spec && this.mapEvals == mapEvals
          && this.reduceEvals == reduceEvals && this.width == width
    {
      this.spec, this.mapEvals, this.reduceEvals, this.width := spec, mapEvals, reduceEvals, width;
      values, seen := map[], [];
    }

    /** One more row; a failing evaluator fails the call. */
    method Update(row: Row) returns (ok: bool)
      requires Valid()
      modifies this
      ensures ok <==> Grouped(spec, mapEvals, width, old(seen) + [row]).Some?
      ensures ok ==> Valid() && seen == old(seen) + [row]
    {
      hide UpdateRow;
      hide KeyOf;
      assert (seen + [row])[..|seen|] == seen;
      var key := KeyOf(spec, row);
      if |key| > 0 {
        var cur := if key in values then values[key] else EmptyRow(width);
        var next := UpdateAll(mapEvals, cur, row);
        if next.None? {
          return false;
        }
        values := values[key := next.value];
      }
      seen := seen + [row];
      return true;
    }

    /** Close the groups in one key order, reduce them in another, and close the output. */
    method Done(cur: Row, closing: seq<string>, order: seq<string>) returns (r: Option<Row>)
      requires Valid() && OutputsFit(reduceEvals, |cur|)
      requires IsWalk(closing, values.Keys) && IsWalk(order, values.Keys)
      modifies this`values
      ensures r == Output(mapEvals, reduceEvals, width, old(values), order, cur)
    {
      hide Grouped;
      hide UpdateRow;
      hide DoneRow;
      hide Reduced;
      ghost var groups := values;
      for n := 0 to |closing|
        invariant values.Keys == groups.Keys
        invariant forall m | n <= m < |closing| :: values[closing[m]] == groups[closing[m]]
        invariant forall m | 0 <= m < n :: DoneRow(mapEvals, groups[closing[m]]) == Some(values[closing[m]])
      {
        var finished := DoneAll(mapEvals, values[closing[n]]);
        if finished.None? {
          ghost var m :| 0 <= m < |order| && order[m] == closing[n];
          ReducedFails(mapEvals, reduceEvals, width, groups, order, cur, m);
          return None;
        }
        values := values[closing[n] := finished.value];
      }
      forall k | k in groups ensures DoneRow(mapEvals, groups[k]) == Some(values[k]) {
        assert k in closing;
      }
      var next := ReduceWalk(mapEvals, reduceEvals, width, groups, values, order, cur);
      if next.None? {
        return None;
      }
      r := DoneAll(reduceEvals, next.value);
    }
  }
}
