/** What the column aggregates compute, said of the rows without the evaluators' own operations. */
module AggregateMeaning {
  import opened Common
  import opened ColumnAggregates
  import opened MapReduce

  /** The row counts: its cell is there (or none is asked for) and the filter, if any, lets it pass. */
  predicate Taken(e: ColumnEval, row: Row) {
    && (match e.inputPos case None => e.kind == Count case Some(p) => p < |row| && row[p] != Nil)
    && (match e.accepts case None => true case Some(test) => test(row))
  }

  /** The integer of a row's cell. */
  function ValueAt(e: ColumnEval, row: Row): int {
    match e.inputPos
    case None => 0
    case Some(p) => if p < |row| && row[p].Num? then row[p].n else 0
  }

  ghost function TakenRows(e: ColumnEval, rows: seq<Row>): set<nat> {
    set i: nat | i < |rows| && Taken(e, rows[i])
  }

  /** The sum of the taken values, not wrapped. */
  function PlainSum(e: ColumnEval, rows: seq<Row>): int {
    if rows == [] then 0
    else PlainSum(e, rows[..|rows| - 1]) + (if Taken(e, rows[|rows| - 1]) then ValueAt(e, rows[|rows| - 1]) else 0)
  }

  ghost predicate IsLeast(e: ColumnEval, rows: seq<Row>, x: int) {
    && (exists i | i in TakenRows(e, rows) :: ValueAt(e, rows[i]) == x)
    && forall i | i in TakenRows(e, rows) :: x <= ValueAt(e, rows[i])
  }

  ghost predicate IsGreatest(e: ColumnEval, rows: seq<Row>, x: int) {
    && (exists i | i in TakenRows(e, rows) :: ValueAt(e, rows[i]) == x)
    && forall i | i in TakenRows(e, rows) :: ValueAt(e, rows[i]) <= x
  }

  /** The cell is the count, sum, minimum or maximum of the taken rows; it is absent if none is taken. */
  ghost predicate AggregateOf(e: ColumnEval, rows: seq<Row>, cell: Cell) {
    if TakenRows(e, rows) == {} then cell == Nil
    else
      cell.Num? && match e.kind
        case Count => cell.n == Wrap64(|TakenRows(e, rows)|)
        case Sum => cell.n == Wrap64(PlainSum(e, rows))
        case Min => IsLeast(e, rows, cell.n)
        case Max => IsGreatest(e, rows, cell.n)
        case DistinctCount => false
  }

  lemma TakenIsAccepted(e: ColumnEval, row: Row)
    ensures Taken(e, row) <==> Accepts(e, row)
    ensures Taken(e, row) && e.kind != Count && NumericInput(e, row) ==> Contribution(e, row) == Num(ValueAt(e, row))
    ensures Taken(e, row) && e.kind == Count ==> Contribution(e, row) == Num(1)
    ensures !Taken(e, row) ==> Contribution(e, row) == Nil
  {}

  lemma TakenAppend(e: ColumnEval, rows: seq<Row>, row: Row)
    ensures TakenRows(e, rows + [row]) == TakenRows(e, rows) + (if Taken(e, row) then {|rows|} else {})
    ensures |TakenRows(e, rows + [row])| == |TakenRows(e, rows)| + (if Taken(e, row) then 1 else 0)
    ensures PlainSum(e, rows + [row]) == PlainSum(e, rows) + (if Taken(e, row) then ValueAt(e, row) else 0)
  {
    hide Taken;
    hide ValueAt;
    assert (rows + [row])[..|rows|] == rows;
    var before, after := TakenRows(e, rows), TakenRows(e, rows + [row]);
    assert after == before + (if Taken(e, row) then {|rows|} else {});
    assert |rows| !in before;
  }

  lemma WrapStep(x: int, y: int64)
    ensures Wrap64(Wrap64(x) + y) == Wrap64(x + y)
  {
    hide Wrap64;
    var q1 :| Wrap64(x) == x + q1 * 0x1_0000_0000_0000_0000;
    var q2 :| Wrap64(Wrap64(x) + y) == Wrap64(x) + y + q2 * 0x1_0000_0000_0000_0000;
    var q3 :| Wrap64(x + y) == x + y + q3 * 0x1_0000_0000_0000_0000;
    WrapIsUnique(Wrap64(Wrap64(x) + y), Wrap64(x + y), q1 + q2 - q3);
  }

  /** One more taken row. */
  lemma AggregateAppend(e: ColumnEval, rows: seq<Row>, row: Row, cell: Cell)
    requires e.kind != DistinctCount && NumericInput(e, row) && AggregateOf(e, rows, cell) && Taken(e, row)
    ensures IsNumeric(cell) && IsNumeric(Contribution(e, row))
    ensures AggregateOf(e, rows + [row], Join(e.kind, cell, Contribution(e, row)))
  {
    hide Wrap64;
    hide NumericInput;
    TakenIsAccepted(e, row);
    hide Taken;
    hide ValueAt;
    hide Contribution;
    TakenAppend(e, rows, row);
    var all := rows + [row];
    assert |rows| in TakenRows(e, all) && all[|rows|] == row;
    if cell == Nil {
      FirstTaken(e, rows, row);
    } else {
      LaterTaken(e, rows, row, cell);
    }
  }

  lemma FirstTaken(e: ColumnEval, rows: seq<Row>, row: Row)
    requires e.kind != DistinctCount && NumericInput(e, row) && TakenRows(e, rows) == {} && Taken(e, row)
    ensures AggregateOf(e, rows + [row], Contribution(e, row))
  {
    hide NumericInput;
    TakenIsAccepted(e, row);
    NothingToSum(e, rows);
    hide Taken;
    hide ValueAt;
    hide Contribution;
    TakenAppend(e, rows, row);
    var all := rows + [row];
    assert TakenRows(e, all) == {|rows|} && all[|rows|] == row;
  }

  lemma {:induction false} NothingToSum(e: ColumnEval, rows: seq<Row>)
    requires TakenRows(e, rows) == {}
    ensures PlainSum(e, rows) == 0
  {
    hide Taken;
    if rows != [] {
      var front, row := rows[..|rows| - 1], rows[|rows| - 1];
      assert rows == front + [row];
      TakenAppend(e, front, row);
      NothingToSum(e, front);
    }
  }

  lemma LaterTaken(e: ColumnEval, rows: seq<Row>, row: Row, cell: Cell)
    requires e.kind != DistinctCount && NumericInput(e, row) && Taken(e, row)
    requires AggregateOf(e, rows, cell) && cell.Num?
    ensures IsNumeric(Contribution(e, row)) && AggregateOf(e, rows + [row], Join(e.kind, cell, Contribution(e, row)))
  {
    hide Wrap64;
    hide NumericInput;
    TakenIsAccepted(e, row);
    hide Taken;
    hide ValueAt;
    hide Contribution;
    TakenAppend(e, rows, row);
    var all := rows + [row];
    assert |rows| in TakenRows(e, all) && all[|rows|] == row;
    forall i | i in TakenRows(e, rows) ensures i in TakenRows(e, all) && all[i] == rows[i] {}
    match e.kind
    case Count => WrapStep(|TakenRows(e, rows)|, 1);
    case Sum => WrapStep(PlainSum(e, rows), Contribution(e, row).n);
    case _ =>
  }

  /** What a numeric aggregate is, for every sequence of rows with integer input. */
  lemma {:induction false} FoldMeaning(e: ColumnEval, rows: seq<Row>)
    requires e.kind != DistinctCount && forall r | r in rows :: NumericInput(e, r)
    ensures Fold(e, Nil, rows).Some? && AggregateOf(e, rows, Fold(e, Nil, rows).value)
  {
    hide NumericInput;
    hide Taken;
    hide Join;
    hide Fold;
    if rows == [] {
      FoldNothing(e);
    } else {
      var front, row := rows[..|rows| - 1], rows[|rows| - 1];
      assert rows == front + [row] && row in rows;
      FoldMeaning(e, front);
      FoldFrom(e, Nil, front);
      var cell := Fold(e, Nil, front).value;
      AppendNumeric(e, front, row, cell);
      if Taken(e, row) {
        AggregateAppend(e, front, row, cell);
      } else {
        TakenIsAccepted(e, row);
        JoinNil(e.kind, cell);
        NotTaken(e, front, row, cell);
      }
    }
  }

  lemma NotTaken(e: ColumnEval, rows: seq<Row>, row: Row, cell: Cell)
    requires AggregateOf(e, rows, cell) && !Taken(e, row)
    ensures AggregateOf(e, rows + [row], cell)
  {
    hide Taken;
    hide Wrap64;
    hide ValueAt;
    TakenAppend(e, rows, row);
    var all := rows + [row];
    assert TakenRows(e, all) == TakenRows(e, rows);
    forall i | i in TakenRows(e, rows) ensures all[i] == rows[i] {}
  }

  /**
   What a map_reduce puts into an empty output cell, for every key order: the count, sum, minimum or maximum of the
   taken rows among those with a non-empty key.
   */
  lemma MapReduceMeaning(
    spec: KeySpec, mapEvals: seq<ColumnEval>, reduceEvals: seq<ColumnEval>, width: nat, rows: seq<Row>,
    order: seq<string>, cur: Row, i: nat, j: nat, values: map<string, Row>)
    requires OutputsFit(mapEvals, width) && Comparable(mapEvals, reduceEvals, i, j, rows, cur)
    requires Grouped(spec, mapEvals, width, rows) == Some(values) && IsWalk(order, values.Keys)
    requires Output(mapEvals, reduceEvals, width, values, order, cur).Some?
    requires cur[reduceEvals[j].outputPos] == Nil
    ensures AggregateOf(mapEvals[i], KeyedRows(spec, rows),
                        Output(mapEvals, reduceEvals, width, values, order, cur).value[reduceEvals[j].outputPos])
  {
    hide AggregateOf;
    hide Grouped;
    hide Output;
    hide NumericInput;
    hide KeyedRows;
    TwoLevelsAreOne(spec, mapEvals, reduceEvals, width, rows, order, cur, i, j, values);
    KeyedRowsAreRows(spec, rows);
    FoldMeaning(mapEvals[i], KeyedRows(spec, rows));
  }

  lemma {:induction false} KeyedRowsAreRows(spec: KeySpec, rows: seq<Row>)
    ensures forall r | r in KeyedRows(spec, rows) :: r in rows
  {
    hide KeyOf;
    if rows != [] {
      KeyedRowsAreRows(spec, rows[..|rows| - 1]);
    }
  }

  /** A distinct_count of an integer column closes to the number of distinct integers in the taken rows. */
  lemma DistinctMeaning(e: ColumnEval, rows: seq<Row>, numbers: set<int64>)
    requires e.kind == DistinctCount && forall r | r in rows :: IsNumeric(InputCell(e, r))
    requires forall n :: n in numbers <==> exists i | i in TakenRows(e, rows) :: ValueAt(e, rows[i]) == n
    ensures Fold(e, Nil, rows).Some?
    ensures DoneCell(e, Fold(e, Nil, rows).value) == Some(Num(Wrap64(|numbers|)))
  {
    hide Fold;
    hide DoneCell;
    hide Wrap64;
    hide ValueSet;
    DistinctFold(e, rows);
    forall n: int64
      ensures n in numbers <==> exists r | r in rows :: Accepts(e, r) && InputCell(e, r) == Num(n)
    {
      TakenNumber(e, rows, n);
    }
    DistinctIntegers(e, rows, numbers);
  }

  lemma TakenNumber(e: ColumnEval, rows: seq<Row>, n: int64)
    requires e.kind == DistinctCount && forall r | r in rows :: IsNumeric(InputCell(e, r))
    ensures (exists i | i in TakenRows(e, rows) :: ValueAt(e, rows[i]) == n)
       <==> exists r | r in rows :: Accepts(e, r) && InputCell(e, r) == Num(n)
  {
    forall i: nat | i < |rows|
      ensures i in TakenRows(e, rows) && ValueAt(e, rows[i]) == n
         <==> Accepts(e, rows[i]) && InputCell(e, rows[i]) == Num(n)
    {
      TakenIsAccepted(e, rows[i]);
      assert rows[i] in rows;
    }
    if r :| r in rows && Accepts(e, r) && InputCell(e, r) == Num(n) {
      var i :| 0 <= i < |rows| && rows[i] == r;
      assert i in TakenRows(e, rows);
    }
    if i :| i in TakenRows(e, rows) && ValueAt(e, rows[i]) == n {
      assert rows[i] in rows;
    }
  }

  // ---------- Keys and texts ----------

  /** The number a string of decimal digits denotes. */
  function Denotes(s: string): int {
    if s == "" then 0 else 10 * Denotes(s[..|s| - 1]) + (s[|s| - 1] as int - '0' as int)
  }

  lemma DenotesAppend(s: string, c: char)
    ensures Denotes(s + [c]) == 10 * Denotes(s) + (c as int - '0' as int)
  {
    assert (s + [c])[..|s|] == s;
  }

  lemma DigitIsDecimal(d: nat)
    requires d < 10
    ensures '0' <= DigitChar(d) <= '9' && DigitChar(d) as int - '0' as int == d
  {}

  /** Digits are decimal, without a leading zero except for 0 itself. */
  lemma {:induction false} DigitsAreDecimal(n: nat)
    ensures Digits(n) != "" && Denotes(Digits(n)) == n
    ensures forall k | 0 <= k < |Digits(n)| :: '0' <= Digits(n)[k] <= '9'
    ensures Digits(n)[0] == '0' ==> n == 0
  {
    hide Denotes;
    hide DigitChar;
    DigitIsDecimal(n % 10);
    if n >= 10 {
      DigitsAreDecimal(n / 10);
      DenotesAppend(Digits(n / 10), DigitChar(n % 10));
    } else {
      DenotesAppend("", DigitChar(n));
      DenotesNothing();
      assert "" + [DigitChar(n)] == [DigitChar(n)];
    }
  }

  lemma DenotesNothing()
    ensures Denotes("") == 0
  {}

  /** The key of a row: the text of its key cell, the number in decimal, or else the alternate key. */
  lemma KeyMeaning(spec: KeySpec, row: Row)
    requires spec.mapOn < |row|
    ensures row[spec.mapOn].Text? ==> KeyOf(spec, row) == row[spec.mapOn].s
    ensures row[spec.mapOn].Num? && row[spec.mapOn].n >= 0 ==> Denotes(KeyOf(spec, row)) == row[spec.mapOn].n
    ensures row[spec.mapOn].Num? && row[spec.mapOn].n < 0 ==>
              |KeyOf(spec, row)| > 0 && KeyOf(spec, row)[0] == '-'
              && Denotes(KeyOf(spec, row)[1..]) == -(row[spec.mapOn].n as int)
    ensures row[spec.mapOn].Nil? ==>
              KeyOf(spec, row) == match spec.alternate case None => "" case Some(key) => key(row)
  {
    hide Digits;
    if row[spec.mapOn].Num? {
      var n: int := row[spec.mapOn].n;
      DigitsAreDecimal(if n < 0 then -n else n);
      assert n < 0 ==> (['-'] + Digits(-n))[1..] == Digits(-n);
    }
  }
}
