/**
 Column aggregates: each evaluator folds the rows it accepts into one cell of an accumulator row.
 The numeric ones are folds of a commutative monoid on optional 64-bit integers.
 */
module ColumnAggregates {
  import opened Common

  type int64 = x: int | -0x8000_0000_0000_0000 <= x < 0x8000_0000_0000_0000

  /** A cell of a row: absent, a 64-bit integer, a text, or the value set that distinct_count keeps in place. */
  datatype Cell = Nil | Num(n: int64) | Text(s: string) | Values(texts: set<string>)

  type Row = seq<Cell>

  datatype Kind = Count | DistinctCount | Sum | Min | Max

  /** `count(*)` has no input column. */
  datatype ColumnEval = ColumnEval(kind: Kind, inputPos: Option<nat>, outputPos: nat, accepts: Option<Row -> bool>)

  /** Two's complement truncation to 64 bits. */
  function Wrap64(x: int): (r: int64)
    ensures exists q :: r == x + q * 0x1_0000_0000_0000_0000
    ensures -0x8000_0000_0000_0000 <= x < 0x8000_0000_0000_0000 ==> r == x
  {
    var r := (x + 0x8000_0000_0000_0000) % 0x1_0000_0000_0000_0000 - 0x8000_0000_0000_0000;
    assert r == x + (-((x + 0x8000_0000_0000_0000) / 0x1_0000_0000_0000_0000)) * 0x1_0000_0000_0000_0000;
    r
  }

  function Digits(n: nat): string {
    if n < 10 then [DigitChar(n)] else Digits(n / 10) + [DigitChar(n % 10)]
  }

  function DigitChar(d: nat): (c: char)
    requires d < 10
    ensures c != '-'
  {
    "0123456789"[d]
  }

  function Decimal(n: int): string {
    if n < 0 then ['-'] + Digits(-n) else Digits(n)
  }

  function TextOf(c: Cell): string {
    match c
    case Text(s) => s
    case Num(n) => Decimal(n)
    case _ => ""
  }

  function InputCell(e: ColumnEval, row: Row): Cell {
    match e.inputPos
    case None => Nil
    case Some(p) => if p < |row| then row[p] else Nil
  }

  predicate Accepts(e: ColumnEval, row: Row) {
    && (e.inputPos.Some? || e.kind != Count ==> InputCell(e, row) != Nil)
    && (e.accepts.Some? ==> e.accepts.value(row))
  }

  predicate IsNumeric(c: Cell) {
    c.Nil? || c.Num?
  }

  function MinInt(a: int64, b: int64): int64 { if a < b then a else b }

  function MaxInt(a: int64, b: int64): int64 { if a > b then a else b }

  /** `add` and `minMaxAgg` on absent and 64-bit operands; Count is the sum of ones. */
  function Join(kind: Kind, lhs: Cell, rhs: Cell): (r: Cell)
    requires IsNumeric(lhs) && IsNumeric(rhs)
    ensures IsNumeric(r)
  {
    if rhs.Nil? then lhs
    else if lhs.Nil? then rhs
    else match kind
      case Min => Num(MinInt(lhs.n, rhs.n))
      case Max => Num(MaxInt(lhs.n, rhs.n))
      case _ => Num(Wrap64(lhs.n + rhs.n))
  }

  /** One row folded into one accumulator cell; None where the source reports an error. */
  function UpdateCell(e: ColumnEval, acc: Cell, row: Row): Option<Cell> {
    if !Accepts(e, row) then Some(acc)
    else match e.kind
      case Count =>
        if acc.Nil? then Some(Num(1)) else if acc.Num? then Some(Num(Wrap64(acc.n + 1))) else None
      case DistinctCount =>
        if acc.Nil? then Some(Values({TextOf(InputCell(e, row))}))
        else if acc.Values? then Some(Values(acc.texts + {TextOf(InputCell(e, row))})) else None
      case _ =>
        var v := InputCell(e, row);
        if IsNumeric(acc) && IsNumeric(v) then Some(Join(e.kind, acc, v)) else None
  }

  /** What closing the aggregate leaves in the cell. */
  function DoneCell(e: ColumnEval, acc: Cell): Option<Cell> {
    if e.kind != DistinctCount then Some(acc)
    else if acc.Nil? then Some(Num(0))
    else if acc.Values? then Some(Num(Wrap64(|acc.texts|)))
    else None
  }

  /** The single-level aggregate: the evaluator over all rows, from a given cell. */
  function Fold(e: ColumnEval, acc: Cell, rows: seq<Row>): Option<Cell> {
    if rows == [] then Some(acc)
    else match Fold(e, acc, rows[..|rows| - 1])
      case Some(c) => UpdateCell(e, c, rows[|rows| - 1])
      case None => None
  }

  lemma FoldAppend(e: ColumnEval, acc: Cell, rows: seq<Row>, row: Row)
    ensures Fold(e, acc, rows + [row])
         == match Fold(e, acc, rows) case Some(c) => UpdateCell(e, c, row) case None => None
  {
    assert (rows + [row])[..|rows|] == rows;
  }

  // ---------- The numeric aggregates are folds of a commutative monoid ----------

  lemma WrapIsUnique(a: int64, b: int64, q: int)
    requires a == b + q * 0x1_0000_0000_0000_0000
    ensures a == b
  {
  }

  lemma WrapAssoc(a: int64, b: int64, c: int64)
    ensures Wrap64(Wrap64(a + b) + c) == Wrap64(a + Wrap64(b + c))
  {
    hide Wrap64;
    var q1 :| Wrap64(a + b) == a + b + q1 * 0x1_0000_0000_0000_0000;
    var q2 :| Wrap64(b + c) == b + c + q2 * 0x1_0000_0000_0000_0000;
    var q3 :| Wrap64(Wrap64(a + b) + c) == Wrap64(a + b) + c + q3 * 0x1_0000_0000_0000_0000;
    var q4 :| Wrap64(a + Wrap64(b + c)) == a + Wrap64(b + c) + q4 * 0x1_0000_0000_0000_0000;
    WrapIsUnique(Wrap64(Wrap64(a + b) + c), Wrap64(a + Wrap64(b + c)), q1 + q3 - q2 - q4);
  }

  lemma JoinAssoc(kind: Kind, a: Cell, b: Cell, c: Cell)
    requires IsNumeric(a) && IsNumeric(b) && IsNumeric(c)
    ensures Join(kind, Join(kind, a, b), c) == Join(kind, a, Join(kind, b, c))
  {
    hide Wrap64;
    if a.Num? && b.Num? && c.Num? {
      WrapAssoc(a.n, b.n, c.n);
    }
  }

  lemma JoinCommutes(kind: Kind, a: Cell, b: Cell)
    requires IsNumeric(a) && IsNumeric(b)
    ensures Join(kind, a, b) == Join(kind, b, a)
  {
    hide Wrap64;
  }

  lemma JoinSwap(kind: Kind, a: Cell, b: Cell, c: Cell)
    requires IsNumeric(a) && IsNumeric(b) && IsNumeric(c)
    ensures Join(kind, Join(kind, a, b), c) == Join(kind, Join(kind, a, c), b)
  {
    hide Join;
    JoinAssoc(kind, a, b, c);
    JoinCommutes(kind, b, c);
    JoinAssoc(kind, a, c, b);
  }

  /** The rows an evaluator reads hold 64-bit integers or nothing. */
  predicate NumericInput(e: ColumnEval, row: Row) {
    e.kind == Count || IsNumeric(InputCell(e, row))
  }

  /** What a row adds to a numeric aggregate. */
  function Contribution(e: ColumnEval, row: Row): Cell {
    if !Accepts(e, row) then Nil else if e.kind == Count then Num(1) else InputCell(e, row)
  }

  lemma UpdateIsJoin(e: ColumnEval, acc: Cell, row: Row)
    requires e.kind != DistinctCount && NumericInput(e, row) && IsNumeric(acc)
    ensures IsNumeric(Contribution(e, row))
    ensures UpdateCell(e, acc, row) == Some(Join(e.kind, acc, Contribution(e, row)))
  {
    hide Wrap64;
  }

  /** A numeric aggregate never fails, and starting it from a cell is joining that cell in front. */
  lemma {:induction false} FoldFrom(e: ColumnEval, acc: Cell, rows: seq<Row>)
    requires e.kind != DistinctCount && IsNumeric(acc) && forall r | r in rows :: NumericInput(e, r)
    ensures Fold(e, Nil, rows).Some? && IsNumeric(Fold(e, Nil, rows).value)
    ensures Fold(e, acc, rows) == Some(Join(e.kind, acc, Fold(e, Nil, rows).value))
  {
    hide Join;
    hide UpdateCell;
    if rows == [] {
      JoinNil(e.kind, acc);
    } else {
      var front, last := rows[..|rows| - 1], rows[|rows| - 1];
      FoldFrom(e, acc, front);
      var base, c := Fold(e, Nil, front).value, Contribution(e, last);
      UpdateIsJoin(e, base, last);
      UpdateIsJoin(e, Join(e.kind, acc, base), last);
      JoinAssoc(e.kind, acc, base, c);
    }
  }

  lemma JoinNil(kind: Kind, a: Cell)
    requires IsNumeric(a)
    ensures Join(kind, a, Nil) == a && Join(kind, Nil, a) == a
  {
  }

  // ---------- distinct_count keeps the set of texts ----------

  function ValueSet(e: ColumnEval, rows: seq<Row>): set<string> {
    set r | r in rows && Accepts(e, r) :: TextOf(InputCell(e, r))
  }

  /** The cell holds exactly the texts of the accepted rows, and closing it gives their number. */
  lemma {:induction false} DistinctFold(e: ColumnEval, rows: seq<Row>)
    requires e.kind == DistinctCount
    ensures Fold(e, Nil, rows) == Some(if ValueSet(e, rows) == {} then Nil else Values(ValueSet(e, rows)))
    ensures DoneCell(e, Fold(e, Nil, rows).value) == Some(Num(Wrap64(|ValueSet(e, rows)|)))
  {
    hide Accepts;
    hide TextOf;
    hide InputCell;
    hide Wrap64;
    if rows != [] {
      var front, last := rows[..|rows| - 1], rows[|rows| - 1];
      DistinctFold(e, front);
      assert rows == front + [last];
      if Accepts(e, last) {
        assert ValueSet(e, rows) == ValueSet(e, front) + {TextOf(InputCell(e, last))};
      } else {
        assert ValueSet(e, rows) == ValueSet(e, front);
      }
    }
  }

  lemma {:induction false} DigitsInjective(m: nat, n: nat)
    requires Digits(m) == Digits(n)
    ensures m == n
  {
    hide Digits;
    hide DigitChar;
    DigitsParts(m);
    DigitsParts(n);
    DigitCharInjective(m % 10, n % 10);
    if m >= 10 {
      DigitsInjective(m / 10, n / 10);
    }
  }

  lemma DigitsParts(n: nat)
    ensures |Digits(n)| >= 1 && Digits(n)[|Digits(n)| - 1] == DigitChar(n % 10)
    ensures Digits(n)[..|Digits(n)| - 1] == if n < 10 then [] else Digits(n / 10)
    ensures n >= 10 ==> |Digits(n / 10)| >= 1
  {
    hide DigitChar;
    DigitsNotEmpty(n / 10);
  }

  lemma DigitCharInjective(a: nat, b: nat)
    requires a < 10 && b < 10
    ensures DigitChar(a) == DigitChar(b) ==> a == b
  {
  }

  lemma DigitsNotEmpty(n: nat)
    ensures |Digits(n)| >= 1 && Digits(n)[0] != '-'
  {
    hide DigitChar;
  }

  lemma DecimalInjective(m: int, n: int)
    requires Decimal(m) == Decimal(n)
    ensures m == n
  {
    hide Digits;
    DigitsNotEmpty(if m < 0 then -m else m);
    DigitsNotEmpty(if n < 0 then -n else n);
    assert m < 0 <==> Decimal(m)[0] == '-';
    assert n < 0 <==> Decimal(n)[0] == '-';
    if m < 0 {
      assert Digits(-m) == Decimal(m)[1..] && Digits(-n) == Decimal(n)[1..];
      DigitsInjective(-m, -n);
    } else {
      DigitsInjective(m, n);
    }
  }

  /** On an integer column no two values share a text: the texts count the values. */
  lemma DistinctIntegers(e: ColumnEval, rows: seq<Row>, numbers: set<int64>)
    requires e.kind == DistinctCount && forall r | r in rows :: IsNumeric(InputCell(e, r))
    requires forall n :: n in numbers <==> exists r | r in rows :: Accepts(e, r) && InputCell(e, r) == Num(n)
    ensures |ValueSet(e, rows)| == |numbers|
  {
    hide Decimal;
    hide InputCell;
    var texts := set n | n in numbers :: Decimal(n);
    assert texts == ValueSet(e, rows) by {
      hide Accepts;
      forall t ensures t in texts <==> t in ValueSet(e, rows) {
        SameTexts(e, rows, numbers, t);
      }
    }
    ImageSize(numbers, texts);
  }

  lemma SameTexts(e: ColumnEval, rows: seq<Row>, numbers: set<int64>, t: string)
    requires e.kind == DistinctCount && forall r | r in rows :: IsNumeric(InputCell(e, r))
    requires forall n :: n in numbers <==> exists r | r in rows :: Accepts(e, r) && InputCell(e, r) == Num(n)
    ensures (exists n | n in numbers :: Decimal(n) == t) <==> t in ValueSet(e, rows)
  {
    hide Decimal;
    hide InputCell;
    if t in ValueSet(e, rows) {
      var r :| r in rows && Accepts(e, r) && TextOf(InputCell(e, r)) == t;
      assert InputCell(e, r) == Num(InputCell(e, r).n);
      assert InputCell(e, r).n in numbers;
    }
    if n :| n in numbers && Decimal(n) == t {
      var r :| r in rows && Accepts(e, r) && InputCell(e, r) == Num(n);
      assert TextOf(InputCell(e, r)) == t;
    }
  }

  lemma {:induction false} ImageSize(numbers: set<int64>, texts: set<string>)
    requires texts == set n | n in numbers :: Decimal(n)
    ensures |texts| == |numbers|
    decreases |numbers|
  {
    hide Decimal;
    if numbers != {} {
      var n :| n in numbers;
      var rest := numbers - {n};
      var fewer := set m | m in rest :: Decimal(m);
      ImageSize(rest, fewer);
      forall m | m in rest ensures Decimal(m) != Decimal(n) {
        if Decimal(m) == Decimal(n) {
          DecimalInjective(m, n);
        }
      }
      assert texts == fewer + {Decimal(n)};
    }
  }
}
