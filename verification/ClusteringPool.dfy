/**
 The parallel group-by of the clustering operator, as a state machine.

 One goroutine distributes the input rows: it updates the column marginals, then hands the row to
 one worker per distributor, chosen by the row's column1 value. Each worker keeps one histogram per
 column2 and, when its input is closed, reports the groups above the minimum count. The manager
 folds the reports in order of arrival and reads the marginals once all reports are in.
 */
module ClusteringPool {
  import opened Common
  import opened Sums
  import opened Histogram

  datatype Cell = Nil | Str(s: string) | Other(text: string)

  type Row = seq<Cell>

  /** columns1 and columns2 are positions in the input row; minCount is the operator's minimum group size. */
  datatype Config = Config(columns1: seq<nat>, columns2: seq<nat>, minCount: nat, f: NLogN)

  const WORKER_CAPACITY: nat := 1
  const RESULT_CAPACITY: nat := 100

  /** No column is listed twice on one side. */
  ghost predicate DistinctColumns(c: Config) {
    NoDuplicates(c.columns1) && NoDuplicates(c.columns2)
  }

  // ---------- The direct group-by ----------

  /** The text of a cell as the histograms see it; empty texts are not counted. */
  function TextAt(r: Row, p: nat): string {
    if p >= |r| then "" else match r[p] case Nil => "" case Str(s) => s case Other(t) => t
  }

  /** The column1 value a row is grouped under: only strings, and not the empty one. */
  function GroupKeyAt(r: Row, p: nat): string {
    if p < |r| && r[p].Str? then r[p].s else ""
  }

  function RowsWith(rows: seq<Row>, p: nat, v: string): seq<Row> {
    if rows == [] then []
    else
      var front, r := RowsWith(rows[..|rows| - 1], p, v), rows[|rows| - 1];
      if GroupKeyAt(r, p) == v then front + [r] else front
  }

  function Texts(rows: seq<Row>, p: nat): seq<string> {
    if rows == [] then []
    else
      var front, t := Texts(rows[..|rows| - 1], p), TextAt(rows[|rows| - 1], p);
      if t != "" then front + [t] else front
  }

  function GroupKeys(rows: seq<Row>, p: nat): seq<string> {
    if rows == [] then []
    else
      var front, k := GroupKeys(rows[..|rows| - 1], p), GroupKeyAt(rows[|rows| - 1], p);
      if k != "" then front + [k] else front
  }

  /** The group of column1 value v: its column2 values counted directly. */
  ghost function DirectGroup(c: Config, rows: seq<Row>, p1: nat, p2: nat, v: string): Group {
    var values := Texts(RowsWith(rows, p1, v), p2);
    Group(|values|, |Distinct(values)|, Total(Distinct(values), OccurrenceTerm(c.f, values)))
  }

  function Qualifying(c: Config, rows: seq<Row>, p1: nat, p2: nat, ks: seq<string>): (r: seq<string>)
    ensures forall v :: v in r <==> v in ks && |Texts(RowsWith(rows, p1, v), p2)| > c.minCount
    ensures NoDuplicates(ks) ==> NoDuplicates(r)
  {
    if ks == [] then []
    else
      var front, k := ks[..|ks| - 1], ks[|ks| - 1];
      assert ks == front + [k];
      assert NoDuplicates(ks) ==> NoDuplicates(front) && k !in front by {
        if NoDuplicates(ks) { NoDuplicatesFront(front, k); }
      }
      var r := Qualifying(c, rows, p1, p2, front);
      if |Texts(RowsWith(rows, p1, k), p2)| > c.minCount then r + [k] else r
  }

  /** The statistics of one column pair, from the rows alone. */
  ghost function DirectStats(c: Config, rows: seq<Row>, p1: nat, p2: nat): Stats {
    FoldKeys(Qualifying(c, rows, p1, p2, Distinct(GroupKeys(rows, p1))), (v: string) => DirectGroup(c, rows, p1, p2, v))
  }

  // ---------- The state machine ----------

  /** A worker: the distributor it serves and the column1 value it holds. */
  type Key = (nat, string)

  datatype Phase = Reading | Reporting(i: nat) | Finished

  /** read counts the rows taken off the queue so far. */
  datatype Worker = Worker(queue: seq<Row>, read: nat, hists: seq<Hist>, phase: Phase)

  /** The collector reads only the pair and the group of a message. */
  datatype Msg = Msg(key: Key, eval: nat, group: Group)

  datatype Distribution = Idle | Sending(d: nat)

  datatype Scores = NotYet | Read(marginals: map<nat, Hist>)

  datatype Sys = Sys(
    taken: nat, dist: Distribution, workers: map<Key, Worker>, closed: bool,
    channel: seq<Msg>, resultsClosed: bool, arrived: seq<Msg>, acc: map<(nat, nat), Stats>,
    marginals: map<nat, Hist>, scores: Scores)

  datatype Step =
    | TakeRow | Send | EndRow | CloseWorkers
    | Work(k: Key) | EndInput(k: Key) | Report(k: Key) | Finish(k: Key)
    | CloseResults | Collect | ReadMarginals

  function Without(ps: seq<nat>, p: nat): (r: seq<nat>)
    ensures forall q :: q in r <==> q in ps && q != p
    ensures NoDuplicates(ps) ==> NoDuplicates(r)
  {
    if ps == [] then []
    else
      var front, last := ps[..|ps| - 1], ps[|ps| - 1];
      assert ps == front + [last];
      assert NoDuplicates(ps) ==> NoDuplicates(front) && last !in front by {
        if NoDuplicates(ps) { NoDuplicatesFront(front, last); }
      }
      var r := Without(front, p);
      if last == p then r else r + [last]
  }

  /** The evaluators of distributor d: every column2 but its own column1. */
  function Evals(c: Config, d: nat): seq<nat>
    requires d < |c.columns1|
  {
    Without(c.columns2, c.columns1[d])
  }

  function NewWorker(c: Config, d: nat): Worker
    requires d < |c.columns1|
  {
    Worker([], 0, seq(|Evals(c, d)|, _ => EMPTY_HIST), Reading)
  }

  function ApplyRow(c: Config, h: Hist, r: Row, p: nat): Hist {
    if TextAt(r, p) != "" then AddValue(c.f, h, TextAt(r, p)) else h
  }

  function ApplyAll(c: Config, hists: seq<Hist>, r: Row, ps: seq<nat>): (hs: seq<Hist>)
    requires |hists| == |ps|
    ensures |hs| == |ps| && forall i | 0 <= i < |ps| :: hs[i] == ApplyRow(c, hists[i], r, ps[i])
  {
    seq(|ps|, i requires 0 <= i < |ps| => ApplyRow(c, hists[i], r, ps[i]))
  }

  function GroupOfHist(h: Hist): Group {
    Group(h.total, |h.counts|, h.sumNLog)
  }

  function PairOf(c: Config, m: Msg): (nat, nat) {
    if m.key.0 < |c.columns1| && m.eval < |Evals(c, m.key.0)| then (c.columns1[m.key.0], Evals(c, m.key.0)[m.eval])
    else (0, 0)
  }

  function StatsAt(acc: map<(nat, nat), Stats>, pair: (nat, nat)): Stats {
    if pair in acc then acc[pair] else EMPTY_STATS
  }

  /** The columns that take part: one marginal each. */
  function MarginalColumns(c: Config): set<nat> {
    (set p | p in c.columns1) + (set p | p in c.columns2)
  }

  function EmptyMarginals(c: Config): map<nat, Hist> {
    map p | p in MarginalColumns(c) :: EMPTY_HIST
  }

  function Init(c: Config): Sys {
    Sys(0, Idle, map[], false, [], false, [], map[], EmptyMarginals(c), NotYet)
  }

  ghost predicate Enabled(c: Config, rows: seq<Row>, s: Sys, step: Step) {
    match step
    case TakeRow => s.dist.Idle? && s.taken < |rows|
    case Send =>
      && s.dist.Sending? && s.dist.d < |c.columns1| && 0 < s.taken <= |rows|
      && var k := (s.dist.d, GroupKeyAt(rows[s.taken - 1], c.columns1[s.dist.d]));
         k in s.workers ==> |s.workers[k].queue| < WORKER_CAPACITY
    case EndRow => s.dist.Sending? && s.dist.d == |c.columns1|
    case CloseWorkers => s.dist.Idle? && s.taken == |rows| && !s.closed
    case Work(k) => k in s.workers && s.workers[k].phase.Reading? && s.workers[k].queue != []
    case EndInput(k) => k in s.workers && s.workers[k].phase.Reading? && s.workers[k].queue == [] && s.closed
    case Report(k) =>
      && k in s.workers && s.workers[k].phase.Reporting? && s.workers[k].phase.i < |s.workers[k].hists|
      && (s.workers[k].hists[s.workers[k].phase.i].total > c.minCount ==> |s.channel| < RESULT_CAPACITY)
    case Finish(k) =>
      k in s.workers && s.workers[k].phase.Reporting? && s.workers[k].phase.i == |s.workers[k].hists|
    case CloseResults => s.closed && !s.resultsClosed && forall k | k in s.workers :: s.workers[k].phase.Finished?
    case Collect => s.channel != []
    case ReadMarginals => s.resultsClosed && s.channel == [] && s.scores.NotYet?
  }

  function SendRow(c: Config, rows: seq<Row>, s: Sys): map<Key, Worker>
    requires s.dist.Sending? && s.dist.d < |c.columns1| && 0 < s.taken <= |rows|
  {
    var r := rows[s.taken - 1];
    var v := GroupKeyAt(r, c.columns1[s.dist.d]);
    if v == "" then s.workers
    else
      var k := (s.dist.d, v);
      var w := if k in s.workers then s.workers[k] else NewWorker(c, s.dist.d);
      s.workers[k := w.(queue := w.queue + [r])]
  }

  ghost function Apply(c: Config, rows: seq<Row>, s: Sys, step: Step): Sys
    requires Enabled(c, rows, s, step)
  {
    match step
    case TakeRow =>
      s.(taken := s.taken + 1, dist := Sending(0),
         marginals := map p | p in s.marginals :: ApplyRow(c, s.marginals[p], rows[s.taken], p))
    case Send => s.(dist := Sending(s.dist.d + 1), workers := SendRow(c, rows, s))
    case EndRow => s.(dist := Idle)
    case CloseWorkers => s.(closed := true)
    case Work(k) =>
      var w := s.workers[k];
      var hists := if k.0 < |c.columns1| && |w.hists| == |Evals(c, k.0)|
                   then ApplyAll(c, w.hists, w.queue[0], Evals(c, k.0)) else w.hists;
      s.(workers := s.workers[k := Worker(w.queue[1..], w.read + 1, hists, Reading)])
    case EndInput(k) => s.(workers := s.workers[k := s.workers[k].(phase := Reporting(0))])
    case Report(k) =>
      var w := s.workers[k];
      var h := w.hists[w.phase.i];
      s.(workers := s.workers[k := w.(phase := Reporting(w.phase.i + 1))],
         channel := if h.total > c.minCount then s.channel + [Msg(k, w.phase.i, GroupOfHist(h))] else s.channel)
    case Finish(k) => s.(workers := s.workers[k := s.workers[k].(phase := Finished)])
    case CloseResults => s.(resultsClosed := true)
    case Collect =>
      var m := s.channel[0];
      var pair := PairOf(c, m);
      s.(channel := s.channel[1..], arrived := s.arrived + [m],
         acc := s.acc[pair := AddGroup(StatsAt(s.acc, pair), m.group)])
    case ReadMarginals => s.(scores := Read(s.marginals))
  }

  /** A run: it starts from the initial state and each state follows from the one before by some step. */
  ghost predicate IsRun(c: Config, rows: seq<Row>, run: seq<Sys>) {
    && run != [] && run[0] == Init(c)
    && forall i | 0 <= i < |run| - 1 :: Next(c, rows, run[i], run[i + 1])
  }

  ghost predicate Next(c: Config, rows: seq<Row>, s: Sys, s': Sys) {
    exists step :: Enabled(c, rows, s, step) && s' == Apply(c, rows, s, step)
  }
}
