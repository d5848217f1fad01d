/** Every run of the clustering pool is finite, and when nothing more can happen the scores have been read. */
module ClusteringPoolTermination {
  import opened ClusteringPool
  import opened ClusteringPoolProofs

  function Flag(b: bool): nat { if b then 0 else 1 }

  function Minus(a: nat, b: nat): nat { if b <= a then a - b else 0 }

  /** The steps a worker still has before it; a report counts twice, since it puts a message on the channel. */
  function WorkerRank(w: Worker): nat {
    |w.queue| + match w.phase
                case Reading => 2 * |w.hists| + 2
                case Reporting(i) => 2 * Minus(|w.hists|, i) + 1
                case Finished => 0
  }

  ghost function WorkersRank(ws: map<Key, Worker>): nat
    decreases |ws|
  {
    if ws == map[] then 0 else WorkerRank(ws[Pick(ws)]) + WorkersRank(ws - {Pick(ws)})
  }

  ghost function Pick(ws: map<Key, Worker>): (k: Key)
    requires ws != map[]
    ensures k in ws
  {
    var k :| k in ws;
    k
  }

  /** Which worker is counted first does not matter. */
  lemma {:induction false} WorkersRankTake(ws: map<Key, Worker>, k: Key)
    requires k in ws
    ensures WorkersRank(ws) == WorkerRank(ws[k]) + WorkersRank(ws - {k})
    decreases |ws|
  {
    hide WorkerRank;
    hide Pick;
    var x := Pick(ws);
    if x != k {
      WorkersRankTake(ws - {x}, k);
      WorkersRankTake(ws - {k}, x);
      assert ws - {x} - {k} == ws - {k} - {x};
    }
  }

  lemma WorkersRankUpdate(ws: map<Key, Worker>, k: Key, w: Worker)
    ensures WorkersRank(ws[k := w]) == WorkersRank(ws) - (if k in ws then WorkerRank(ws[k]) else 0) + WorkerRank(w)
  {
    hide WorkerRank;
    hide WorkersRank;
    WorkersRankTake(ws[k := w], k);
    assert ws[k := w] - {k} == ws - {k};
    if k in ws {
      WorkersRankTake(ws, k);
    } else {
      assert ws - {k} == ws;
    }
  }

  /** What one row can cost one distributor: the hand-over, the row's place in a queue, and a new worker. */
  function SendCost(c: Config): nat {
    2 * |c.columns2| + 4
  }

  function DistributionRank(c: Config, dist: Distribution): nat {
    match dist
    case Idle => 0
    case Sending(d) => Minus(|c.columns1|, d) * SendCost(c) + 1
  }

  function RowCost(c: Config): nat {
    |c.columns1| * SendCost(c) + 2
  }

  /** A bound on the steps still to come. */
  ghost function Rank(c: Config, rows: seq<Row>, s: Sys): nat {
    Minus(|rows|, s.taken) * RowCost(c) + DistributionRank(c, s.dist) + WorkersRank(s.workers) + |s.channel|
    + Flag(s.closed) + Flag(s.resultsClosed) + Flag(s.scores.Read?)
  }

  lemma {:induction false} WithoutIsShorter(ps: seq<nat>, p: nat)
    ensures |Without(ps, p)| <= |ps|
  {
    if ps != [] {
      WithoutIsShorter(ps[..|ps| - 1], p);
    }
  }

  lemma OneLess(n: nat, cost: nat)
    requires n > 0
    ensures (n - 1) * cost + cost == n * cost
  {}

  lemma TakeRowLowersRank(c: Config, rows: seq<Row>, s: Sys)
    requires Enabled(c, rows, s, TakeRow)
    ensures Rank(c, rows, Apply(c, rows, s, TakeRow)) < Rank(c, rows, s)
  {
    hide WorkersRank;
    hide SendCost;
    OneLess(|rows| - s.taken, RowCost(c));
  }

  lemma NewWorkerRank(c: Config, d: nat)
    requires d < |c.columns1|
    ensures WorkerRank(NewWorker(c, d)) <= 2 * |c.columns2| + 2
  {
    hide Without;
    WithoutIsShorter(c.columns2, c.columns1[d]);
  }

  lemma QueueRank(w: Worker, r: Row)
    ensures WorkerRank(w.(queue := w.queue + [r])) == WorkerRank(w) + 1
  {}

  /** Handing out a row adds less work than a hand-over is charged for. */
  lemma SentRowRank(c: Config, rows: seq<Row>, s: Sys)
    requires s.dist.Sending? && s.dist.d < |c.columns1| && 0 < s.taken <= |rows|
    ensures WorkersRank(SendRow(c, rows, s)) < WorkersRank(s.workers) + SendCost(c)
  {
    hide WorkersRank;
    hide WorkerRank;
    hide NewWorker;
    hide GroupKeyAt;
    var r, d := rows[s.taken - 1], s.dist.d;
    var k := (d, GroupKeyAt(r, c.columns1[d]));
    if k.1 != "" {
      var w := if k in s.workers then s.workers[k] else NewWorker(c, d);
      WorkersRankUpdate(s.workers, k, w.(queue := w.queue + [r]));
      QueueRank(w, r);
      NewWorkerRank(c, d);
    }
  }

  lemma SendLowersRank(c: Config, rows: seq<Row>, s: Sys)
    requires Enabled(c, rows, s, Send)
    ensures Rank(c, rows, Apply(c, rows, s, Send)) < Rank(c, rows, s)
  {
    hide WorkersRank;
    hide RowCost;
    hide SendCost;
    hide SendRow;
    OneLess(|c.columns1| - s.dist.d, SendCost(c));
    SentRowRank(c, rows, s);
  }

  lemma WorkerStepLowersRank(c: Config, rows: seq<Row>, s: Sys, step: Step)
    requires Enabled(c, rows, s, step) && (step.Work? || step.EndInput? || step.Report? || step.Finish?)
    ensures Rank(c, rows, Apply(c, rows, s, step)) < Rank(c, rows, s)
  {
    hide WorkersRank;
    hide RowCost;
    hide DistributionRank;
    hide Evals;
    hide GroupOfHist;
    WorkersRankUpdate(s.workers, step.k, Apply(c, rows, s, step).workers[step.k]);
  }

  /** Every step lowers the rank. */
  lemma StepLowersRank(c: Config, rows: seq<Row>, s: Sys, step: Step)
    requires Enabled(c, rows, s, step)
    ensures Rank(c, rows, Apply(c, rows, s, step)) < Rank(c, rows, s)
  {
    hide WorkersRank;
    hide RowCost;
    hide SendCost;
    if step.TakeRow? {
      TakeRowLowersRank(c, rows, s);
    } else if step.Send? {
      SendLowersRank(c, rows, s);
    } else if step.Work? || step.EndInput? || step.Report? || step.Finish? {
      WorkerStepLowersRank(c, rows, s, step);
    }
  }

  /** No run has more steps than the rank of the initial state. */
  lemma {:induction false} RunsAreBounded(c: Config, rows: seq<Row>, run: seq<Sys>, i: nat)
    requires IsRun(c, rows, run) && i < |run|
    ensures i + Rank(c, rows, run[i]) <= Rank(c, rows, Init(c))
  {
    hide Rank;
    hide Init;
    hide Enabled;
    hide Apply;
    if i > 0 {
      RunsAreBounded(c, rows, run, i - 1);
      assert Next(c, rows, run[i - 1], run[i - 1 + 1]);
      var step :| Enabled(c, rows, run[i - 1], step) && run[i] == Apply(c, rows, run[i - 1], step);
      StepLowersRank(c, rows, run[i - 1], step);
    }
  }

  lemma Extend(c: Config, rows: seq<Row>, run: seq<Sys>, step: Step) returns (longer: seq<Sys>)
    requires IsRun(c, rows, run) && Enabled(c, rows, run[|run| - 1], step)
    ensures IsRun(c, rows, longer) && longer == run + [Apply(c, rows, run[|run| - 1], step)]
  {
    hide Enabled;
    hide Init;
    hide Apply;
    var s := Apply(c, rows, run[|run| - 1], step);
    longer := run + [s];
    assert Next(c, rows, run[|run| - 1], s);
    forall i | 0 <= i < |longer| - 1 ensures Next(c, rows, longer[i], longer[i + 1]) {
      if i < |run| - 1 {
        assert Next(c, rows, run[i], run[i + 1]);
      }
    }
  }

  /** Every run can be carried on until nothing more can happen. */
  lemma {:induction false} EveryRunEnds(c: Config, rows: seq<Row>, run: seq<Sys>) returns (whole: seq<Sys>)
    requires IsRun(c, rows, run)
    ensures IsRun(c, rows, whole) && run <= whole && !CanStep(c, rows, whole[|whole| - 1])
    decreases Rank(c, rows, run[|run| - 1])
  {
    hide Rank;
    hide Init;
    hide Enabled;
    hide Next;
    hide Apply;
    var s := run[|run| - 1];
    whole := run;
    if step :| Enabled(c, rows, s, step) {
      StepLowersRank(c, rows, s, step);
      var longer := Extend(c, rows, run, step);
      whole := EveryRunEnds(c, rows, longer);
    }
  }

  /** When nothing more can happen, the scores have been read. */
  lemma EndedRunScores(c: Config, rows: seq<Row>, run: seq<Sys>)
    requires IsRun(c, rows, run) && !CanStep(c, rows, run[|run| - 1])
    ensures run[|run| - 1].scores.Read?
  {
    hide CanStep;
    hide Next;
    if run[|run| - 1].scores.NotYet? {
      NoDeadlock(c, rows, run);
    }
  }
}
