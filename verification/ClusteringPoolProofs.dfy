/**
 Every run of the clustering pool computes the direct group-by of its rows, for every interleaving
 of the goroutines and every order in which reports arrive; and no run can get stuck.
 */
module ClusteringPoolProofs {
  import opened Common
  import opened Histogram
  import opened ClusteringPool

  // ---------- The invariant ----------

  /** The rows distributor d has handed out so far. */
  function Sent(rows: seq<Row>, s: Sys, d: nat): seq<Row>
    requires s.taken <= |rows|
  {
    if s.dist.Sending? && d >= s.dist.d && s.taken > 0 then rows[..s.taken - 1] else rows[..s.taken]
  }

  ghost predicate ControlOk(c: Config, rows: seq<Row>, s: Sys) {
    && s.taken <= |rows|
    && (s.dist.Sending? ==> s.taken > 0 && s.dist.d <= |c.columns1|)
    && (s.closed ==> s.dist.Idle? && s.taken == |rows|)
    && (s.resultsClosed ==> s.closed && forall k | k in s.workers :: s.workers[k].phase.Finished?)
    && (s.scores.Read? ==> s.resultsClosed && s.channel == [] && s.scores.marginals == s.marginals)
  }

  ghost predicate IsGroup(c: Config, sent: seq<Row>, k: Key) {
    k.0 < |c.columns1| && k.1 != "" && RowsWith(sent, c.columns1[k.0], k.1) != []
  }

  /** A worker has read a prefix of its group, queues the rest, and its histograms are those of the prefix. */
  ghost predicate WorkerOk(c: Config, sent: seq<Row>, closed: bool, k: Key, w: Worker) {
    && IsGroup(c, sent, k)
    && var group := RowsWith(sent, c.columns1[k.0], k.1);
       var evals := Evals(c, k.0);
       && w.read <= |group| && w.queue == group[w.read..] && |w.hists| == |evals|
       && (forall i | 0 <= i < |evals| :: w.hists[i] == HistOf(c.f, Texts(group[..w.read], evals[i])))
       && (!w.phase.Reading? ==> closed && w.read == |group|)
       && (w.phase.Reporting? ==> w.phase.i <= |evals|)
  }

  ghost predicate WorkersOk(c: Config, rows: seq<Row>, s: Sys)
    requires s.taken <= |rows|
  {
    && (forall k | k in s.workers :: WorkerOk(c, Sent(rows, s, k.0), s.closed, k, s.workers[k]))
    && (forall k: Key | IsGroup(c, Sent(rows, s, k.0), k) :: k in s.workers)
  }

  ghost predicate MarginalsOk(c: Config, rows: seq<Row>, s: Sys)
    requires s.taken <= |rows|
  {
    && s.marginals.Keys == MarginalColumns(c)
    && forall p | p in s.marginals :: s.marginals[p] == HistOf(c.f, Texts(rows[..s.taken], p))
  }

  /** Worker k has passed evaluator i, whose group is above the minimum. */
  ghost predicate Reported(c: Config, s: Sys, k: Key, i: nat) {
    && k in s.workers && i < |s.workers[k].hists| && s.workers[k].hists[i].total > c.minCount
    && (s.workers[k].phase.Finished? || (s.workers[k].phase.Reporting? && i < s.workers[k].phase.i))
  }

  ghost predicate MsgOk(c: Config, rows: seq<Row>, s: Sys, m: Msg) {
    && Reported(c, s, m.key, m.eval)
    && m.key.0 < |c.columns1| && m.eval < |Evals(c, m.key.0)|
    && m.group == DirectGroup(c, rows, c.columns1[m.key.0], Evals(c, m.key.0)[m.eval], m.key.1)
  }

  function TagOf(m: Msg): (Key, nat) { (m.key, m.eval) }

  ghost predicate HasMsg(ms: seq<Msg>, k: Key, i: nat) {
    exists m | m in ms :: TagOf(m) == (k, i)
  }

  ghost predicate MsgsOk(c: Config, rows: seq<Row>, s: Sys, ms: seq<Msg>) {
    && (forall x, y :: 0 <= x < y < |ms| ==> TagOf(ms[x]) != TagOf(ms[y]))
    && (forall m | m in ms :: MsgOk(c, rows, s, m))
    && (forall k: Key, i: nat | Reported(c, s, k, i) :: HasMsg(ms, k, i))
  }

  /** The groups of one pair, folded in order of arrival. */
  function FoldMsgs(c: Config, ms: seq<Msg>, pair: (nat, nat)): Stats {
    if ms == [] then EMPTY_STATS
    else
      var front, m := FoldMsgs(c, ms[..|ms| - 1], pair), ms[|ms| - 1];
      if PairOf(c, m) == pair then AddGroup(front, m.group) else front
  }

  ghost predicate AccOk(c: Config, s: Sys) {
    forall pair: (nat, nat) :: StatsAt(s.acc, pair) == FoldMsgs(c, s.arrived, pair)
  }

  ghost predicate Inv(c: Config, rows: seq<Row>, s: Sys) {
    && ControlOk(c, rows, s) && WorkersOk(c, rows, s) && MarginalsOk(c, rows, s)
    && MsgsOk(c, rows, s, s.arrived + s.channel) && AccOk(c, s)
  }

  // ---------- Appending one row ----------

  lemma RowsWithAppend(rows: seq<Row>, r: Row, p: nat, v: string)
    ensures RowsWith(rows + [r], p, v)
         == if GroupKeyAt(r, p) == v then RowsWith(rows, p, v) + [r] else RowsWith(rows, p, v)
  {
    assert (rows + [r])[..|rows|] == rows;
  }

  lemma TextsAppend(rows: seq<Row>, r: Row, p: nat)
    ensures Texts(rows + [r], p) == if TextAt(r, p) != "" then Texts(rows, p) + [TextAt(r, p)] else Texts(rows, p)
  {
    assert (rows + [r])[..|rows|] == rows;
  }

  lemma HistOfTextsAppend(c: Config, rows: seq<Row>, r: Row, p: nat)
    ensures HistOf(c.f, Texts(rows + [r], p)) == ApplyRow(c, HistOf(c.f, Texts(rows, p)), r, p)
  {
    hide Texts;
    TextsAppend(rows, r, p);
    if TextAt(r, p) != "" {
      Appending(c.f, Texts(rows, p), TextAt(r, p));
    }
  }

  // ---------- Each step keeps the invariant ----------

  lemma InitInv(c: Config, rows: seq<Row>)
    ensures Inv(c, rows, Init(c))
  {
    var s := Init(c);
    assert rows[..0] == [] && s.arrived + s.channel == [];
    forall k: Key ensures !IsGroup(c, Sent(rows, s, k.0), k) {}
  }

  /** Workers and messages depend only on the workers, on what was sent, and on the close flag. */
  lemma WorkersFrame(c: Config, rows: seq<Row>, s: Sys, s': Sys)
    requires ControlOk(c, rows, s) && ControlOk(c, rows, s') && WorkersOk(c, rows, s)
    requires s'.workers == s.workers && (s.closed ==> s'.closed)
    requires forall d: nat | d < |c.columns1| :: Sent(rows, s', d) == Sent(rows, s, d)
    ensures WorkersOk(c, rows, s')
  {
    hide RowsWith;
    hide Texts;
    hide HistOf;
    hide Evals;
  }

  lemma MsgsFrame(c: Config, rows: seq<Row>, s: Sys, s': Sys, ms: seq<Msg>)
    requires MsgsOk(c, rows, s, ms) && s'.workers == s.workers
    ensures MsgsOk(c, rows, s', ms)
  {
    hide DirectGroup;
    hide Evals;
    forall m | m in ms ensures MsgOk(c, rows, s', m) {
      assert MsgOk(c, rows, s, m);
    }
    forall k: Key, i: nat | Reported(c, s', k, i) ensures HasMsg(ms, k, i) {
      assert Reported(c, s, k, i);
    }
  }

  lemma TakeRowInv(c: Config, rows: seq<Row>, s: Sys)
    requires Inv(c, rows, s) && Enabled(c, rows, s, TakeRow)
    ensures Inv(c, rows, Apply(c, rows, s, TakeRow))
  {
    hide MsgsOk;
    hide WorkersOk;
    hide HistOf;
    hide Texts;
    hide FoldMsgs;
    var s' := Apply(c, rows, s, TakeRow);
    WorkersFrame(c, rows, s, s');
    MsgsFrame(c, rows, s, s', s.arrived + s.channel);
    assert rows[..s'.taken] == rows[..s.taken] + [rows[s.taken]];
    forall p | p in s'.marginals ensures s'.marginals[p] == HistOf(c.f, Texts(rows[..s'.taken], p)) {
      HistOfTextsAppend(c, rows[..s.taken], rows[s.taken], p);
    }
  }

  /** Control steps that change neither workers nor messages. */
  lemma ControlStepInv(c: Config, rows: seq<Row>, s: Sys, step: Step)
    requires Inv(c, rows, s) && Enabled(c, rows, s, step)
    requires step.EndRow? || step.CloseWorkers? || step.CloseResults? || step.ReadMarginals?
    ensures Inv(c, rows, Apply(c, rows, s, step))
  {
    hide MsgsOk;
    hide WorkersOk;
    hide HistOf;
    hide Texts;
    hide FoldMsgs;
    var s' := Apply(c, rows, s, step);
    WorkersFrame(c, rows, s, s');
    MsgsFrame(c, rows, s, s', s.arrived + s.channel);
  }

  lemma FoldMsgsAppend(c: Config, ms: seq<Msg>, m: Msg, pair: (nat, nat))
    ensures FoldMsgs(c, ms + [m], pair)
         == if PairOf(c, m) == pair then AddGroup(FoldMsgs(c, ms, pair), m.group) else FoldMsgs(c, ms, pair)
  {
    assert (ms + [m])[..|ms|] == ms;
  }

  lemma CollectInv(c: Config, rows: seq<Row>, s: Sys)
    requires Inv(c, rows, s) && Enabled(c, rows, s, Collect)
    ensures Inv(c, rows, Apply(c, rows, s, Collect))
  {
    hide MsgsOk;
    hide WorkersOk;
    hide HistOf;
    hide Texts;
    hide FoldMsgs;
    hide PairOf;
    hide AccOk;
    var s' := Apply(c, rows, s, Collect);
    assert s'.arrived + s'.channel == s.arrived + s.channel;
    WorkersFrame(c, rows, s, s');
    MsgsFrame(c, rows, s, s', s.arrived + s.channel);
    CollectKeepsAcc(c, rows, s);
  }

  lemma CollectKeepsAcc(c: Config, rows: seq<Row>, s: Sys)
    requires AccOk(c, s) && Enabled(c, rows, s, Collect)
    ensures AccOk(c, Apply(c, rows, s, Collect))
  {
    hide FoldMsgs;
    hide PairOf;
    hide AddGroup;
    var s' := Apply(c, rows, s, Collect);
    forall pair: (nat, nat) ensures StatsAt(s'.acc, pair) == FoldMsgs(c, s'.arrived, pair) {
      FoldMsgsAppend(c, s.arrived, s.channel[0], pair);
    }
  }

  // ---------- Worker steps ----------

  lemma QueueRow(c: Config, sent: seq<Row>, r: Row, closed: bool, k: Key, w: Worker)
    requires WorkerOk(c, sent, closed, k, w) && w.phase.Reading? && GroupKeyAt(r, c.columns1[k.0]) == k.1
    ensures WorkerOk(c, sent + [r], closed, k, w.(queue := w.queue + [r]))
  {
    hide RowsWith;
    hide Texts;
    hide HistOf;
    hide Evals;
    RowsWithAppend(sent, r, c.columns1[k.0], k.1);
    var group := RowsWith(sent, c.columns1[k.0], k.1);
    assert (group + [r])[..w.read] == group[..w.read] && (group + [r])[w.read..] == group[w.read..] + [r];
  }

  lemma StartWorker(c: Config, sent: seq<Row>, r: Row, closed: bool, k: Key)
    requires k.0 < |c.columns1| && k.1 != "" && !IsGroup(c, sent, k) && GroupKeyAt(r, c.columns1[k.0]) == k.1
    ensures WorkerOk(c, sent + [r], closed, k, NewWorker(c, k.0).(queue := [r]))
  {
    hide RowsWith;
    hide Evals;
    RowsWithAppend(sent, r, c.columns1[k.0], k.1);
    assert [r][..0] == [] && [r][0..] == [r] && [] + [r] == [r];
  }

  lemma PassOver(c: Config, sent: seq<Row>, r: Row, k: Key)
    requires k.0 < |c.columns1| && GroupKeyAt(r, c.columns1[k.0]) != k.1
    ensures RowsWith(sent + [r], c.columns1[k.0], k.1) == RowsWith(sent, c.columns1[k.0], k.1)
  {
    RowsWithAppend(sent, r, c.columns1[k.0], k.1);
  }

  /** What handing row r to distributor d does to worker k and to the set of groups. */
  lemma SendToKey(c: Config, rows: seq<Row>, s: Sys, k: Key)
    requires ControlOk(c, rows, s) && WorkersOk(c, rows, s) && Enabled(c, rows, s, Send)
    ensures var s' := Apply(c, rows, s, Send);
            && (k in s'.workers ==> WorkerOk(c, Sent(rows, s', k.0), s'.closed, k, s'.workers[k]))
            && (IsGroup(c, Sent(rows, s', k.0), k) ==> k in s'.workers)
            && (k in s'.workers && k !in s.workers ==> s'.workers[k].phase.Reading?)
            && (k in s.workers ==> k in s'.workers && s'.workers[k].phase == s.workers[k].phase
                                   && s'.workers[k].hists == s.workers[k].hists)
  {
    hide RowsWith;
    hide Texts;
    hide HistOf;
    hide Evals;
    var s', d, r := Apply(c, rows, s, Send), s.dist.d, rows[s.taken - 1];
    var sent := Sent(rows, s, k.0);
    if k.0 == d {
      assert Sent(rows, s', d) == sent + [r];
      if GroupKeyAt(r, c.columns1[d]) != k.1 {
        PassOver(c, sent, r, k);
      } else if k in s.workers {
        QueueRow(c, sent, r, s.closed, k, s.workers[k]);
      } else if k.1 != "" {
        StartWorker(c, sent, r, s.closed, k);
        assert [] + [r] == [r];
      }
    } else {
      assert Sent(rows, s', k.0) == sent;
    }
  }

  /** A step that leaves the reports alone keeps the message invariant. */
  lemma SameReports(c: Config, rows: seq<Row>, s: Sys, s': Sys, ms: seq<Msg>)
    requires MsgsOk(c, rows, s, ms)
    requires forall k: Key, i: nat :: Reported(c, s, k, i) <==> Reported(c, s', k, i)
    ensures MsgsOk(c, rows, s', ms)
  {
    hide DirectGroup;
    hide Evals;
    hide Reported;
  }

  lemma SendInv(c: Config, rows: seq<Row>, s: Sys)
    requires Inv(c, rows, s) && Enabled(c, rows, s, Send)
    ensures Inv(c, rows, Apply(c, rows, s, Send))
  {
    hide MsgsOk;
    hide WorkerOk;
    hide IsGroup;
    hide HistOf;
    hide Texts;
    hide FoldMsgs;
    var s' := Apply(c, rows, s, Send);
    forall k: Key
      ensures (k in s'.workers ==> WorkerOk(c, Sent(rows, s', k.0), s'.closed, k, s'.workers[k]))
      ensures IsGroup(c, Sent(rows, s', k.0), k) ==> k in s'.workers
    {
      SendToKey(c, rows, s, k);
    }
    forall k: Key, i: nat ensures Reported(c, s, k, i) <==> Reported(c, s', k, i) {
      SendToKey(c, rows, s, k);
    }
    SameReports(c, rows, s, s', s.arrived + s.channel);
  }

  /** Reading one queued row. */
  lemma WorkKeepsWorker(c: Config, sent: seq<Row>, closed: bool, k: Key, w: Worker)
    requires WorkerOk(c, sent, closed, k, w) && w.phase.Reading? && w.queue != []
    ensures k.0 < |c.columns1| && |w.hists| == |Evals(c, k.0)|
    ensures WorkerOk(c, sent, closed, k,
                     Worker(w.queue[1..], w.read + 1, ApplyAll(c, w.hists, w.queue[0], Evals(c, k.0)), Reading))
  {
    hide RowsWith;
    hide Texts;
    hide HistOf;
    hide Evals;
    var group, evals := RowsWith(sent, c.columns1[k.0], k.1), Evals(c, k.0);
    assert w.queue[0] == group[w.read] && w.queue[1..] == group[w.read + 1..];
    assert group[..w.read + 1] == group[..w.read] + [w.queue[0]];
    forall i | 0 <= i < |evals|
      ensures ApplyRow(c, w.hists[i], w.queue[0], evals[i]) == HistOf(c.f, Texts(group[..w.read + 1], evals[i]))
    {
      HistOfTextsAppend(c, group[..w.read], w.queue[0], evals[i]);
    }
  }

  /** Replacing the state of one worker by another correct one. */
  lemma ReplaceWorker(c: Config, rows: seq<Row>, s: Sys, s': Sys, k: Key, w: Worker)
    requires ControlOk(c, rows, s) && WorkersOk(c, rows, s) && k in s.workers
    requires s'.workers == s.workers[k := w] && s'.taken == s.taken && s'.dist == s.dist && s'.closed == s.closed
    requires WorkerOk(c, Sent(rows, s, k.0), s.closed, k, w)
    ensures WorkersOk(c, rows, s')
  {
    hide WorkerOk;
    hide IsGroup;
    forall j: Key ensures Sent(rows, s', j.0) == Sent(rows, s, j.0) {}
  }

  lemma GetWorker(c: Config, rows: seq<Row>, s: Sys, k: Key)
    requires s.taken <= |rows| && WorkersOk(c, rows, s) && k in s.workers
    ensures WorkerOk(c, Sent(rows, s, k.0), s.closed, k, s.workers[k])
  {}

  predicate Passed(w: Worker, i: nat) {
    w.phase.Finished? || (w.phase.Reporting? && i < w.phase.i)
  }

  /** Changing one worker without passing another evaluator leaves the reports alone. */
  lemma ReportsUnchanged(c: Config, s: Sys, s': Sys, k: Key, w: Worker)
    requires k in s.workers && s'.workers == s.workers[k := w] && |w.hists| == |s.workers[k].hists|
    requires (w.hists == s.workers[k].hists && forall i: nat | i < |w.hists| && w.hists[i].total > c.minCount ::
                Passed(w, i) <==> Passed(s.workers[k], i))
             || (w.phase.Reading? && s.workers[k].phase.Reading?)
    ensures forall j: Key, i: nat :: Reported(c, s, j, i) <==> Reported(c, s', j, i)
  {}

  lemma WorkInv(c: Config, rows: seq<Row>, s: Sys, k: Key)
    requires Inv(c, rows, s) && Enabled(c, rows, s, Work(k))
    ensures Inv(c, rows, Apply(c, rows, s, Work(k)))
  {
    hide MsgsOk;
    hide WorkersOk;
    hide WorkerOk;
    hide HistOf;
    hide Texts;
    hide FoldMsgs;
    hide Evals;
    hide ApplyAll;
    hide Reported;
    var s', w := Apply(c, rows, s, Work(k)), s.workers[k];
    GetWorker(c, rows, s, k);
    WorkKeepsWorker(c, Sent(rows, s, k.0), s.closed, k, w);
    ReplaceWorker(c, rows, s, s', k, s'.workers[k]);
    ReportsUnchanged(c, s, s', k, s'.workers[k]);
    SameReports(c, rows, s, s', s.arrived + s.channel);
  }

  lemma NewPhase(c: Config, sent: seq<Row>, closed: bool, k: Key, w: Worker, phase: Phase)
    requires WorkerOk(c, sent, closed, k, w) && w.queue == [] && closed
    requires phase.Reporting? ==> phase.i <= |w.hists|
    ensures WorkerOk(c, sent, closed, k, w.(phase := phase))
  {
    hide RowsWith;
    hide Texts;
    hide HistOf;
    hide Evals;
  }

  lemma DoneReading(c: Config, sent: seq<Row>, closed: bool, k: Key, w: Worker)
    requires WorkerOk(c, sent, closed, k, w) && !w.phase.Reading?
    ensures closed && w.queue == [] && k.0 < |c.columns1|
  {
    hide RowsWith;
    hide Texts;
    hide HistOf;
    hide Evals;
  }

  lemma PhaseInv(c: Config, rows: seq<Row>, s: Sys, step: Step)
    requires Inv(c, rows, s) && Enabled(c, rows, s, step) && (step.EndInput? || step.Finish?)
    ensures Inv(c, rows, Apply(c, rows, s, step))
  {
    hide MsgsOk;
    hide WorkersOk;
    hide WorkerOk;
    hide HistOf;
    hide Texts;
    hide FoldMsgs;
    hide Reported;
    var s', k := Apply(c, rows, s, step), step.k;
    GetWorker(c, rows, s, k);
    if step.Finish? {
      DoneReading(c, Sent(rows, s, k.0), s.closed, k, s.workers[k]);
    }
    NewPhase(c, Sent(rows, s, k.0), s.closed, k, s.workers[k], s'.workers[k].phase);
    ReplaceWorker(c, rows, s, s', k, s'.workers[k]);
    ReportsUnchanged(c, s, s', k, s'.workers[k]);
    SameReports(c, rows, s, s', s.arrived + s.channel);
  }

  /** The histogram a worker ends with reports the direct group. */
  lemma HistIsDirectGroup(c: Config, rows: seq<Row>, p1: nat, p2: nat, v: string)
    ensures GroupOfHist(HistOf(c.f, Texts(RowsWith(rows, p1, v), p2))) == DirectGroup(c, rows, p1, p2, v)
  {
    var values := Texts(RowsWith(rows, p1, v), p2);
    HistIsGroupBy(c.f, values);
    DistinctKeys(c.f, values);
  }

  lemma ReportedGroup(c: Config, rows: seq<Row>, s: Sys, k: Key, i: nat)
    requires ControlOk(c, rows, s) && WorkersOk(c, rows, s)
    requires k in s.workers && !s.workers[k].phase.Reading? && i < |s.workers[k].hists|
    ensures k.0 < |c.columns1| && k.1 != "" && i < |Evals(c, k.0)|
    ensures s.workers[k].hists[i] == HistOf(c.f, Texts(RowsWith(rows, c.columns1[k.0], k.1), Evals(c, k.0)[i]))
    ensures GroupOfHist(s.workers[k].hists[i]) == DirectGroup(c, rows, c.columns1[k.0], Evals(c, k.0)[i], k.1)
  {
    hide RowsWith;
    hide Texts;
    hide HistOf;
    hide Evals;
    var w := s.workers[k];
    assert WorkerOk(c, Sent(rows, s, k.0), s.closed, k, w);
    assert rows[..|rows|] == rows;
    var group := RowsWith(rows, c.columns1[k.0], k.1);
    assert group[..w.read] == group;
    HistIsDirectGroup(c, rows, c.columns1[k.0], Evals(c, k.0)[i], k.1);
  }

  /** One more report: its message is new, correct, and the only change to the set of reports. */
  lemma OneMoreReport(c: Config, rows: seq<Row>, s: Sys, s': Sys, ms: seq<Msg>, m: Msg)
    requires MsgsOk(c, rows, s, ms) && !Reported(c, s, m.key, m.eval) && MsgOk(c, rows, s', m)
    requires forall k: Key, i: nat :: Reported(c, s', k, i) <==> Reported(c, s, k, i) || (k, i) == TagOf(m)
    ensures MsgsOk(c, rows, s', ms + [m])
  {
    hide DirectGroup;
    hide Evals;
    hide Reported;
    var ms' := ms + [m];
    forall x, y | 0 <= x < y < |ms'| ensures TagOf(ms'[x]) != TagOf(ms'[y]) {
      assert MsgOk(c, rows, s, ms'[x]) by { assert ms'[x] in ms; }
    }
    forall n | n in ms' ensures MsgOk(c, rows, s', n) {
      if n in ms { assert MsgOk(c, rows, s, n); }
    }
    forall k: Key, i: nat | Reported(c, s', k, i) ensures HasMsg(ms', k, i) {
      if (k, i) == TagOf(m) {
        assert m in ms';
      } else {
        assert HasMsg(ms, k, i);
        var n :| n in ms && TagOf(n) == (k, i);
        assert n in ms';
      }
    }
  }

  lemma ReportExtends(c: Config, s: Sys, s': Sys, k: Key)
    requires k in s.workers && s.workers[k].phase.Reporting? && s.workers[k].phase.i < |s.workers[k].hists|
    requires s'.workers == s.workers[k := s.workers[k].(phase := Reporting(s.workers[k].phase.i + 1))]
    ensures var i := s.workers[k].phase.i;
            && !Reported(c, s, k, i)
            && forall j: Key, x: nat ::
                 Reported(c, s', j, x)
                 <==> Reported(c, s, j, x) || ((j, x) == (k, i) && s.workers[k].hists[i].total > c.minCount)
  {}

  lemma ReportInv(c: Config, rows: seq<Row>, s: Sys, k: Key)
    requires Inv(c, rows, s) && Enabled(c, rows, s, Report(k))
    ensures Inv(c, rows, Apply(c, rows, s, Report(k)))
  {
    hide MsgsOk;
    hide WorkersOk;
    hide WorkerOk;
    hide HistOf;
    hide Texts;
    hide FoldMsgs;
    hide Evals;
    hide DirectGroup;
    hide Reported;
    var s', w := Apply(c, rows, s, Report(k)), s.workers[k];
    var i, ms := w.phase.i, s.arrived + s.channel;
    GetWorker(c, rows, s, k);
    DoneReading(c, Sent(rows, s, k.0), s.closed, k, w);
    NewPhase(c, Sent(rows, s, k.0), s.closed, k, w, Reporting(i + 1));
    ReplaceWorker(c, rows, s, s', k, s'.workers[k]);
    ReportedGroup(c, rows, s, k, i);
    ReportExtends(c, s, s', k);
    if w.hists[i].total > c.minCount {
      var m := Msg(k, i, GroupOfHist(w.hists[i]));
      assert s'.arrived + s'.channel == ms + [m];
      OneMoreReport(c, rows, s, s', ms, m);
    } else {
      SameReports(c, rows, s, s', ms);
    }
  }

  lemma StepInv(c: Config, rows: seq<Row>, s: Sys, step: Step)
    requires Inv(c, rows, s) && Enabled(c, rows, s, step)
    ensures Inv(c, rows, Apply(c, rows, s, step))
  {
    hide *;
    match step
    case TakeRow => TakeRowInv(c, rows, s);
    case Send => SendInv(c, rows, s);
    case Work(k) => WorkInv(c, rows, s, k);
    case Report(k) => ReportInv(c, rows, s, k);
    case EndInput(k) => PhaseInv(c, rows, s, step);
    case Finish(k) => PhaseInv(c, rows, s, step);
    case Collect => CollectInv(c, rows, s);
    case EndRow => ControlStepInv(c, rows, s, step);
    case CloseWorkers => ControlStepInv(c, rows, s, step);
    case CloseResults => ControlStepInv(c, rows, s, step);
    case ReadMarginals => ControlStepInv(c, rows, s, step);
  }

  /** The invariant holds in every state of every run. */
  lemma {:induction false} RunInv(c: Config, rows: seq<Row>, run: seq<Sys>, i: nat)
    requires IsRun(c, rows, run) && i < |run|
    ensures Inv(c, rows, run[i])
  {
    hide Inv;
    hide Init;
    hide Apply;
    hide Enabled;
    if i == 0 {
      InitInv(c, rows);
    } else {
      RunInv(c, rows, run, i - 1);
      assert Next(c, rows, run[i - 1], run[i - 1 + 1]);
      var step :| Enabled(c, rows, run[i - 1], step) && run[i] == Apply(c, rows, run[i - 1], step);
      StepInv(c, rows, run[i - 1], step);
    }
  }

  // ---------- What a finished run has computed ----------

  lemma {:induction false} GroupKeysMember(rows: seq<Row>, p: nat, v: string)
    ensures v in GroupKeys(rows, p) <==> v != "" && RowsWith(rows, p, v) != []
  {
    if rows != [] {
      GroupKeysMember(rows[..|rows| - 1], p, v);
    }
  }

  /** The column1 values of the messages of one pair, in order of arrival. */
  function KeysFor(c: Config, ms: seq<Msg>, pair: (nat, nat)): (r: seq<string>)
    ensures forall v :: v in r <==> exists m | m in ms :: PairOf(c, m) == pair && m.key.1 == v
  {
    if ms == [] then []
    else
      var front, m := ms[..|ms| - 1], ms[|ms| - 1];
      assert ms == front + [m];
      var r := KeysFor(c, front, pair);
      if PairOf(c, m) == pair then r + [m.key.1] else r
  }

  lemma {:induction false} FoldMsgsIsFoldKeys(c: Config, ms: seq<Msg>, pair: (nat, nat), g: string -> Group)
    requires forall m | m in ms && PairOf(c, m) == pair :: m.group == g(m.key.1)
    ensures FoldMsgs(c, ms, pair) == FoldKeys(KeysFor(c, ms, pair), g)
  {
    hide PairOf;
    if ms != [] {
      var front, m := ms[..|ms| - 1], ms[|ms| - 1];
      assert ms == front + [m];
      FoldMsgsIsFoldKeys(c, front, pair, g);
      if PairOf(c, m) == pair {
        FoldAppend(KeysFor(c, front, pair), m.key.1, g);
      }
    }
  }

  ghost predicate InRange(c: Config, m: Msg) {
    m.key.0 < |c.columns1| && m.eval < |Evals(c, m.key.0)|
  }

  /** A column pair names one distributor and one of its evaluators. */
  lemma PairDeterminesTag(c: Config, m: Msg, m': Msg)
    requires DistinctColumns(c)
    requires InRange(c, m) && InRange(c, m') && PairOf(c, m) == PairOf(c, m')
    ensures m.key.0 == m'.key.0 && m.eval == m'.eval
  {
    hide Without;
    assert m.key.0 == m'.key.0;
    var evals := Evals(c, m.key.0);
    assert NoDuplicates(evals);
  }

  lemma {:induction false} KeysForDistinct(c: Config, ms: seq<Msg>, pair: (nat, nat))
    requires DistinctColumns(c)
    requires forall m | m in ms :: InRange(c, m)
    requires forall x, y :: 0 <= x < y < |ms| ==> TagOf(ms[x]) != TagOf(ms[y])
    ensures NoDuplicates(KeysFor(c, ms, pair))
  {
    hide InRange;
    hide PairOf;
    hide DistinctColumns;
    if ms != [] {
      var front, m := ms[..|ms| - 1], ms[|ms| - 1];
      assert ms == front + [m];
      KeysForDistinct(c, front, pair);
      if PairOf(c, m) == pair {
        NewKey(c, front, m, pair);
      }
    }
  }

  lemma NewKey(c: Config, front: seq<Msg>, m: Msg, pair: (nat, nat))
    requires DistinctColumns(c) && InRange(c, m) && PairOf(c, m) == pair
    requires forall n | n in front :: InRange(c, n)
    requires forall x, y :: 0 <= x < y < |front + [m]| ==> TagOf((front + [m])[x]) != TagOf((front + [m])[y])
    ensures m.key.1 !in KeysFor(c, front, pair)
  {
    hide InRange;
    hide PairOf;
    hide DistinctColumns;
    hide KeysFor;
    var ms := front + [m];
    forall n | n in front && PairOf(c, n) == pair ensures n.key.1 != m.key.1 {
      PairDeterminesTag(c, n, m);
      var x :| 0 <= x < |front| && front[x] == n;
      assert TagOf(ms[x]) != TagOf(ms[|front|]);
    }
  }

  /** When the results are closed, the reports of a pair are exactly its qualifying groups. */
  lemma ReportedIsQualifying(c: Config, rows: seq<Row>, s: Sys, d: nat, e: nat, v: string)
    requires Inv(c, rows, s) && s.resultsClosed && d < |c.columns1| && e < |Evals(c, d)|
    ensures Reported(c, s, (d, v), e)
       <==> v in Qualifying(c, rows, c.columns1[d], Evals(c, d)[e], Distinct(GroupKeys(rows, c.columns1[d])))
  {
    hide RowsWith;
    hide Texts;
    hide Evals;
    hide MsgsOk;
    hide Qualifying;
    hide Distinct;
    hide GroupKeys;
    hide AccOk;
    var k, p1, p2 := (d, v), c.columns1[d], Evals(c, d)[e];
    var values := Texts(RowsWith(rows, p1, v), p2);
    assert rows[..|rows|] == rows && Sent(rows, s, d) == rows;
    GroupKeysMember(rows, p1, v);
    HistCounts(c.f, values, "");
    assert k in s.workers <==> v != "" && RowsWith(rows, p1, v) != [] by {
      if k in s.workers { GetWorker(c, rows, s, k); }
      assert IsGroup(c, Sent(rows, s, k.0), k) <==> v != "" && RowsWith(rows, p1, v) != [];
    }
    if k in s.workers {
      GetWorker(c, rows, s, k);
      ReportedGroup(c, rows, s, k, e);
    }
  }

  /**
   The pooled statistics of every column pair are those of a direct group-by of the rows: for every run
   that reaches the scores, whatever the interleaving.
   */
  lemma PoolComputesGroupBy(c: Config, rows: seq<Row>, run: seq<Sys>, d: nat, e: nat)
    requires DistinctColumns(c) && IsRun(c, rows, run) && run[|run| - 1].scores.Read?
    requires d < |c.columns1| && e < |Evals(c, d)|
    ensures var s, p1, p2 := run[|run| - 1], c.columns1[d], Evals(c, d)[e];
            StatsAt(s.acc, (p1, p2)) == DirectStats(c, rows, p1, p2)
  {
    hide Evals;
    hide PairOf;
    hide DirectGroup;
    hide FoldMsgs;
    hide KeysFor;
    hide Qualifying;
    hide Distinct;
    hide GroupKeys;
    hide Reported;
    hide WorkersOk;
    var s, p1, p2 := run[|run| - 1], c.columns1[d], Evals(c, d)[e];
    RunInv(c, rows, run, |run| - 1);
    var ms := s.arrived;
    assert s.arrived + s.channel == ms;
    var want := Qualifying(c, rows, p1, p2, Distinct(GroupKeys(rows, p1)));
    var g := (v: string) => DirectGroup(c, rows, p1, p2, v);
    forall m | m in ms && PairOf(c, m) == (p1, p2)
      ensures m.group == g(m.key.1) && m.key.0 == d && m.eval == e
    {
      PairAt(c, m, d, e);
    }
    FoldMsgsIsFoldKeys(c, ms, (p1, p2), g);
    KeysForDistinct(c, ms, (p1, p2));
    forall v ensures v in KeysFor(c, ms, (p1, p2)) <==> v in want {
      ReportedIsQualifying(c, rows, s, d, e, v);
      KeysForReported(c, rows, s, ms, d, e, v);
    }
    FoldOrderIndependent(KeysFor(c, ms, (p1, p2)), want, g);
  }

  lemma PairAt(c: Config, m: Msg, d: nat, e: nat)
    requires DistinctColumns(c)
    requires d < |c.columns1| && e < |Evals(c, d)| && InRange(c, m)
    ensures PairOf(c, m) == (c.columns1[d], Evals(c, d)[e]) <==> m.key.0 == d && m.eval == e
  {
    hide Evals;
    var n := Msg((d, ""), e, m.group);
    if PairOf(c, m) == (c.columns1[d], Evals(c, d)[e]) {
      PairDeterminesTag(c, m, n);
    }
  }

  lemma KeysForReported(c: Config, rows: seq<Row>, s: Sys, ms: seq<Msg>, d: nat, e: nat, v: string)
    requires DistinctColumns(c)
    requires d < |c.columns1| && e < |Evals(c, d)| && MsgsOk(c, rows, s, ms)
    ensures v in KeysFor(c, ms, (c.columns1[d], Evals(c, d)[e])) <==> Reported(c, s, (d, v), e)
  {
    hide Evals;
    hide PairOf;
    hide DirectGroup;
    hide Reported;
    var pair := (c.columns1[d], Evals(c, d)[e]);
    forall m | m in ms ensures MsgOk(c, rows, s, m) && (PairOf(c, m) == pair <==> m.key.0 == d && m.eval == e) {
      PairAt(c, m, d, e);
    }
    if Reported(c, s, (d, v), e) {
      assert HasMsg(ms, (d, v), e);
      var m :| m in ms && TagOf(m) == ((d, v), e);
    }
  }

  /** The marginals the scores are computed from are those of all the rows: they are read after the last write. */
  lemma MarginalsAreComplete(c: Config, rows: seq<Row>, run: seq<Sys>)
    requires IsRun(c, rows, run) && run[|run| - 1].scores.Read?
    ensures var read := run[|run| - 1].scores.marginals;
            && read.Keys == MarginalColumns(c)
            && forall p | p in read :: read[p] == HistOf(c.f, Texts(rows, p))
  {
    hide HistOf;
    hide Texts;
    hide MsgsOk;
    hide WorkersOk;
    RunInv(c, rows, run, |run| - 1);
    assert rows[..|rows|] == rows;
  }

  /** A worker that is not finished can act, unless the channel it reports to is full. */
  lemma WorkerCanAct(c: Config, rows: seq<Row>, s: Sys, k: Key) returns (step: Step)
    requires Inv(c, rows, s) && s.closed && k in s.workers && !s.workers[k].phase.Finished?
    ensures Enabled(c, rows, s, step)
  {
    hide MsgsOk;
    hide AccOk;
    hide MarginalsOk;
    hide HistOf;
    hide Texts;
    hide RowsWith;
    hide WorkersOk;
    GetWorker(c, rows, s, k);
    var w := s.workers[k];
    if w.phase.Reading? {
      step := if w.queue != [] then Work(k) else EndInput(k);
    } else if w.phase.i == |w.hists| {
      step := Finish(k);
    } else {
      step := if |s.channel| < RESULT_CAPACITY then Report(k) else Collect;
    }
  }

  /** The distribution goroutine can act, unless a full worker channel holds it up; then that worker can. */
  lemma DistributionCanAct(c: Config, rows: seq<Row>, s: Sys) returns (step: Step)
    requires Inv(c, rows, s) && !s.closed
    ensures Enabled(c, rows, s, step)
  {
    hide MsgsOk;
    hide AccOk;
    hide MarginalsOk;
    hide HistOf;
    hide Texts;
    hide RowsWith;
    hide WorkersOk;
    if s.dist.Idle? {
      step := if s.taken < |rows| then TakeRow else CloseWorkers;
    } else if s.dist.d == |c.columns1| {
      step := EndRow;
    } else {
      var k := (s.dist.d, GroupKeyAt(rows[s.taken - 1], c.columns1[s.dist.d]));
      if k in s.workers && |s.workers[k].queue| >= WORKER_CAPACITY {
        GetWorker(c, rows, s, k);
        step := Work(k);
      } else {
        step := Send;
      }
    }
  }

  /** The channels are bounded: at most one row waits for a worker, at most 100 reports for the collector. */
  ghost predicate ChannelsBounded(s: Sys) {
    (forall k | k in s.workers :: |s.workers[k].queue| <= 1) && |s.channel| <= 100
  }

  lemma StepKeepsChannels(c: Config, rows: seq<Row>, s: Sys, step: Step)
    requires ChannelsBounded(s) && Enabled(c, rows, s, step)
    ensures ChannelsBounded(Apply(c, rows, s, step))
  {
    hide Evals;
    hide GroupKeyAt;
    hide GroupOfHist;
    hide ApplyAll;
    var s' := Apply(c, rows, s, step);
    if step.Send? {
      forall k | k in s'.workers ensures |s'.workers[k].queue| <= 1 {}
    }
  }

  lemma {:induction false} RunKeepsChannels(c: Config, rows: seq<Row>, run: seq<Sys>, i: nat)
    requires IsRun(c, rows, run) && i < |run|
    ensures ChannelsBounded(run[i])
  {
    hide Enabled;
    hide Apply;
    hide ChannelsBounded;
    if i == 0 {
      NoChannels(c);
    } else {
      RunKeepsChannels(c, rows, run, i - 1);
      assert Next(c, rows, run[i - 1], run[i - 1 + 1]);
      var step :| Enabled(c, rows, run[i - 1], step) && run[i] == Apply(c, rows, run[i - 1], step);
      StepKeepsChannels(c, rows, run[i - 1], step);
    }
  }

  lemma NoChannels(c: Config)
    ensures ChannelsBounded(Init(c))
  {}

  ghost predicate CanStep(c: Config, rows: seq<Row>, s: Sys) {
    exists step :: Enabled(c, rows, s, step)
  }

  /** No run can get stuck before the scores are read, even with the bounded channels. */
  lemma NoDeadlock(c: Config, rows: seq<Row>, run: seq<Sys>)
    requires IsRun(c, rows, run) && run[|run| - 1].scores.NotYet?
    ensures CanStep(c, rows, run[|run| - 1])
  {
    var s := run[|run| - 1];
    RunInv(c, rows, run, |run| - 1);
    if !s.closed {
      var step := DistributionCanAct(c, rows, s);
    } else if k :| k in s.workers && !s.workers[k].phase.Finished? {
      var step := WorkerCanAct(c, rows, s, k);
    } else if !s.resultsClosed {
      assert Enabled(c, rows, s, CloseResults);
    } else {
      assert Enabled(c, rows, s, if s.channel != [] then Collect else ReadMarginals);
    }
  }
}
