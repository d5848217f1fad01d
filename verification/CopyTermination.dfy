/** Every run of a multipart copy is finite, and when nothing more can happen the caller has its answer. */
module CopyTermination {
  import opened CopyPlan
  import opened CopyProtocol

  function Flag(b: bool): nat { if b then 0 else 1 }

  /** The steps a worker still has before it, the retries of its part included. */
  function WorkerRank(w: Worker): nat {
    match w
    case Waiting => 1
    case Copying(_, retries) => 4 + (if retries < MAX_RETRY then MAX_RETRY - retries else 0)
    case Copied(_) => 3
    case Left => 0
    case GaveUp(_) => 0
  }

  function WorkersRank(ws: seq<Worker>): nat {
    if ws == [] then 0 else WorkersRank(ws[..|ws| - 1]) + WorkerRank(ws[|ws| - 1])
  }

  /** A bound on the steps still to come: a part takes at most MAX_RETRY + 6 of them. */
  ghost function Rank(plan: seq<Part>, s: Sys): nat {
    (if s.next <= |plan| then |plan| - s.next else 0) * (MAX_RETRY + 6) + |s.tasks| * (MAX_RETRY + 5)
    + WorkersRank(s.workers) + |s.results|
    + Flag(s.tasksClosed) + Flag(s.resultsClosed) + Flag(s.errorsClosed) + Flag(!s.outcome.Running?)
  }

  lemma {:induction false} WorkersRankUpdate(ws: seq<Worker>, i: nat, w: Worker)
    requires i < |ws|
    ensures WorkersRank(ws[i := w]) == WorkersRank(ws) - WorkerRank(ws[i]) + WorkerRank(w)
  {
    hide WorkerRank;
    var m := |ws| - 1;
    if i < m {
      WorkersRankUpdate(ws[..m], i, w);
      assert ws[i := w][..m] == ws[..m][i := w];
    } else {
      assert ws[i := w][..m] == ws[..m];
    }
  }

  lemma TakeLowersRank(plan: seq<Part>, s: Sys, w: nat)
    requires Enabled(plan, s, Take(w))
    ensures Rank(plan, Apply(plan, s, Take(w))) < Rank(plan, s)
  {
    hide WorkersRank;
    WorkersRankUpdate(s.workers, w, Copying(s.tasks[0], 0));
  }

  lemma HandOnLowersRank(plan: seq<Part>, s: Sys, w: nat)
    requires Enabled(plan, s, HandOn(w))
    ensures Rank(plan, Apply(plan, s, HandOn(w))) < Rank(plan, s)
  {
    hide WorkersRank;
    WorkersRankUpdate(s.workers, w, Waiting);
  }

  /** A step that changes one worker and no queue. */
  lemma WorkerStepLowersRank(plan: seq<Part>, s: Sys, s': Sys, i: nat, w: Worker)
    requires i < |s.workers| && s'.workers == s.workers[i := w] && WorkerRank(w) < WorkerRank(s.workers[i])
    requires s'.next == s.next && s'.tasks == s.tasks && s'.results == s.results && s'.outcome == s.outcome
    requires s'.tasksClosed == s.tasksClosed && s'.resultsClosed == s.resultsClosed && s'.errorsClosed == s.errorsClosed
    ensures Rank(plan, s') < Rank(plan, s)
  {
    hide WorkersRank;
    hide WorkerRank;
    WorkersRankUpdate(s.workers, i, w);
  }

  /** A step of the producer, the collector or the caller. */
  lemma PlainStepLowersRank(plan: seq<Part>, s: Sys, step: Step)
    requires Enabled(plan, s, step)
    requires !(step.Take? || step.HandOn? || step.Retry? || step.CopyDone? || step.Fail? || step.Leave?)
    ensures Rank(plan, Apply(plan, s, step)) < Rank(plan, s)
  {
    hide WorkersRank;
    hide SortedByNumber;
  }

  /** Every step lowers the rank. */
  lemma StepLowersRank(plan: seq<Part>, s: Sys, step: Step)
    requires Enabled(plan, s, step)
    ensures Rank(plan, Apply(plan, s, step)) < Rank(plan, s)
  {
    hide Rank;
    var s' := Apply(plan, s, step);
    match step
    case Take(w) => TakeLowersRank(plan, s, w);
    case HandOn(w) => HandOnLowersRank(plan, s, w);
    case Retry(w) => WorkerStepLowersRank(plan, s, s', w, s'.workers[w]);
    case CopyDone(w) => WorkerStepLowersRank(plan, s, s', w, s'.workers[w]);
    case Fail(w) => WorkerStepLowersRank(plan, s, s', w, s'.workers[w]);
    case Leave(w) => WorkerStepLowersRank(plan, s, s', w, s'.workers[w]);
    case _ => PlainStepLowersRank(plan, s, step);
  }

  /** No run has more steps than the rank of the initial state. */
  lemma {:induction false} RunsAreBounded(plan: seq<Part>, poolSize: nat, run: seq<Sys>, i: nat)
    requires IsRun(plan, poolSize, run) && i < |run|
    ensures i + Rank(plan, run[i]) <= Rank(plan, Init(poolSize))
  {
    hide Rank;
    hide Init;
    hide Enabled;
    if i > 0 {
      RunsAreBounded(plan, poolSize, run, i - 1);
      assert Next(plan, run[i - 1], run[i - 1 + 1]);
      var step :| Enabled(plan, run[i - 1], step) && run[i] == Apply(plan, run[i - 1], step);
      StepLowersRank(plan, run[i - 1], step);
    }
  }

  /** Every run can be carried on until nothing more can happen. */
  lemma {:induction false} EveryRunEnds(plan: seq<Part>, poolSize: nat, run: seq<Sys>) returns (whole: seq<Sys>)
    requires IsRun(plan, poolSize, run)
    ensures IsRun(plan, poolSize, whole) && run <= whole && !CanStep(plan, whole[|whole| - 1])
    decreases Rank(plan, run[|run| - 1])
  {
    hide Rank;
    hide Init;
    hide Enabled;
    hide Next;
    var s := run[|run| - 1];
    whole := run;
    if step :| Enabled(plan, s, step) {
      StepLowersRank(plan, s, step);
      var longer := Extend(plan, poolSize, run, step);
      whole := EveryRunEnds(plan, poolSize, longer);
    }
  }

  /** When nothing more can happen, the caller has returned, with success exactly if nothing interrupted the copy. */
  lemma EndedRunReturns(plan: seq<Part>, poolSize: nat, run: seq<Sys>)
    requires IsRun(plan, poolSize, run) && !CanStep(plan, run[|run| - 1])
    ensures !run[|run| - 1].outcome.Running?
    ensures run[|run| - 1].outcome.Success? <==> !run[|run| - 1].interrupted
  {
    hide Conserved;
    hide Enabled;
    hide Next;
    var s := run[|run| - 1];
    RunInv(plan, poolSize, run, |run| - 1);
    if s.outcome.Running? {
      NoDeadlock(plan, poolSize, run);
    }
  }
}
