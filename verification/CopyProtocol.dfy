/**
 The producer, the worker pool and the collector of a multipart copy, as a state machine.

 The producer sends the planned parts over a channel of capacity one and stops early once the copy
 is interrupted. Workers copy parts, retrying, and either hand on the result or report an error and
 leave. When all workers have left, the collector sorts what arrived and completes the upload. The
 caller returns the first error, or success once the error channel is closed without one.
 */
module CopyProtocol {
  import opened CopyPlan

  const MAX_RETRY: nat := 4

  datatype Worker = Waiting | Copying(part: Part, retries: nat) | Copied(part: Part) | Left | GaveUp(part: Part)

  datatype Outcome = Running | Success | Failure

  datatype Sys = Sys(
    next: nat, tasks: seq<Part>, tasksClosed: bool, interrupted: bool,
    workers: seq<Worker>, results: seq<Part>, resultsClosed: bool,
    collected: seq<Part>, completed: seq<Part>, errors: nat, errorsClosed: bool, outcome: Outcome)

  datatype Step =
    | Produce | StopProducing
    | Take(w: nat) | Retry(w: nat) | CopyDone(w: nat) | HandOn(w: nat) | Fail(w: nat) | Leave(w: nat)
    | CloseResults | Collect | Complete(parts: seq<Part>) | CompleteFails
    | ReturnError | ReturnSuccess

  predicate Stopped(w: Worker) { w.Left? || w.GaveUp? }

  ghost predicate SortedByNumber(ps: seq<Part>) {
    forall i, j :: 0 <= i < j < |ps| ==> ps[i].number <= ps[j].number
  }

  function Init(poolSize: nat): Sys {
    Sys(0, [], false, false, seq(poolSize, _ => Waiting), [], false, [], [], 0, false, Running)
  }

  ghost predicate Enabled(plan: seq<Part>, s: Sys, step: Step) {
    match step
    case Produce => !s.tasksClosed && s.next < |plan| && s.tasks == []
    case StopProducing => !s.tasksClosed && (s.next == |plan| || s.interrupted)
    case Take(w) => w < |s.workers| && s.workers[w].Waiting? && s.tasks != []
    case Retry(w) => w < |s.workers| && s.workers[w].Copying? && s.workers[w].retries < MAX_RETRY
    case CopyDone(w) => w < |s.workers| && s.workers[w].Copying?
    case HandOn(w) => w < |s.workers| && s.workers[w].Copied? && s.results == []
    case Fail(w) => w < |s.workers| && s.workers[w].Copying?
    case Leave(w) => w < |s.workers| && s.workers[w].Waiting? && s.tasks == [] && s.tasksClosed
    case CloseResults => !s.resultsClosed && forall w | w in s.workers :: Stopped(w)
    case Collect => s.results != []
    case Complete(parts) =>
      && s.resultsClosed && s.results == [] && !s.errorsClosed
      && SortedByNumber(parts) && multiset(parts) == multiset(s.collected)
    case CompleteFails => s.resultsClosed && s.results == [] && !s.errorsClosed
    case ReturnError => s.outcome.Running? && s.errors > 0
    case ReturnSuccess => s.outcome.Running? && s.errors == 0 && s.errorsClosed
  }

  ghost function Apply(plan: seq<Part>, s: Sys, step: Step): Sys
    requires Enabled(plan, s, step)
  {
    match step
    case Produce => s.(next := s.next + 1, tasks := [plan[s.next]])
    case StopProducing => s.(tasksClosed := true)
    case Take(w) => s.(tasks := s.tasks[1..], workers := s.workers[w := Copying(s.tasks[0], 0)])
    case Retry(w) => s.(workers := s.workers[w := Copying(s.workers[w].part, s.workers[w].retries + 1)])
    case CopyDone(w) => s.(workers := s.workers[w := Copied(s.workers[w].part)])
    case HandOn(w) => s.(results := s.results + [s.workers[w].part], workers := s.workers[w := Waiting])
    case Fail(w) =>
      s.(workers := s.workers[w := GaveUp(s.workers[w].part)], errors := s.errors + 1, interrupted := true)
    case Leave(w) => s.(workers := s.workers[w := Left])
    case CloseResults => s.(resultsClosed := true)
    case Collect => s.(results := s.results[1..], collected := s.collected + [s.results[0]])
    case Complete(parts) => s.(completed := parts, errorsClosed := true)
    case CompleteFails => s.(errors := s.errors + 1, interrupted := true, errorsClosed := true)
    case ReturnError => s.(errors := s.errors - 1, outcome := Failure)
    case ReturnSuccess => s.(outcome := Success)
  }

  ghost predicate Next(plan: seq<Part>, s: Sys, s': Sys) {
    exists step :: Enabled(plan, s, step) && s' == Apply(plan, s, step)
  }

  ghost predicate IsRun(plan: seq<Part>, poolSize: nat, run: seq<Sys>) {
    && run != [] && run[0] == Init(poolSize)
    && forall i | 0 <= i < |run| - 1 :: Next(plan, run[i], run[i + 1])
  }

  // ---------- Where the parts are ----------

  function Holds(w: Worker, p: Part): nat {
    if (w.Copying? || w.Copied? || w.GaveUp?) && w.part == p then 1 else 0
  }

  /** How many workers hold part p. */
  function Holders(ws: seq<Worker>, p: Part): nat {
    if ws == [] then 0 else Holders(ws[..|ws| - 1], p) + Holds(ws[|ws| - 1], p)
  }

  lemma {:induction false} HoldersUpdate(ws: seq<Worker>, i: nat, w: Worker, p: Part)
    requires i < |ws|
    ensures Holders(ws[i := w], p) == Holders(ws, p) - Holds(ws[i], p) + Holds(w, p)
  {
    var m := |ws| - 1;
    if i < m {
      HoldersUpdate(ws[..m], i, w, p);
      assert ws[i := w][..m] == ws[..m][i := w];
    } else {
      assert ws[i := w][..m] == ws[..m];
    }
  }

  lemma {:induction false} NothingHeld(ws: seq<Worker>, p: Part)
    requires forall w | w in ws :: w.Left? || w.Waiting?
    ensures Holders(ws, p) == 0
  {
    if ws != [] {
      assert ws[|ws| - 1] in ws;
      NothingHeld(ws[..|ws| - 1], p);
    }
  }

  function Count(ps: seq<Part>, p: Part): nat {
    multiset(ps)[p]
  }

  lemma CountAppend(ps: seq<Part>, x: Part, p: Part)
    ensures Count(ps + [x], p) == Count(ps, p) + (if x == p then 1 else 0)
  {}

  lemma CountHead(ps: seq<Part>, p: Part)
    requires ps != []
    ensures Count(ps, p) == Count(ps[1..], p) + (if ps[0] == p then 1 else 0)
  {
    assert ps == [ps[0]] + ps[1..];
  }

  /** Part p, once sent, is in exactly one place as often as it was sent: none is lost or doubled. */
  ghost predicate ConservedPart(plan: seq<Part>, s: Sys, p: Part) {
    && s.next <= |plan|
    && Count(plan[..s.next], p)
       == Count(s.tasks, p) + Holders(s.workers, p) + Count(s.results, p) + Count(s.collected, p)
  }

  ghost predicate Conserved(plan: seq<Part>, s: Sys) {
    s.next <= |plan| && forall p :: ConservedPart(plan, s, p)
  }

  ghost predicate SomeoneGaveUp(s: Sys) {
    exists w | w in s.workers :: w.GaveUp?
  }

  ghost predicate WorkerControl(s: Sys) {
    && (forall w | w in s.workers :: w.Left? ==> s.tasksClosed && s.tasks == [])
    && (s.resultsClosed ==> forall w | w in s.workers :: Stopped(w))
  }

  ghost predicate ErrorControl(s: Sys) {
    SomeoneGaveUp(s) || s.interrupted ==> s.errors > 0 || s.outcome.Failure?
  }

  ghost predicate Control(plan: seq<Part>, s: Sys) {
    && WorkerControl(s) && ErrorControl(s)
    && |s.tasks| <= 1 && |s.results| <= 1
    && (s.tasksClosed ==> s.next == |plan| || s.interrupted)
    && (s.errorsClosed ==> s.resultsClosed && s.results == [])
    && (s.errorsClosed && !s.interrupted ==>
        SortedByNumber(s.completed) && multiset(s.completed) == multiset(s.collected))
    && (s.outcome.Success? ==> s.errorsClosed && s.errors == 0)
  }

  /** An interrupted copy has an error behind it: a part given up, or an upload that could not be completed. */
  ghost predicate Interruptions(s: Sys) {
    && (s.interrupted && !s.errorsClosed ==> SomeoneGaveUp(s))
    && (s.errors > 0 || s.outcome.Failure? ==> s.interrupted)
  }

  ghost predicate Inv(plan: seq<Part>, poolSize: nat, s: Sys) {
    Conserved(plan, s) && Control(plan, s) && Interruptions(s) && |s.workers| == poolSize
  }

  // ---------- Every step keeps the invariant ----------

  lemma InitInv(plan: seq<Part>, poolSize: nat)
    ensures Inv(plan, poolSize, Init(poolSize))
  {
    forall p ensures ConservedPart(plan, Init(poolSize), p) {
      NothingHeld(Init(poolSize).workers, p);
      assert plan[..0] == [];
    }
  }

  lemma ProduceConserves(plan: seq<Part>, s: Sys, p: Part)
    requires ConservedPart(plan, s, p) && Enabled(plan, s, Produce)
    ensures ConservedPart(plan, Apply(plan, s, Produce), p)
  {
    hide Holders;
    hide Count;
    var x := plan[s.next];
    CountAppend(plan[..s.next], x, p);
    CountAppend([], x, p);
    assert plan[..s.next + 1] == plan[..s.next] + [x];
    assert [] + [x] == [x];
  }

  lemma CollectConserves(plan: seq<Part>, s: Sys, p: Part)
    requires ConservedPart(plan, s, p) && Enabled(plan, s, Collect)
    ensures ConservedPart(plan, Apply(plan, s, Collect), p)
  {
    hide Holders;
    hide Count;
    CountHead(s.results, p);
    CountAppend(s.collected, s.results[0], p);
  }

  lemma TakeConserves(plan: seq<Part>, s: Sys, w: nat, p: Part)
    requires ConservedPart(plan, s, p) && Enabled(plan, s, Take(w))
    ensures ConservedPart(plan, Apply(plan, s, Take(w)), p)
  {
    hide Holders;
    hide Count;
    CountHead(s.tasks, p);
    HoldersUpdate(s.workers, w, Copying(s.tasks[0], 0), p);
  }

  lemma HandOnConserves(plan: seq<Part>, s: Sys, w: nat, p: Part)
    requires ConservedPart(plan, s, p) && Enabled(plan, s, HandOn(w))
    ensures ConservedPart(plan, Apply(plan, s, HandOn(w)), p)
  {
    hide Holders;
    hide Count;
    CountAppend(s.results, s.workers[w].part, p);
    HoldersUpdate(s.workers, w, Waiting, p);
  }

  lemma WorkerStepConserves(plan: seq<Part>, s: Sys, step: Step, p: Part)
    requires ConservedPart(plan, s, p) && Enabled(plan, s, step)
    requires step.Retry? || step.CopyDone? || step.Fail? || step.Leave?
    ensures ConservedPart(plan, Apply(plan, s, step), p)
  {
    hide Holders;
    hide Count;
    HoldersUpdate(s.workers, step.w, Apply(plan, s, step).workers[step.w], p);
  }

  lemma StepConservesPart(plan: seq<Part>, s: Sys, step: Step, p: Part)
    requires ConservedPart(plan, s, p) && Enabled(plan, s, step)
    ensures ConservedPart(plan, Apply(plan, s, step), p)
  {
    hide Holders;
    hide Count;
    match step
    case Produce => ProduceConserves(plan, s, p);
    case Collect => CollectConserves(plan, s, p);
    case Take(w) => TakeConserves(plan, s, w, p);
    case HandOn(w) => HandOnConserves(plan, s, w, p);
    case Retry(_) => WorkerStepConserves(plan, s, step, p);
    case CopyDone(_) => WorkerStepConserves(plan, s, step, p);
    case Fail(_) => WorkerStepConserves(plan, s, step, p);
    case Leave(_) => WorkerStepConserves(plan, s, step, p);
    case _ =>
  }

  lemma StepConserves(plan: seq<Part>, s: Sys, step: Step)
    requires Conserved(plan, s) && Enabled(plan, s, step)
    ensures Conserved(plan, Apply(plan, s, step))
  {
    hide ConservedPart;
    NextInPlan(plan, s, step);
    forall p ensures ConservedPart(plan, Apply(plan, s, step), p) {
      StepConservesPart(plan, s, step, p);
    }
  }

  lemma NextInPlan(plan: seq<Part>, s: Sys, step: Step)
    requires s.next <= |plan| && Enabled(plan, s, step)
    ensures Apply(plan, s, step).next <= |plan|
  {}

  /** A worker other than the one that acts is still there, and the one that acts is what the step makes of it. */
  lemma UpdatedMembers(ws: seq<Worker>, i: nat, w: Worker)
    requires i < |ws|
    ensures forall v | v in ws[i := w] :: v == w || v in ws
    ensures w in ws[i := w]
    ensures !ws[i].GaveUp? ==> forall v | v in ws && v.GaveUp? :: v in ws[i := w]
  {
    var ws' := ws[i := w];
    assert ws'[i] == w;
    forall v | v in ws && v.GaveUp? && !ws[i].GaveUp? ensures v in ws' {
      var j :| 0 <= j < |ws| && ws[j] == v;
      assert ws'[j] == v;
    }
  }

  /** A step changes no worker, or one that has not stopped. */
  lemma StepChangesOneWorker(plan: seq<Part>, s: Sys, step: Step) returns (i: nat)
    requires Enabled(plan, s, step)
    ensures var ws := Apply(plan, s, step).workers;
            ws == s.workers || (i < |s.workers| && i < |ws| && !Stopped(s.workers[i]) && ws == s.workers[i := ws[i]])
  {
    i := match step
      case Take(w) => w
      case Retry(w) => w
      case CopyDone(w) => w
      case HandOn(w) => w
      case Fail(w) => w
      case Leave(w) => w
      case _ => 0;
  }

  lemma StepKeepsWorkerControl(plan: seq<Part>, s: Sys, step: Step)
    requires Control(plan, s) && Enabled(plan, s, step)
    ensures WorkerControl(Apply(plan, s, step))
  {
    hide SomeoneGaveUp;
    hide SortedByNumber;
    var s' := Apply(plan, s, step);
    var i := StepChangesOneWorker(plan, s, step);
    if s'.workers != s.workers {
      UpdatedMembers(s.workers, i, s'.workers[i]);
      assert s.workers[i] in s.workers;
    }
  }

  lemma StepKeepsErrorControl(plan: seq<Part>, s: Sys, step: Step)
    requires Control(plan, s) && Enabled(plan, s, step)
    ensures ErrorControl(Apply(plan, s, step))
  {
    hide SomeoneGaveUp;
    hide SortedByNumber;
    hide WorkerControl;
    var s' := Apply(plan, s, step);
    if SomeoneGaveUp(s') && !SomeoneGaveUp(s) {
      OnlyFailGivesUp(plan, s, step);
    }
  }

  lemma OnlyFailGivesUp(plan: seq<Part>, s: Sys, step: Step)
    requires Enabled(plan, s, step) && !SomeoneGaveUp(s) && SomeoneGaveUp(Apply(plan, s, step))
    ensures step.Fail?
  {
    var s' := Apply(plan, s, step);
    var i := StepChangesOneWorker(plan, s, step);
    if s'.workers != s.workers {
      UpdatedMembers(s.workers, i, s'.workers[i]);
    }
  }

  lemma StepKeepsControl(plan: seq<Part>, s: Sys, step: Step)
    requires Control(plan, s) && Enabled(plan, s, step)
    ensures Control(plan, Apply(plan, s, step))
  {
    hide SomeoneGaveUp;
    StepKeepsWorkerControl(plan, s, step);
    StepKeepsErrorControl(plan, s, step);
    if step.HandOn? || step.Fail? {
      assert s.workers[step.w] in s.workers;
    }
  }

  lemma {:induction false} RunInv(plan: seq<Part>, poolSize: nat, run: seq<Sys>, i: nat)
    requires IsRun(plan, poolSize, run) && i < |run|
    ensures Inv(plan, poolSize, run[i])
  {
    hide Conserved;
    hide Control;
    hide Interruptions;
    hide Init;
    hide Enabled;
    if i == 0 {
      InitInv(plan, poolSize);
    } else {
      RunInv(plan, poolSize, run, i - 1);
      assert Next(plan, run[i - 1], run[i - 1 + 1]);
      var step :| Enabled(plan, run[i - 1], step) && run[i] == Apply(plan, run[i - 1], step);
      StepConserves(plan, run[i - 1], step);
      StepKeepsControl(plan, run[i - 1], step);
      StepKeepsInterruptions(plan, run[i - 1], step);
      StepKeepsPool(plan, run[i - 1], step);
    }
  }

  lemma StepKeepsInterruptions(plan: seq<Part>, s: Sys, step: Step)
    requires Interruptions(s) && Enabled(plan, s, step)
    ensures Interruptions(Apply(plan, s, step))
  {
    hide SomeoneGaveUp;
    if SomeoneGaveUp(s) {
      GaveUpStep(plan, s, step);
    } else if step.Fail? {
      FailGivesUp(plan, s, step.w);
    }
  }

  lemma FailGivesUp(plan: seq<Part>, s: Sys, w: nat)
    requires Enabled(plan, s, Fail(w))
    ensures SomeoneGaveUp(Apply(plan, s, Fail(w)))
  {
    UpdatedMembers(s.workers, w, GaveUp(s.workers[w].part));
  }

  lemma StepKeepsPool(plan: seq<Part>, s: Sys, step: Step)
    requires Enabled(plan, s, step)
    ensures |Apply(plan, s, step).workers| == |s.workers|
  {
    hide Enabled;
    hide Apply;
    var i := StepChangesOneWorker(plan, s, step);
  }

  // ---------- What a successful copy has done ----------

  lemma SameFront(a: seq<Part>, b: seq<Part>, x: Part)
    requires multiset(a + [x]) == multiset(b + [x])
    ensures multiset(a) == multiset(b)
  {
    assert multiset(a) == multiset(a + [x]) - multiset{x};
    assert multiset(b) == multiset(b + [x]) - multiset{x};
  }

  lemma SameLength(a: seq<Part>, b: seq<Part>)
    requires multiset(a) == multiset(b)
    ensures |a| == |b| && forall x :: x in a <==> x in b
  {
    assert |multiset(a)| == |a| && |multiset(b)| == |b|;
    forall x ensures x in a <==> x in b {
      assert x in multiset(a) <==> x in multiset(b);
    }
  }

  /** The part with the highest number comes last. */
  lemma LastAgrees(plan: seq<Part>, parts: seq<Part>)
    requires plan != [] && forall k | 0 <= k < |plan| :: plan[k].number == k + 1
    requires SortedByNumber(parts) && |parts| == |plan| && forall x :: x in parts <==> x in plan
    ensures parts[|parts| - 1] == plan[|plan| - 1]
  {
    var m := |plan| - 1;
    assert parts[m] in parts && parts[m] in plan;
    var j :| 0 <= j < |plan| && plan[j] == parts[m];
    assert plan[m] in plan && plan[m] in parts;
    var i :| 0 <= i < |parts| && parts[i] == plan[m];
    assert parts[i].number <= parts[m].number;
  }

  lemma SortedFront(front: seq<Part>, last: Part)
    requires SortedByNumber(front + [last])
    ensures SortedByNumber(front)
  {
    var ps := front + [last];
    forall i, j | 0 <= i < j < |front| ensures front[i].number <= front[j].number {
      assert ps[i].number <= ps[j].number;
    }
  }

  /** Sorting puts the parts of a plan back into plan order. */
  lemma {:induction false} SortedIsPlan(plan: seq<Part>, parts: seq<Part>)
    requires forall k | 0 <= k < |plan| :: plan[k].number == k + 1
    requires SortedByNumber(parts) && multiset(parts) == multiset(plan)
    ensures parts == plan
  {
    hide SortedByNumber;
    SameLength(parts, plan);
    if plan != [] {
      var m := |plan| - 1;
      var front, last := parts[..m], parts[m];
      LastAgrees(plan, parts);
      assert parts == front + [last] && plan == plan[..m] + [last];
      SortedFront(front, last);
      SameFront(front, plan[..m], last);
      SortedIsPlan(plan[..m], front);
    }
  }

  /** Once the results are in: they are the whole plan exactly when no worker gave up. */
  lemma CollectedIsPlanIff(plan: seq<Part>, poolSize: nat, s: Sys)
    requires Inv(plan, poolSize, s) && poolSize > 0 && s.resultsClosed && s.results == []
    requires s.interrupted ==> SomeoneGaveUp(s)
    ensures multiset(s.collected) == multiset(plan) <==> !SomeoneGaveUp(s)
    ensures SomeoneGaveUp(s) ==> |s.collected| < |plan|
  {
    if w :| w in s.workers && w.GaveUp? {
      GivenUpIsMissing(plan, s, w);
      CollectedIsSmaller(plan, s, w.part);
    } else {
      NothingMissing(plan, poolSize, s);
    }
  }

  lemma NothingMissing(plan: seq<Part>, poolSize: nat, s: Sys)
    requires Inv(plan, poolSize, s) && poolSize > 0 && s.resultsClosed && s.results == []
    requires !SomeoneGaveUp(s) && !s.interrupted
    ensures multiset(s.collected) == multiset(plan)
  {
    hide Holders;
    assert s.workers[0] in s.workers;
    forall w | w in s.workers ensures w.Left? {
      assert Stopped(w);
    }
    assert plan[..|plan|] == plan;
    forall p ensures multiset(plan)[p] == multiset(s.collected)[p] {
      NothingHeld(s.workers, p);
      assert ConservedPart(plan, s, p);
    }
  }

  /** Every part is collected at most as often as it was planned. */
  lemma CollectedIsPlanned(plan: seq<Part>, s: Sys, p: Part)
    requires Conserved(plan, s)
    ensures Count(s.collected, p) <= Count(plan, p)
  {
    hide Holders;
    assert ConservedPart(plan, s, p);
    assert plan == plan[..s.next] + plan[s.next..];
  }

  lemma GivenUpIsMissing(plan: seq<Part>, s: Sys, w: Worker)
    requires Conserved(plan, s) && w in s.workers && w.GaveUp?
    ensures Count(s.collected, w.part) < Count(plan, w.part)
  {
    hide Holders;
    assert ConservedPart(plan, s, w.part);
    HeldByOne(s.workers, w);
    assert plan == plan[..s.next] + plan[s.next..];
  }

  lemma {:induction false} HeldByOne(ws: seq<Worker>, w: Worker)
    requires w in ws && w.GaveUp?
    ensures Holders(ws, w.part) > 0
  {
    var front, last := ws[..|ws| - 1], ws[|ws| - 1];
    assert ws == front + [last];
    if w in front {
      HeldByOne(front, w);
    }
  }

  lemma CollectedIsSmaller(plan: seq<Part>, s: Sys, p: Part)
    requires Conserved(plan, s) && Count(s.collected, p) < Count(plan, p)
    ensures |s.collected| < |plan| && multiset(s.collected) != multiset(plan)
  {
    var a, b := multiset(s.collected), multiset(plan);
    hide ConservedPart;
    forall x ensures a[x] <= b[x] {
      CollectedIsPlanned(plan, s, x);
    }
    assert b == a + (b - a);
    assert (b - a)[p] > 0;
    assert |b - a| > 0;
    assert |a| == |s.collected| && |b| == |plan|;
  }

  lemma ReadyToComplete(plan: seq<Part>, poolSize: nat, s: Sys)
    requires Inv(plan, poolSize, s) && poolSize > 0 && s.resultsClosed && s.results == [] && !s.errorsClosed
    ensures multiset(s.collected) == multiset(plan) <==> !SomeoneGaveUp(s)
    ensures SomeoneGaveUp(s) ==> |s.collected| < |plan|
  {
    hide Conserved;
    hide Control;
    hide SomeoneGaveUp;
    CollectedIsPlanIff(plan, poolSize, s);
  }

  /**
   What the collector completes the upload with, in every run: the whole plan in order exactly when no worker
   gave up. Otherwise it completes with fewer parts than planned; only the error already reported tells.
   */
  lemma CompletedIsPlanIff(plan: seq<Part>, poolSize: nat, run: seq<Sys>, parts: seq<Part>)
    requires IsRun(plan, poolSize, run) && poolSize > 0 && forall k | 0 <= k < |plan| :: plan[k].number == k + 1
    requires Enabled(plan, run[|run| - 1], Complete(parts))
    ensures var s := Apply(plan, run[|run| - 1], Complete(parts));
            && (s.completed == plan <==> !SomeoneGaveUp(s))
            && (SomeoneGaveUp(s) ==> |s.completed| < |plan|)
  {
    hide Conserved;
    hide Control;
    hide Next;
    hide Inv;
    var s := run[|run| - 1];
    RunInv(plan, poolSize, run, |run| - 1);
    ReadyToComplete(plan, poolSize, s);
    SameLength(parts, s.collected);
    if multiset(parts) == multiset(plan) {
      SortedIsPlan(plan, parts);
    }
  }

  lemma Extend(plan: seq<Part>, poolSize: nat, run: seq<Sys>, step: Step) returns (longer: seq<Sys>)
    requires IsRun(plan, poolSize, run) && Enabled(plan, run[|run| - 1], step)
    ensures IsRun(plan, poolSize, longer) && longer == run + [Apply(plan, run[|run| - 1], step)]
  {
    hide Enabled;
    hide Init;
    var s := Apply(plan, run[|run| - 1], step);
    longer := run + [s];
    assert Next(plan, run[|run| - 1], s);
    forall i | 0 <= i < |longer| - 1 ensures Next(plan, longer[i], longer[i + 1]) {
      if i < |run| - 1 {
        assert Next(plan, run[i], run[i + 1]);
      }
    }
  }

  lemma FirstPartFails(plan: seq<Part>) returns (run: seq<Sys>)
    requires plan != []
    ensures IsRun(plan, 1, run)
    ensures run[|run| - 1] == Sys(1, [], false, true, [GaveUp(plan[0])], [], false, [], [], 1, false, Running)
  {
    hide Next;
    run := [Init(1)];
    run := Extend(plan, 1, run, Produce);
    assert run[|run| - 1].tasks == [plan[0]];
    run := Extend(plan, 1, run, Take(0));
    assert run[|run| - 1].workers == [Copying(plan[0], 0)];
    run := Extend(plan, 1, run, Fail(0));
  }

  /** Completing with less than the plan does happen: one worker, whose first part fails. */
  lemma PartialCompletionHappens(plan: seq<Part>) returns (run: seq<Sys>)
    requires plan != []
    ensures IsRun(plan, 1, run) && run[|run| - 1].errorsClosed && run[|run| - 1].completed == [] != plan
  {
    hide Next;
    hide Init;
    run := FirstPartFails(plan);
    run := Extend(plan, 1, run, StopProducing);
    run := Extend(plan, 1, run, CloseResults);
    run := Extend(plan, 1, run, Complete([]));
  }

  // ---------- Retries ----------

  /** No part is retried more than four times. */
  lemma {:induction false} AtMostFourRetries(plan: seq<Part>, poolSize: nat, run: seq<Sys>, i: nat, w: Worker)
    requires IsRun(plan, poolSize, run) && i < |run| && w in run[i].workers && w.Copying?
    ensures w.retries <= 4
  {
    hide Enabled;
    hide Apply;
    if i > 0 {
      assert Next(plan, run[i - 1], run[i - 1 + 1]);
      var step :| Enabled(plan, run[i - 1], step) && run[i] == Apply(plan, run[i - 1], step);
      if w in run[i - 1].workers {
        AtMostFourRetries(plan, poolSize, run, i - 1, w);
      } else {
        NewRetries(plan, run[i - 1], step, w);
      }
    }
  }

  lemma NewRetries(plan: seq<Part>, s: Sys, step: Step, w: Worker)
    requires Enabled(plan, s, step) && w in Apply(plan, s, step).workers && w !in s.workers && w.Copying?
    ensures w.retries <= 4
  {
    var s' := Apply(plan, s, step);
    var i := StepChangesOneWorker(plan, s, step);
    if s'.workers != s.workers {
      UpdatedMembers(s.workers, i, s'.workers[i]);
    }
  }

  /** Four retries do happen. */
  lemma FourRetriesHappen(plan: seq<Part>) returns (run: seq<Sys>)
    requires plan != []
    ensures IsRun(plan, 1, run) && run[|run| - 1].workers == [Copying(plan[0], 4)]
  {
    hide Next;
    run := [Init(1)];
    run := Extend(plan, 1, run, Produce);
    run := Extend(plan, 1, run, Take(0));
    assert run[|run| - 1].workers == [Copying(plan[0], 0)];
    run := RetryOnce(plan, run, 0);
    run := RetryOnce(plan, run, 1);
    run := RetryOnce(plan, run, 2);
    run := RetryOnce(plan, run, 3);
  }

  lemma RetryOnce(plan: seq<Part>, run: seq<Sys>, n: nat) returns (longer: seq<Sys>)
    requires plan != [] && IsRun(plan, 1, run) && n < 4 && run[|run| - 1].workers == [Copying(plan[0], n)]
    ensures IsRun(plan, 1, longer) && longer[|longer| - 1].workers == [Copying(plan[0], n + 1)]
  {
    hide Next;
    hide Init;
    longer := Extend(plan, 1, run, Retry(0));
  }

  // ---------- A run that succeeds ----------

  /** A pool whose first i workers have left. */
  function Leaving(i: nat, poolSize: nat): seq<Worker> {
    seq(poolSize, w => if w < i then Left else Waiting)
  }

  /** Nothing failed, nothing under way, the first k parts collected. */
  function AtRest(plan: seq<Part>, poolSize: nat, k: nat): Sys
    requires k <= |plan|
  {
    Sys(k, [], false, false, Leaving(0, poolSize), [], false, plan[..k], [], 0, false, Running)
  }

  lemma CopyOnePart(plan: seq<Part>, poolSize: nat, run: seq<Sys>, k: nat) returns (longer: seq<Sys>)
    requires k < |plan| && poolSize > 0 && IsRun(plan, poolSize, run) && run[|run| - 1] == AtRest(plan, poolSize, k)
    ensures IsRun(plan, poolSize, longer) && longer[|longer| - 1] == AtRest(plan, poolSize, k + 1)
  {
    hide Next;
    hide Init;
    var part, idle := plan[k], Leaving(0, poolSize);
    longer := Extend(plan, poolSize, run, Produce);
    longer := Extend(plan, poolSize, longer, Take(0));
    longer := Extend(plan, poolSize, longer, CopyDone(0));
    assert longer[|longer| - 1].workers == idle[0 := Copied(part)];
    longer := Extend(plan, poolSize, longer, HandOn(0));
    assert longer[|longer| - 1].workers == idle && longer[|longer| - 1].results == [part];
    longer := Extend(plan, poolSize, longer, Collect);
    assert plan[..k] + [part] == plan[..k + 1];
  }

  lemma {:induction false} CopyParts(plan: seq<Part>, poolSize: nat, k: nat) returns (run: seq<Sys>)
    requires k <= |plan| && poolSize > 0
    ensures IsRun(plan, poolSize, run) && run[|run| - 1] == AtRest(plan, poolSize, k)
  {
    hide Next;
    if k == 0 {
      run := [Init(poolSize)];
      assert Leaving(0, poolSize) == seq(poolSize, _ => Waiting) && plan[..0] == [];
    } else {
      hide AtRest;
      run := CopyParts(plan, poolSize, k - 1);
      run := CopyOnePart(plan, poolSize, run, k - 1);
    }
  }

  /** All parts collected, the channel of tasks closed, the first i workers gone. */
  function Closing(plan: seq<Part>, poolSize: nat, i: nat): Sys {
    Sys(|plan|, [], true, false, Leaving(i, poolSize), [], false, plan, [], 0, false, Running)
  }

  lemma {:induction false} WorkersLeave(plan: seq<Part>, poolSize: nat, i: nat) returns (run: seq<Sys>)
    requires i <= poolSize && poolSize > 0
    ensures IsRun(plan, poolSize, run) && run[|run| - 1] == Closing(plan, poolSize, i)
  {
    hide Next;
    hide Init;
    if i == 0 {
      run := CopyParts(plan, poolSize, |plan|);
      run := Extend(plan, poolSize, run, StopProducing);
      assert plan[..|plan|] == plan;
    } else {
      run := WorkersLeave(plan, poolSize, i - 1);
      run := Extend(plan, poolSize, run, Leave(i - 1));
      assert Leaving(i - 1, poolSize)[i - 1 := Left] == Leaving(i, poolSize);
    }
  }

  /** A copy can succeed, whatever the plan and the pool: the theorem on success is not vacuous. */
  lemma SuccessHappens(plan: seq<Part>, poolSize: nat) returns (run: seq<Sys>)
    requires poolSize > 0 && SortedByNumber(plan)
    ensures IsRun(plan, poolSize, run) && run[|run| - 1].outcome.Success? && run[|run| - 1].completed == plan
  {
    hide Next;
    hide Init;
    hide SortedByNumber;
    run := WorkersLeave(plan, poolSize, poolSize);
    run := Extend(plan, poolSize, run, CloseResults);
    run := Extend(plan, poolSize, run, Complete(plan));
    run := Extend(plan, poolSize, run, ReturnSuccess);
  }

  /** Nothing is ever sent on a closed channel: no task once the producer has stopped, no result once the workers
      are done, and no error once the collector has closed the error channel. */
  lemma NothingSentAfterClose(plan: seq<Part>, poolSize: nat, run: seq<Sys>, step: Step)
    requires IsRun(plan, poolSize, run) && Enabled(plan, run[|run| - 1], step)
    ensures run[|run| - 1].tasksClosed ==> !step.Produce?
    ensures run[|run| - 1].resultsClosed ==> !step.HandOn? && !step.Fail?
    ensures run[|run| - 1].errorsClosed ==> !step.Fail? && !step.CompleteFails? && !step.HandOn?
  {
    hide Next;
    hide Conserved;
    hide ErrorControl;
    hide Interruptions;
    var s := run[|run| - 1];
    RunInv(plan, poolSize, run, |run| - 1);
    if step.HandOn? || step.Fail? {
      assert s.workers[step.w] in s.workers;
    }
  }

  lemma QuietCopyCollectsPlan(plan: seq<Part>, poolSize: nat, s: Sys)
    requires Inv(plan, poolSize, s) && poolSize > 0 && s.outcome.Success?
    ensures !SomeoneGaveUp(s) && !s.interrupted
    ensures SortedByNumber(s.completed) && multiset(s.completed) == multiset(plan)
  {
    hide Conserved;
    NothingMissing(plan, poolSize, s);
  }

  /**
   In every run that returns success the upload was completed with exactly the planned parts, numbered 1 to P
   in order, no worker gave up, and the destination holds the source objects end to end.
   */
  lemma SuccessMeansWholeCopy(objs: seq<Source>, poolSize: nat, run: seq<Sys>)
    requires IsRun(Plan(objs), poolSize, run) && poolSize > 0 && run[|run| - 1].outcome.Success?
    ensures var s := run[|run| - 1];
            && s.completed == Plan(objs)
            && (forall k | 0 <= k < |s.completed| :: s.completed[k].number == k + 1)
            && Assembled(objs, s.completed) == Concatenated(objs)
            && !SomeoneGaveUp(s)
  {
    hide Plan;
    hide Conserved;
    hide Control;
    var plan := Plan(objs);
    RunInv(plan, poolSize, run, |run| - 1);
    QuietCopyCollectsPlan(plan, poolSize, run[|run| - 1]);
    SortedIsPlan(plan, run[|run| - 1].completed);
    PlanAssembles(objs);
  }

  /** Giving up is for good. */
  lemma {:induction false} GaveUpStays(plan: seq<Part>, poolSize: nat, run: seq<Sys>, i: nat, j: nat)
    requires IsRun(plan, poolSize, run) && i <= j < |run| && SomeoneGaveUp(run[i])
    ensures SomeoneGaveUp(run[j])
    decreases j
  {
    hide Enabled;
    hide Apply;
    hide SomeoneGaveUp;
    hide Init;
    if i < j {
      GaveUpStays(plan, poolSize, run, i, j - 1);
      assert Next(plan, run[j - 1], run[j - 1 + 1]);
      var step :| Enabled(plan, run[j - 1], step) && run[j] == Apply(plan, run[j - 1], step);
      GaveUpStep(plan, run[j - 1], step);
    }
  }

  lemma GaveUpStep(plan: seq<Part>, s: Sys, step: Step)
    requires Enabled(plan, s, step) && SomeoneGaveUp(s)
    ensures SomeoneGaveUp(Apply(plan, s, step))
  {
    hide Enabled;
    hide Apply;
    var s' := Apply(plan, s, step);
    var v :| v in s.workers && v.GaveUp?;
    var i := StepChangesOneWorker(plan, s, step);
    if s'.workers != s.workers {
      UpdatedMembers(s.workers, i, s'.workers[i]);
    }
    assert v in s'.workers;
  }

  /** Once a part has failed for good the copy never returns success, however the run goes on. */
  lemma FailureIsNeverSuccess(plan: seq<Part>, poolSize: nat, run: seq<Sys>, i: nat, j: nat)
    requires IsRun(plan, poolSize, run) && i <= j < |run| && SomeoneGaveUp(run[i])
    ensures !run[j].outcome.Success?
  {
    GaveUpStays(plan, poolSize, run, i, j);
    RunInv(plan, poolSize, run, j);
  }

  // ---------- No run gets stuck ----------

  lemma WorkerCanAct(plan: seq<Part>, poolSize: nat, s: Sys, w: nat) returns (step: Step)
    requires Inv(plan, poolSize, s) && w < |s.workers| && !Stopped(s.workers[w])
    ensures Enabled(plan, s, step)
  {
    hide ConservedPart;
    match s.workers[w]
    case Copying(_, _) => step := CopyDone(w);
    case Copied(_) => step := if s.results == [] then HandOn(w) else Collect;
    case Waiting =>
      if s.tasks != [] {
        step := Take(w);
      } else if s.tasksClosed {
        step := Leave(w);
      } else {
        step := if s.next < |plan| then Produce else StopProducing;
      }
  }

  ghost predicate CanStep(plan: seq<Part>, s: Sys) {
    exists step :: Enabled(plan, s, step)
  }

  /** As long as the caller waits, something can happen. */
  lemma NoDeadlock(plan: seq<Part>, poolSize: nat, run: seq<Sys>)
    requires IsRun(plan, poolSize, run) && run[|run| - 1].outcome.Running?
    ensures CanStep(plan, run[|run| - 1])
  {
    hide ConservedPart;
    var s := run[|run| - 1];
    RunInv(plan, poolSize, run, |run| - 1);
    if s.errors > 0 {
      assert Enabled(plan, s, ReturnError);
    } else if s.errorsClosed {
      assert Enabled(plan, s, ReturnSuccess);
    } else if w: nat :| w < |s.workers| && !Stopped(s.workers[w]) {
      var step := WorkerCanAct(plan, poolSize, s, w);
    } else if !s.resultsClosed {
      assert Enabled(plan, s, CloseResults);
    } else {
      assert Enabled(plan, s, if s.results != [] then Collect else CompleteFails);
    }
  }
}
