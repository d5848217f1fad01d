/**
 The header contract of an output channel: every stage channel on a path that leads to it, followed
 backward from the step ids a step reads to the steps that write them, must carry both header flags.
 The step graph of a document may be cyclic.
 */
module StagePath {
  import opened Common

  datatype Channel = Channel(
    name: string, kind: string, writeStepId: string, useOriginalHeaders: bool, putHeadersOnFirstPartition: bool)

  /** The channels a transformation may write: its own, and those of its operator-specific configuration. */
  datatype Transformation = Transformation(
    kind: string, output: Channel, site: Option<seq<Channel>>, jetrules: Option<seq<Channel>>,
    anonymizeKeys: Option<Channel>, clusteringCorrelation: Option<Channel>)

  datatype Pipe = Pipe(inputKind: string, readStepId: string, apply: seq<Transformation>)

  type PipeStep = seq<Pipe>

  datatype Document = Document(
    pipes: PipeStep, reducing: seq<PipeStep>, conditional: seq<PipeStep>, reserved: set<string>)

  datatype Verdict = Accepted | Rejected(output: Channel, stage: Channel)

  predicate HasBothFlags(c: Channel) {
    c.useOriginalHeaders && c.putHeadersOnFirstPartition
  }

  function OptionSeq<T>(o: Option<T>): seq<T> {
    match o case None => [] case Some(x) => [x]
  }

  function SiteChannels(reserved: set<string>, t: Transformation): seq<Channel> {
    if t.site.None? || t.kind in reserved then [] else t.site.value
  }

  function OutputChannels(reserved: set<string>, t: Transformation): seq<Channel> {
    [t.output] + SiteChannels(reserved, t)
    + if t.kind == "jetrules" then (if t.jetrules.Some? then t.jetrules.value else [])
      else if t.kind == "anonymize" then OptionSeq(t.anonymizeKeys)
      else if t.kind == "clustering" then OptionSeq(t.clusteringCorrelation)
      else []
  }

  function AllSteps(doc: Document): seq<PipeStep> {
    (if |doc.pipes| > 0 then [doc.pipes] else []) + doc.reducing + doc.conditional
  }

  function StageReads(step: PipeStep): seq<string> {
    if step == [] then []
    else
      var front, p := StageReads(step[..|step| - 1]), step[|step| - 1];
      if p.inputKind == "stage" && |p.readStepId| > 0 then front + [p.readStepId] else front
  }

  function ChannelsOfAll(reserved: set<string>, ts: seq<Transformation>): seq<Channel> {
    if ts == [] then [] else ChannelsOfAll(reserved, ts[..|ts| - 1]) + OutputChannels(reserved, ts[|ts| - 1])
  }

  /** Every channel the pipes of a step write, in document order. */
  function StepChannels(reserved: set<string>, step: PipeStep): seq<Channel> {
    if step == [] then []
    else StepChannels(reserved, step[..|step| - 1]) + ChannelsOfAll(reserved, step[|step| - 1].apply)
  }

  predicate WritesId(c: Channel, id: string) {
    c.kind == "stage" && c.writeStepId == id
  }

  ghost predicate StepWrites(doc: Document, step: PipeStep, id: string) {
    exists c | c in StepChannels(doc.reserved, step) :: WritesId(c, id)
  }

  // ---------- Backward closure ----------

  /** Whatever a step reads leads to what the step writes. */
  ghost predicate BackwardClosed(doc: Document, ids: set<string>) {
    forall step, id, r | step in AllSteps(doc) && id in ids && StepWrites(doc, step, id) && r in StageReads(step) ::
        r in ids
  }

  /** id is in the least backward-closed set that holds the start ids. */
  ghost predicate InClosure(doc: Document, start: seq<string>, id: string) {
    forall ids: set<string> | (forall s | s in start :: s in ids) && BackwardClosed(doc, ids) :: id in ids
  }

  /** A chain of step ids: each is read by a step that writes the one before. */
  ghost predicate IsChain(doc: Document, start: seq<string>, chain: seq<string>) {
    && chain != [] && chain[0] in start
    && forall k | 0 <= k < |chain| - 1 :: LeadsTo(doc, chain[k], chain[k + 1])
  }

  ghost predicate LeadsTo(doc: Document, id: string, r: string) {
    exists step | step in AllSteps(doc) :: StepWrites(doc, step, id) && r in StageReads(step)
  }

  lemma {:induction false} ChainStaysInside(doc: Document, start: seq<string>, chain: seq<string>, ids: set<string>)
    requires IsChain(doc, start, chain) && (forall s | s in start :: s in ids) && BackwardClosed(doc, ids)
    ensures chain[|chain| - 1] in ids
    decreases |chain|
  {
    if |chain| > 1 {
      var front, m := chain[..|chain| - 1], |chain| - 1;
      forall k | 0 <= k < |front| - 1 ensures LeadsTo(doc, front[k], front[k + 1]) {
        assert LeadsTo(doc, chain[k], chain[k + 1]);
      }
      ChainStaysInside(doc, start, front, ids);
      assert LeadsTo(doc, chain[m - 1], chain[m - 1 + 1]);
    }
  }

  /** What ends a chain is in the closure. */
  lemma ChainInClosure(doc: Document, start: seq<string>, chain: seq<string>)
    requires IsChain(doc, start, chain)
    ensures InClosure(doc, start, chain[|chain| - 1])
  {
    forall ids: set<string> | (forall s | s in start :: s in ids) && BackwardClosed(doc, ids)
      ensures chain[|chain| - 1] in ids
    {
      ChainStaysInside(doc, start, chain, ids);
    }
  }

  ghost predicate Reachable(doc: Document, start: seq<string>, id: string) {
    exists chain :: IsChain(doc, start, chain) && chain[|chain| - 1] == id
  }

  lemma ReachableStep(doc: Document, start: seq<string>, id: string, r: string)
    requires Reachable(doc, start, id) && LeadsTo(doc, id, r)
    ensures Reachable(doc, start, r)
  {
    hide LeadsTo;
    var chain :| IsChain(doc, start, chain) && chain[|chain| - 1] == id;
    var longer := chain + [r];
    forall k | 0 <= k < |longer| - 1 ensures LeadsTo(doc, longer[k], longer[k + 1]) {
      if k < |chain| - 1 {
        assert LeadsTo(doc, chain[k], chain[k + 1]);
      }
    }
    assert IsChain(doc, start, longer);
  }

  /** The closure is exactly what chains of step ids reach. */
  lemma ClosureIsReachability(doc: Document, start: seq<string>, id: string)
    ensures InClosure(doc, start, id) <==> Reachable(doc, start, id)
  {
    hide LeadsTo;
    hide StepWrites;
    if Reachable(doc, start, id) {
      var chain :| IsChain(doc, start, chain) && chain[|chain| - 1] == id;
      ChainInClosure(doc, start, chain);
    }
    if InClosure(doc, start, id) {
      var reached := set x | x in Universe(doc, start) && Reachable(doc, start, x);
      forall s | s in start ensures s in reached {
        assert IsChain(doc, start, [s]) && [s][|[s]| - 1] == s;
      }
      ReachedIsClosed(doc, start, reached);
    }
  }

  lemma ReachedIsClosed(doc: Document, start: seq<string>, reached: set<string>)
    requires forall x :: x in reached <==> x in Universe(doc, start) && Reachable(doc, start, x)
    ensures BackwardClosed(doc, reached)
  {
    hide Reachable;
    hide StepWrites;
    hide Universe;
    forall step, id, r | step in AllSteps(doc) && id in reached && StepWrites(doc, step, id) && r in StageReads(step)
      ensures r in reached
    {
      ReadIsInUniverse(doc, start, step, r);
      assert LeadsTo(doc, id, r);
      ReachableStep(doc, start, id, r);
    }
  }

  /** The ids a walk from the start can ever meet. */
  function Universe(doc: Document, start: seq<string>): set<string> {
    (set s | s in start) + AllReads(AllSteps(doc))
  }

  function ReadSet(step: PipeStep): set<string> {
    set r | r in StageReads(step)
  }

  function AllReads(steps: seq<PipeStep>): set<string> {
    if steps == [] then {} else AllReads(steps[..|steps| - 1]) + ReadSet(steps[|steps| - 1])
  }

  lemma {:induction false} AllReadsHolds(steps: seq<PipeStep>, step: PipeStep, r: string)
    requires step in steps && r in StageReads(step)
    ensures r in AllReads(steps)
  {
    var front, last := steps[..|steps| - 1], steps[|steps| - 1];
    assert steps == front + [last];
    if step in front {
      AllReadsHolds(front, step, r);
    }
  }

  lemma ReadIsInUniverse(doc: Document, start: seq<string>, step: PipeStep, r: string)
    requires step in AllSteps(doc) && r in StageReads(step)
    ensures r in Universe(doc, start)
  {
    hide AllSteps;
    hide StageReads;
    AllReadsHolds(AllSteps(doc), step, r);
  }

  // ---------- The validator ----------

  /** The contract for one output channel: no stage channel that leads to it lacks a flag. */
  ghost predicate PathsCarryFlags(doc: Document, start: seq<string>) {
    forall step, c, id | step in AllSteps(doc) && c in StepChannels(doc.reserved, step) && WritesId(c, id)
                         && InClosure(doc, start, id) :: HasBothFlags(c)
  }

  predicate NeedsCheck(c: Channel) {
    c.kind == "output" && HasBothFlags(c)
  }

  /** One step against one id: the first offending channel, or whether the step writes the id. */
  method ScanStep(doc: Document, step: PipeStep, id: string) returns (bad: Option<Channel>, writes: bool)
    ensures bad.Some? ==>
          bad.value in StepChannels(doc.reserved, step) && WritesId(bad.value, id) && !HasBothFlags(bad.value)
    ensures bad.None? ==> forall c | c in StepChannels(doc.reserved, step) && WritesId(c, id) :: HasBothFlags(c)
    ensures bad.None? ==> (writes <==> StepWrites(doc, step, id))
  {
    hide StepChannels;
    var channels := StepChannels(doc.reserved, step);
    bad, writes := None, false;
    for i := 0 to |channels|
      invariant forall c | c in channels[..i] && WritesId(c, id) :: HasBothFlags(c)
      invariant writes <==> exists c | c in channels[..i] :: WritesId(c, id)
    {
      var c := channels[i];
      assert channels[..i + 1] == channels[..i] + [c];
      if c.kind != "stage" || c.writeStepId != id {
        continue;
      }
      if !HasBothFlags(c) {
        assert c in channels;
        return Some(c), writes;
      }
      writes := true;
      assert c in channels[..i + 1];
    }
    assert channels[..|channels|] == channels;
  }

  /** All steps against one id: the first offending channel, or the ids read by the steps that write it. */
  method ScanSteps(doc: Document, id: string) returns (bad: Option<Channel>, more: seq<string>)
    ensures bad.Some? ==> WritesId(bad.value, id) && !HasBothFlags(bad.value)
                          && exists step | step in AllSteps(doc) :: bad.value in StepChannels(doc.reserved, step)
    ensures bad.None? ==>
          forall step, c | step in AllSteps(doc) && c in StepChannels(doc.reserved, step) && WritesId(c, id) ::
              HasBothFlags(c)
    ensures bad.None? ==> forall r :: r in more <==> LeadsTo(doc, id, r)
  {
    hide StepChannels;
    hide StageReads;
    hide AllSteps;
    hide StepWrites;
    var steps := AllSteps(doc);
    bad, more := None, [];
    for i := 0 to |steps|
      invariant forall step, c | step in steps[..i] && c in StepChannels(doc.reserved, step) && WritesId(c, id) ::
                  HasBothFlags(c)
      invariant forall r ::
                  r in more <==> exists step | step in steps[..i] :: StepWrites(doc, step, id) && r in StageReads(step)
    {
      var step := steps[i];
      assert steps[..i + 1] == steps[..i] + [step] && step in steps;
      var b, writes := ScanStep(doc, step, id);
      if b.Some? {
        return b, more;
      }
      if writes {
        more := more + StageReads(step);
      }
    }
    assert steps[..|steps|] == steps;
  }

  /** A stage channel that leads to the step and lacks a flag. */
  ghost predicate Offends(doc: Document, start: seq<string>, c: Channel) {
    && c.kind == "stage" && !HasBothFlags(c) && InClosure(doc, start, c.writeStepId)
    && exists step | step in AllSteps(doc) :: c in StepChannels(doc.reserved, step)
  }

  lemma OffenderBreaksPaths(doc: Document, start: seq<string>, c: Channel)
    requires Offends(doc, start, c)
    ensures !PathsCarryFlags(doc, start)
  {
    hide AllSteps;
    hide StepChannels;
    hide InClosure;
    assert WritesId(c, c.writeStepId);
  }

  ghost predicate WritersCarryFlags(doc: Document, id: string) {
    forall step, c | step in AllSteps(doc) && c in StepChannels(doc.reserved, step) && WritesId(c, id) ::
        HasBothFlags(c)
  }

  lemma ClosureSteps(doc: Document, start: seq<string>, id: string, r: string)
    requires InClosure(doc, start, id) && LeadsTo(doc, id, r)
    ensures InClosure(doc, start, r)
  {
    hide StepWrites;
    hide AllSteps;
    hide StageReads;
  }

  lemma LeadsIntoUniverse(doc: Document, start: seq<string>, id: string, r: string)
    requires LeadsTo(doc, id, r)
    ensures r in Universe(doc, start)
  {
    hide AllSteps;
    hide StageReads;
    hide StepWrites;
    hide Universe;
    var step :| step in AllSteps(doc) && StepWrites(doc, step, id) && r in StageReads(step);
    ReadIsInUniverse(doc, start, step, r);
  }

  /** Once nothing is pending, the visited ids hold the closure. */
  lemma VisitedHoldsClosure(doc: Document, start: seq<string>, visited: set<string>)
    requires forall s | s in start :: s in visited
    requires forall id, r | id in visited && LeadsTo(doc, id, r) :: r in visited
    requires forall id | id in visited :: WritersCarryFlags(doc, id)
    ensures PathsCarryFlags(doc, start)
  {
    hide AllSteps;
    hide StepChannels;
    hide StageReads;
    hide StepWrites;
    assert BackwardClosed(doc, visited) by {
      forall step, id, r | step in AllSteps(doc) && id in visited && StepWrites(doc, step, id) && r in StageReads(step)
        ensures r in visited
      {
        assert LeadsTo(doc, id, r);
      }
    }
  }

  /** The worklist. It ends on every document, cyclic or not, and decides the contract for the start ids. */
  method ValidateFrom(doc: Document, start: seq<string>) returns (bad: Option<Channel>)
    ensures bad.None? <==> PathsCarryFlags(doc, start)
    ensures bad.Some? ==> Offends(doc, start, bad.value)
  {
    hide AllSteps;
    hide StepChannels;
    hide StageReads;
    hide InClosure;
    hide LeadsTo;
    hide Universe;
    hide PathsCarryFlags;
    ghost var universe := Universe(doc, start);
    var visited: set<string> := {};
    var pending := start;
    StartIsInside(doc, start);
    while |pending| > 0
      invariant visited <= universe && forall p | p in pending :: p in universe
      invariant forall id | id in visited :: WritersCarryFlags(doc, id)
      invariant forall p | p in pending :: InClosure(doc, start, p)
      invariant forall s | s in start :: s in visited || s in pending
      invariant forall id, r | id in visited && LeadsTo(doc, id, r) :: r in visited || r in pending
      decreases |universe - visited|, |pending|
    {
      ghost var before := pending;
      var id := pending[|pending| - 1];
      pending := pending[..|pending| - 1];
      assert before == pending + [id];
      if id in visited {
        continue;
      }
      assert universe - (visited + {id}) < universe - visited by { assert id in universe - visited; }
      ghost var rest := universe - visited;
      visited := visited + {id};
      SmallerSet(universe - visited, rest);
      var more;
      bad, more := ScanSteps(doc, id);
      if bad.Some? {
        OffenderBreaksPaths(doc, start, bad.value);
        return;
      }
      forall r | r in more ensures r in universe && InClosure(doc, start, r) {
        LeadsIntoUniverse(doc, start, id, r);
        ClosureSteps(doc, start, id, r);
      }
      pending := pending + more;
    }
    VisitedHoldsClosure(doc, start, visited);
    bad := None;
  }

  lemma SmallerSet(a: set<string>, b: set<string>)
    requires a < b
    ensures |a| < |b|
  {
    assert b == a + (b - a);
    assert b - a != {};
  }

  lemma StartIsInside(doc: Document, start: seq<string>)
    ensures forall s | s in start :: s in Universe(doc, start) && InClosure(doc, start, s)
  {
    hide AllSteps;
    hide StageReads;
  }

  /** Every output channel of the transformation that asks for the original headers has its contract. */
  ghost predicate HeadersReachOutputs(doc: Document, step: PipeStep, channels: seq<Channel>) {
    forall c | c in channels && NeedsCheck(c) :: PathsCarryFlags(doc, StageReads(step))
  }

  method ValidateOriginalHeadersStagePath(doc: Document, step: PipeStep, t: Transformation) returns (verdict: Verdict)
    ensures verdict.Accepted? <==> HeadersReachOutputs(doc, step, OutputChannels(doc.reserved, t))
    ensures verdict.Rejected? ==> verdict.output in OutputChannels(doc.reserved, t) && NeedsCheck(verdict.output)
    ensures verdict.Rejected? ==> Offends(doc, StageReads(step), verdict.stage)
  {
    hide OutputChannels;
    hide StageReads;
    hide PathsCarryFlags;
    hide Offends;
    var channels := OutputChannels(doc.reserved, t);
    for i := 0 to |channels|
      invariant HeadersReachOutputs(doc, step, channels[..i])
    {
      var c := channels[i];
      assert channels[..i + 1] == channels[..i] + [c] && c in channels;
      if !NeedsCheck(c) {
        continue;
      }
      var bad := ValidateFrom(doc, StageReads(step));
      if bad.Some? {
        return Rejected(c, bad.value);
      }
    }
    assert channels[..|channels|] == channels;
    return Accepted;
  }
}
