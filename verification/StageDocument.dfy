/** The validator's contract, said of the document itself: its steps, pipes, transformations and channels. */
module StageDocument {
  import opened Common
  import opened StagePath

  /** The channels a transformation writes, its error channel apart. */
  ghost predicate Writes(doc: Document, t: Transformation, c: Channel) {
    || c == t.output
    || (t.site.Some? && t.kind !in doc.reserved && c in t.site.value)
    || (t.kind == "jetrules" && t.jetrules.Some? && c in t.jetrules.value)
    || (t.kind == "anonymize" && t.anonymizeKeys == Some(c))
    || (t.kind == "clustering" && t.clusteringCorrelation == Some(c))
  }

  ghost predicate InDocument(doc: Document, step: PipeStep) {
    (step == doc.pipes && step != []) || step in doc.reducing || step in doc.conditional
  }

  ghost predicate PipeWrites(doc: Document, p: Pipe, c: Channel) {
    exists t | t in p.apply :: Writes(doc, t, c)
  }

  ghost predicate StepWritesChannel(doc: Document, step: PipeStep, c: Channel) {
    exists p | p in step :: PipeWrites(doc, p, c)
  }

  ghost predicate ReadsId(step: PipeStep, id: string) {
    id != "" && exists p | p in step :: p.inputKind == "stage" && p.readStepId == id
  }

  /** A stage channel of the step that writes the id. */
  ghost predicate StageChannel(doc: Document, step: PipeStep, c: Channel, id: string) {
    InDocument(doc, step) && StepWritesChannel(doc, step, c) && c.kind == "stage" && c.writeStepId == id
  }

  /** Some step writes id and reads r. */
  ghost predicate Feeds(doc: Document, id: string, r: string) {
    exists step, c :: StageChannel(doc, step, c, id) && ReadsId(step, r)
  }

  /** A path backward from the ids a step reads. */
  ghost predicate Path(doc: Document, step: PipeStep, ids: seq<string>) {
    && ids != [] && ReadsId(step, ids[0])
    && forall k | 0 <= k < |ids| - 1 :: Feeds(doc, ids[k], ids[k + 1])
  }

  ghost predicate PathTo(doc: Document, step: PipeStep, ids: seq<string>, id: string) {
    Path(doc, step, ids) && ids[|ids| - 1] == id
  }

  /** Every stage channel at the end of a path carries both flags. */
  ghost predicate StagePathsCarryFlags(doc: Document, step: PipeStep) {
    forall ids, id, other, c | PathTo(doc, step, ids, id) && StageChannel(doc, other, c, id) ::
      c.useOriginalHeaders && c.putHeadersOnFirstPartition
  }

  // ---------- Membership ----------

  lemma OutputsMeaning(doc: Document, t: Transformation, c: Channel)
    ensures c in OutputChannels(doc.reserved, t) <==> Writes(doc, t, c)
  {}

  lemma {:induction false} AllOutputsMeaning(doc: Document, ts: seq<Transformation>, c: Channel)
    ensures c in ChannelsOfAll(doc.reserved, ts) <==> exists t | t in ts :: Writes(doc, t, c)
  {
    hide OutputChannels;
    hide Writes;
    if ts != [] {
      var front, t := ts[..|ts| - 1], ts[|ts| - 1];
      assert ts == front + [t];
      AllOutputsMeaning(doc, front, c);
      OutputsMeaning(doc, t, c);
    }
  }

  lemma {:induction false} StepChannelsMeaning(doc: Document, step: PipeStep, c: Channel)
    ensures c in StepChannels(doc.reserved, step) <==> StepWritesChannel(doc, step, c)
  {
    hide ChannelsOfAll;
    hide Writes;
    if step != [] {
      var front, p := step[..|step| - 1], step[|step| - 1];
      assert step == front + [p] && forall x :: x in step <==> x in front || x == p;
      StepChannelsMeaning(doc, front, c);
      AllOutputsMeaning(doc, p.apply, c);
      assert c in ChannelsOfAll(doc.reserved, p.apply) <==> PipeWrites(doc, p, c);
      assert StepWritesChannel(doc, step, c) <==> StepWritesChannel(doc, front, c) || PipeWrites(doc, p, c);
    }
  }

  lemma {:induction false} StageReadsMeaning(step: PipeStep, id: string)
    ensures id in StageReads(step) <==> ReadsId(step, id)
  {
    if step != [] {
      var front, p := step[..|step| - 1], step[|step| - 1];
      assert step == front + [p];
      StageReadsMeaning(front, id);
    }
  }

  lemma AllStepsMeaning(doc: Document, step: PipeStep)
    ensures step in AllSteps(doc) <==> InDocument(doc, step)
  {}

  lemma FeedsMeaning(doc: Document, id: string, r: string)
    ensures LeadsTo(doc, id, r) <==> Feeds(doc, id, r)
  {
    hide AllSteps;
    hide StepChannels;
    hide StageReads;
    hide InDocument;
    hide StepWritesChannel;
    hide ReadsId;
    if LeadsTo(doc, id, r) {
      var step :| step in AllSteps(doc) && StepWrites(doc, step, id) && r in StageReads(step);
      var c :| c in StepChannels(doc.reserved, step) && WritesId(c, id);
      AllStepsMeaning(doc, step);
      StepChannelsMeaning(doc, step, c);
      StageReadsMeaning(step, r);
      assert StageChannel(doc, step, c, id);
    }
    if Feeds(doc, id, r) {
      var step, c :| StageChannel(doc, step, c, id) && ReadsId(step, r);
      AllStepsMeaning(doc, step);
      StepChannelsMeaning(doc, step, c);
      StageReadsMeaning(step, r);
      assert WritesId(c, id);
    }
  }

  lemma PathMeaning(doc: Document, step: PipeStep, ids: seq<string>)
    ensures IsChain(doc, StageReads(step), ids) <==> Path(doc, step, ids)
  {
    hide LeadsTo;
    hide Feeds;
    hide StageReads;
    hide ReadsId;
    if ids != [] {
      StageReadsMeaning(step, ids[0]);
      forall k | 0 <= k < |ids| - 1 ensures LeadsTo(doc, ids[k], ids[k + 1]) <==> Feeds(doc, ids[k], ids[k + 1]) {
        FeedsMeaning(doc, ids[k], ids[k + 1]);
      }
    }
  }

  lemma ChannelMeaning(doc: Document, step: PipeStep, c: Channel, id: string)
    ensures StageChannel(doc, step, c, id)
       <==> step in AllSteps(doc) && c in StepChannels(doc.reserved, step) && WritesId(c, id)
  {
    hide AllSteps;
    hide StepChannels;
    hide InDocument;
    hide StepWritesChannel;
    AllStepsMeaning(doc, step);
    StepChannelsMeaning(doc, step, c);
  }

  /** The closure of the validator is what paths in the document reach. */
  lemma ContractMeaning(doc: Document, step: PipeStep)
    ensures PathsCarryFlags(doc, StageReads(step)) <==> StagePathsCarryFlags(doc, step)
  {
    hide AllSteps;
    hide StepChannels;
    hide StageReads;
    hide InClosure;
    hide StageChannel;
    hide Feeds;
    hide ReadsId;
    hide IsChain;
    var start := StageReads(step);
    if PathsCarryFlags(doc, start) {
      forall ids, id, other, c | PathTo(doc, step, ids, id) && StageChannel(doc, other, c, id)
        ensures HasBothFlags(c)
      {
        PathInClosure(doc, step, ids, id);
        ChannelMeaning(doc, other, c, id);
      }
    }
    if StagePathsCarryFlags(doc, step) {
      forall other, c, id | other in AllSteps(doc) && c in StepChannels(doc.reserved, other) && WritesId(c, id)
                            && InClosure(doc, start, id)
        ensures HasBothFlags(c)
      {
        ClosureIsReachability(doc, start, id);
        var ids := ChainTo(doc, start, id);
        PathMeaning(doc, step, ids);
        ChannelMeaning(doc, other, c, id);
        assert PathTo(doc, step, ids, id);
      }
    }
  }

  lemma PathInClosure(doc: Document, step: PipeStep, ids: seq<string>, id: string)
    requires PathTo(doc, step, ids, id)
    ensures InClosure(doc, StageReads(step), id)
  {
    hide StageReads;
    hide InClosure;
    hide Feeds;
    PathMeaning(doc, step, ids);
    ChainInClosure(doc, StageReads(step), ids);
  }

  lemma ChainTo(doc: Document, start: seq<string>, id: string) returns (ids: seq<string>)
    requires Reachable(doc, start, id)
    ensures IsChain(doc, start, ids) && ids != [] && ids[|ids| - 1] == id
  {
    hide LeadsTo;
    ids :| IsChain(doc, start, ids) && ids[|ids| - 1] == id;
  }

  /** What the validator decides, said of the document: for every channel of the transformation that is an output with
      both flags, every stage channel on a path that leads to the step carries both flags too. */
  lemma VerdictMeaning(doc: Document, step: PipeStep, t: Transformation)
    ensures HeadersReachOutputs(doc, step, OutputChannels(doc.reserved, t))
       <==> forall c | Writes(doc, t, c) && c.kind
         == "output" && c.useOriginalHeaders && c.putHeadersOnFirstPartition ::
              StagePathsCarryFlags(doc, step)
  {
    hide OutputChannels;
    hide Writes;
    hide PathsCarryFlags;
    hide StagePathsCarryFlags;
    ContractMeaning(doc, step);
    forall c ensures c in OutputChannels(doc.reserved, t) <==> Writes(doc, t, c) {
      OutputsMeaning(doc, t, c);
    }
  }

  /** The stage channel a rejection names lies at the end of a path and lacks a flag. */
  lemma OffenderMeaning(doc: Document, step: PipeStep, c: Channel) returns (ids: seq<string>, other: PipeStep)
    requires Offends(doc, StageReads(step), c)
    ensures PathTo(doc, step, ids, c.writeStepId) && StageChannel(doc, other, c, c.writeStepId)
    ensures !(c.useOriginalHeaders && c.putHeadersOnFirstPartition)
  {
    hide AllSteps;
    hide StepChannels;
    hide StageReads;
    hide InClosure;
    hide Feeds;
    hide ReadsId;
    hide StageChannel;
    ClosureIsReachability(doc, StageReads(step), c.writeStepId);
    ids := ChainTo(doc, StageReads(step), c.writeStepId);
    PathMeaning(doc, step, ids);
    other :| other in AllSteps(doc) && c in StepChannels(doc.reserved, other);
    ChannelMeaning(doc, other, c, c.writeStepId);
  }
}
