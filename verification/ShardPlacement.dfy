/** Into which shard the allocator puts a file, said of the pieces placed before it. */
module ShardPlacement {
  import opened ShardAllocator

  /** A shard can still take files: the last piece was a whole file and its shard is not over the shard size. */
  predicate IsOpen(c: Config, pieces: seq<Piece>) {
    && pieces != [] && pieces[|pieces| - 1].whole
    && Load(pieces, pieces[|pieces| - 1].shardId) <= c.shardSize
  }

  /** The shard after the last one in use. */
  function FreshShard(pieces: seq<Piece>): nat {
    if pieces == [] then 0 else pieces[|pieces| - 1].shardId + 1
  }

  function OpenLoad(c: Config, pieces: seq<Piece>): int {
    if IsOpen(c, pieces) then Load(pieces, FreshShard(pieces) - 1) else 0
  }

  /** The counters of the allocator are determined by the pieces it has placed. */
  ghost predicate CountersMatch(c: Config, s: State) {
    && s.fill == OpenLoad(c, s.pieces)
    && s.shardId == (if IsOpen(c, s.pieces) then FreshShard(s.pieces) - 1 else FreshShard(s.pieces))
    && (IsOpen(c, s.pieces) ==> s.fill > 0)
    && forall id: nat | id >= FreshShard(s.pieces) :: Load(s.pieces, id) == 0
  }

  lemma LoadAfterOne(pieces: seq<Piece>, p: Piece, id: nat)
    ensures Load(pieces + [p], id) == Load(pieces, id) + LoadOf(p, id)
  {
    assert (pieces + [p])[..|pieces|] == pieces;
  }

  lemma WholeKeepsCounters(c: Config, s: State, file: nat, obj: S3Object)
    requires ValidConfig(c) && s.fill <= c.shardSize && CountersMatch(c, s)
    requires !Skipped(c, obj) && !IsSplit(c, obj)
    ensures CountersMatch(c, Step(c, s, file, obj))
  {
    hide Load;
    var full := s.fill > 0 && s.fill + obj.size > c.maxShardSize;
    var p := Piece(file, true, 0, obj.size - 1, if full then s.shardId + 1 else s.shardId);
    var after := s.pieces + [p];
    forall id: nat ensures Load(after, id) == Load(s.pieces, id) + LoadOf(p, id) {
      LoadAfterOne(s.pieces, p, id);
    }
    assert after[|after| - 1] == p;
  }

  lemma SplitKeepsCounters(c: Config, s: State, file: nat, obj: S3Object)
    requires ValidConfig(c) && s.fill <= c.shardSize && CountersMatch(c, s)
    requires !Skipped(c, obj) && IsSplit(c, obj)
    ensures CountersMatch(c, Step(c, s, file, obj))
  {
    hide Load;
    hide ChunkPieces;
    hide Chunks;
    var chunks := ChunkPieces(file, obj.size, c.shardSize, 0, s.fill, s.shardId);
    ChunkPiecesAreChunks(file, obj.size, c.shardSize, 0, s.fill, s.shardId);
    var after := s.pieces + chunks;
    assert after[|after| - 1] == chunks[|chunks| - 1];
    forall id: nat | id >= FreshShard(after) ensures Load(after, id) == 0 {
      ChunkLoad(file, obj.size, c.shardSize, 0, s.fill, s.shardId, id);
      LoadAppend(s.pieces, chunks, id);
    }
  }

  lemma {:induction false} RunCountersMatch(c: Config, objs: seq<S3Object>)
    requires ValidConfig(c)
    ensures CountersMatch(c, Allocate(c, objs))
  {
    hide CountersMatch;
    hide Step;
    if objs == [] {
      NoPieces(c);
    } else {
      var front, obj := objs[..|objs| - 1], objs[|objs| - 1];
      RunCountersMatch(c, front);
      if Skipped(c, obj) {
        SkippedStep(c, Allocate(c, front), |front|, obj);
      } else if IsSplit(c, obj) {
        SplitKeepsCounters(c, Allocate(c, front), |front|, obj);
      } else {
        WholeKeepsCounters(c, Allocate(c, front), |front|, obj);
      }
    }
  }

  lemma NoPieces(c: Config)
    ensures CountersMatch(c, State([], 0, 0))
  {}

  /**
   The placement rule, in every run. A file that is not split joins the open shard if it fits under the maximum, and
   opens a fresh shard otherwise. A split file starts in the open shard, if there is one, whatever its load, and
   fills it to one byte beyond the shard size.
   */
  lemma PlacementRule(c: Config, objs: seq<S3Object>, m: nat)
    requires ValidConfig(c) && m < |objs| && !Skipped(c, objs[m])
    ensures var before, after, size := Allocate(c, objs[..m]).pieces, Allocate(c, objs[..m + 1]).pieces, objs[m].size;
            && |before| < |after| && after[..|before|] == before
            && var first := after[|before|];
               && first.file == m && first.lo == 0
               && (!IsSplit(c, objs[m]) ==>
                     && |after| == |before| + 1 && first.whole && first.hi == size - 1
                     && first.shardId == (if IsOpen(c, before) && OpenLoad(c, before) + size <= c.maxShardSize
                                          then FreshShard(before) - 1 else FreshShard(before)))
               && (IsSplit(c, objs[m]) ==>
                     && !first.whole
                     && first.shardId == (if IsOpen(c, before) then FreshShard(before) - 1 else FreshShard(before))
                     && first.hi == (if c.shardSize - OpenLoad(c, before) >= size - 1 then size - 1
                                     else c.shardSize - OpenLoad(c, before)))
  {
    hide Load;
    hide Allocate;
    hide ChunkPieces;
    var s, obj := Allocate(c, objs[..m]), objs[m];
    RunCountersMatch(c, objs[..m]);
    AllocateAppend(c, objs, m);
    if IsSplit(c, obj) {
      ChunkPiecesCons(m, obj.size, c.shardSize, 0, s.fill, s.shardId);
    }
  }

  /** What is skipped: empty files, and files whose key ends in the sentinel's name. */
  lemma SkippedMeaning(c: Config, obj: S3Object)
    ensures Skipped(c, obj) <==> obj.size == 0 || (c.sentinel != "" && exists stem :: obj.key == stem + c.sentinel)
  {
    var key, end := obj.key, c.sentinel;
    if HasSuffix(key, end) {
      assert key == key[..|key| - |end|] + end;
    }
    if stem :| key == stem + end {
      assert key[|key| - |end|..] == end;
    }
  }
}
