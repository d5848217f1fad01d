/**
 Assigning the input files of a run to shards, splitting the large ones.

 Allocate says which un-shifted byte ranges go to which shard; a registry row records a range in
 the form the readers expect: (0, 0) for a whole file, otherwise an inclusive range whose start,
 unless it is 0, has been moved back by the shard offset.
 */
module ShardAllocator {

  datatype S3Object = S3Object(key: string, size: nat)

  datatype Config = Config(shardSize: nat, maxShardSize: nat, offset: nat, split: bool, sentinel: string)

  datatype ShardRow = ShardRow(key: string, size: nat, start: int, end: int, shardId: nat)

  /** Bytes lo..hi of the file at position file in the listing, placed in one shard. */
  datatype Piece = Piece(file: nat, whole: bool, lo: nat, hi: nat, shardId: nat)

  datatype State = State(pieces: seq<Piece>, shardId: nat, fill: nat)

  ghost predicate ValidConfig(c: Config) {
    0 < c.shardSize <= c.maxShardSize
  }

  predicate HasSuffix(s: string, suffix: string) {
    |suffix| <= |s| && s[|s| - |suffix|..] == suffix
  }

  predicate Skipped(c: Config, obj: S3Object) {
    obj.size == 0 || (|c.sentinel| > 0 && HasSuffix(obj.key, c.sentinel))
  }

  predicate IsSplit(c: Config, obj: S3Object) {
    obj.size > c.maxShardSize && c.split
  }

  /** The un-shifted chunks of a split file from byte start on, with fill bytes already in the current shard. */
  function Chunks(size: nat, shardSize: nat, start: nat, fill: nat): (r: seq<(nat, nat)>)
    requires 0 < shardSize && fill <= shardSize && start < size
    ensures |r| > 0 && r[0].0 == start
    decreases size - start
  {
    if start + shardSize - fill >= size - 1 then [(start, size - 1)]
    else [(start, start + shardSize - fill)] + Chunks(size, shardSize, start + shardSize - fill + 1, 0)
  }

  /** The chunks from byte start on, one shard each, the first into shard id. */
  function ChunkPieces(file: nat, size: nat, shardSize: nat, start: nat, fill: nat, id: nat): (r: seq<Piece>)
    requires 0 < shardSize && fill <= shardSize && start < size
    ensures |r| > 0
    decreases size - start
  {
    if start + shardSize - fill >= size - 1 then [Piece(file, false, start, size - 1, id)]
    else
      [Piece(file, false, start, start + shardSize - fill, id)]
      + ChunkPieces(file, size, shardSize, start + shardSize - fill + 1, 0, id + 1)
  }

  lemma {:induction false} ChunkPiecesAreChunks(file: nat, size: nat, shardSize: nat, start: nat, fill: nat, id: nat)
    requires 0 < shardSize && fill <= shardSize && start < size
    ensures var r, cs := ChunkPieces(file, size, shardSize, start, fill, id), Chunks(size, shardSize, start, fill);
            |r| == |cs| && forall k | 0 <= k < |r| :: r[k] == Piece(file, false, cs[k].0, cs[k].1, id + k)
    decreases size - start
  {
    var next := start + shardSize - fill + 1;
    if next <= size - 1 {
      ChunkPiecesAreChunks(file, size, shardSize, next, 0, id + 1);
    }
  }

  function Step(c: Config, s: State, file: nat, obj: S3Object): (r: State)
    requires 0 < c.shardSize <= c.maxShardSize && s.fill <= c.shardSize
    ensures r.fill <= c.shardSize
  {
    if Skipped(c, obj) then s
    else if IsSplit(c, obj) then
      var pieces := ChunkPieces(file, obj.size, c.shardSize, 0, s.fill, s.shardId);
      State(s.pieces + pieces, s.shardId + |pieces|, 0)
    else
      var full := s.fill > 0 && s.fill + obj.size > c.maxShardSize;
      var id, fill := if full then s.shardId + 1 else s.shardId, if full then 0 else s.fill;
      var pieces := s.pieces + [Piece(file, true, 0, obj.size - 1, id)];
      if fill + obj.size > c.shardSize then State(pieces, id + 1, 0) else State(pieces, id, fill + obj.size)
  }

  function Allocate(c: Config, objs: seq<S3Object>): (r: State)
    requires 0 < c.shardSize <= c.maxShardSize
    ensures r.fill <= c.shardSize
  {
    if objs == [] then State([], 0, 0)
    else Step(c, Allocate(c, objs[..|objs| - 1]), |objs| - 1, objs[|objs| - 1])
  }

  /** The number of shards: the last one is closed if it holds anything. */
  function ShardCount(s: State): nat {
    if s.fill > 0 then s.shardId + 1 else s.shardId
  }

  function RowOf(c: Config, obj: S3Object, p: Piece): ShardRow {
    if p.whole then ShardRow(obj.key, obj.size, 0, 0, p.shardId)
    else ShardRow(obj.key, obj.size, if p.lo > 0 then p.lo - c.offset else p.lo, p.hi, p.shardId)
  }

  function Rows(c: Config, objs: seq<S3Object>, pieces: seq<Piece>): (r: seq<ShardRow>)
    requires forall p | p in pieces :: p.file < |objs|
    ensures |r| == |pieces| && forall k | 0 <= k < |r| :: r[k] == RowOf(c, objs[pieces[k].file], pieces[k])
  {
    seq(|pieces|, k requires 0 <= k < |pieces| => assert pieces[k] in pieces; RowOf(c, objs[pieces[k].file], pieces[k]))
  }

  // ---------- Tiling ----------

  /** Chunks from byte start on that leave no gap and no overlap, fill every shard but the last exactly, and
      never overfill one. */
  ghost predicate TilesFrom(r: seq<(nat, nat)>, size: nat, shardSize: nat, start: nat, fill: nat) {
    && r != [] && r[0].0 == start && r[|r| - 1].1 == size - 1
    && (forall k | 0 <= k < |r| :: start <= r[k].0 <= r[k].1 < size)
    && (forall k | 0 <= k < |r| - 1 :: r[k + 1].0 == r[k].1 + 1)
    && (forall k | 0 <= k < |r| - 1 :: r[k].1 - r[k].0 == if k == 0 then shardSize - fill else shardSize)
    && r[|r| - 1].1 - r[|r| - 1].0 <= (if |r| == 1 then shardSize - fill else shardSize)
  }

  lemma TilesFromCons(rest: seq<(nat, nat)>, size: nat, shardSize: nat, start: nat, fill: nat, next: nat)
    requires fill <= shardSize && next == start + shardSize - fill + 1 && TilesFrom(rest, size, shardSize, next, 0)
    ensures TilesFrom([(start, next - 1)] + rest, size, shardSize, start, fill)
  {
    var r := [(start, next - 1)] + rest;
    forall k | 0 <= k < |r| - 1
      ensures r[k + 1].0 == r[k].1 + 1 && r[k].1 - r[k].0 == if k == 0 then shardSize - fill else shardSize
    {
      assert r[k + 1] == rest[k];
      if k > 0 {
        assert r[k] == rest[k - 1] && rest[k - 1 + 1].0 == rest[k - 1].1 + 1;
      }
    }
  }

  /** The chunks of a split file tile it. */
  lemma {:induction false} ChunksTile(size: nat, shardSize: nat, start: nat, fill: nat)
    requires 0 < shardSize && fill <= shardSize && start < size
    ensures TilesFrom(Chunks(size, shardSize, start, fill), size, shardSize, start, fill)
    decreases size - start
  {
    if start + shardSize - fill < size - 1 {
      hide TilesFrom;
      var next := start + shardSize - fill + 1;
      ChunksTile(size, shardSize, next, 0);
      TilesFromCons(Chunks(size, shardSize, next, 0), size, shardSize, start, fill, next);
    }
  }

  function Covers(p: Piece, file: nat, pos: nat): nat {
    if p.file == file && p.lo <= pos <= p.hi then 1 else 0
  }

  /** How many pieces hold byte pos of the given file. */
  function Coverage(pieces: seq<Piece>, file: nat, pos: nat): nat {
    if pieces == [] then 0 else Coverage(pieces[..|pieces| - 1], file, pos) + Covers(pieces[|pieces| - 1], file, pos)
  }

  lemma {:induction false} CoverageAppend(a: seq<Piece>, b: seq<Piece>, file: nat, pos: nat)
    ensures Coverage(a + b, file, pos) == Coverage(a, file, pos) + Coverage(b, file, pos)
  {
    if b == [] {
      assert a + b == a;
    } else {
      CoverageAppend(a, b[..|b| - 1], file, pos);
      assert (a + b)[..|a + b| - 1] == a + b[..|b| - 1];
    }
  }

  lemma {:induction false} ChunkCoverage(file: nat, size: nat, shardSize: nat, start: nat, fill: nat, id: nat, f: nat,
                                         pos: nat)
    requires 0 < shardSize && fill <= shardSize && start < size
    ensures Coverage(ChunkPieces(file, size, shardSize, start, fill, id), f, pos)
         == if f == file && start <= pos < size then 1 else 0
    decreases size - start
  {
    var p := ChunkPieces(file, size, shardSize, start, fill, id);
    var next := start + shardSize - fill + 1;
    if next <= size - 1 {
      ChunkCoverage(file, size, shardSize, next, 0, id + 1, f, pos);
      assert p == [p[0]] + ChunkPieces(file, size, shardSize, next, 0, id + 1);
      CoverageAppend([p[0]], ChunkPieces(file, size, shardSize, next, 0, id + 1), f, pos);
    }
    assert [p[0]][..0] == [];
  }

  lemma StepCovers(c: Config, s: State, m: nat, obj: S3Object, file: nat, pos: nat)
    requires ValidConfig(c) && s.fill <= c.shardSize
    ensures Coverage(Step(c, s, m, obj).pieces, file, pos)
         == Coverage(s.pieces, file, pos) + (if file == m && !Skipped(c, obj) && pos < obj.size then 1 else 0)
  {
    hide ChunkPieces;
    if !Skipped(c, obj) {
      if IsSplit(c, obj) {
        ChunkCoverage(m, obj.size, c.shardSize, 0, s.fill, s.shardId, file, pos);
        CoverageAppend(s.pieces, ChunkPieces(m, obj.size, c.shardSize, 0, s.fill, s.shardId), file, pos);
      } else {
        var after := Step(c, s, m, obj);
        assert after.pieces[..|after.pieces| - 1] == s.pieces;
      }
    }
  }

  /** Every byte of every file that is not skipped lies in exactly one piece; nothing else does. */
  lemma {:induction false} EveryByteOnce(c: Config, objs: seq<S3Object>, file: nat, pos: nat)
    requires ValidConfig(c)
    ensures Coverage(Allocate(c, objs).pieces, file, pos)
         == if file < |objs| && !Skipped(c, objs[file]) && pos < objs[file].size then 1 else 0
  {
    hide Step;
    if objs != [] {
      var m := |objs| - 1;
      EveryByteOnce(c, objs[..m], file, pos);
      StepCovers(c, Allocate(c, objs[..m]), m, objs[m], file, pos);
    }
  }

  // ---------- Shard ids ----------

  /** Ids never decrease and are exactly 0 .. n-1. */
  ghost predicate DenseIds(pieces: seq<Piece>, n: nat) {
    && (forall i, j :: 0 <= i < j < |pieces| ==> pieces[i].shardId <= pieces[j].shardId)
    && (forall p | p in pieces :: p.shardId < n)
    && (forall id: nat | id < n :: HasShard(pieces, id))
  }

  ghost predicate HasShard(pieces: seq<Piece>, id: nat) {
    exists p | p in pieces :: p.shardId == id
  }

  lemma DenseAppend(pieces: seq<Piece>, n: nat, p: Piece)
    requires DenseIds(pieces, n) && (p.shardId == n || (n > 0 && p.shardId == n - 1))
    ensures DenseIds(pieces + [p], p.shardId + 1)
  {
    var r := pieces + [p];
    forall id: nat | id < p.shardId + 1 ensures HasShard(r, id) {
      if id == p.shardId {
        assert p in r;
      } else {
        assert HasShard(pieces, id);
        var q :| q in pieces && q.shardId == id;
        assert q in r;
      }
    }
    forall i, j | 0 <= i < j < |r| ensures r[i].shardId <= r[j].shardId {
      assert r[i] in r;
      if j == |pieces| { assert pieces[i] in pieces; }
    }
  }

  lemma {:induction false} DenseChunks(pieces: seq<Piece>, n: nat, file: nat, size: nat, shardSize: nat, start: nat,
                                       fill: nat, id: nat)
    requires 0 < shardSize && fill <= shardSize && start < size
    requires DenseIds(pieces, n) && (id == n || (n > 0 && id == n - 1))
    ensures var r := ChunkPieces(file, size, shardSize, start, fill, id); DenseIds(pieces + r, id + |r|)
    decreases size - start
  {
    hide DenseIds;
    var r := ChunkPieces(file, size, shardSize, start, fill, id);
    DenseAppend(pieces, n, r[0]);
    var next := start + shardSize - fill + 1;
    if next <= size - 1 {
      var rest := ChunkPieces(file, size, shardSize, next, 0, id + 1);
      DenseChunks(pieces + [r[0]], id + 1, file, size, shardSize, next, 0, id + 1);
      assert pieces + r == (pieces + [r[0]]) + rest;
    } else {
      assert r == [r[0]];
    }
  }

  lemma StepKeepsDense(c: Config, s: State, file: nat, obj: S3Object)
    requires ValidConfig(c) && s.fill <= c.shardSize && DenseIds(s.pieces, ShardCount(s))
    ensures DenseIds(Step(c, s, file, obj).pieces, ShardCount(Step(c, s, file, obj)))
  {
    hide DenseIds;
    hide ChunkPieces;
    if !Skipped(c, obj) {
      if IsSplit(c, obj) {
        DenseChunks(s.pieces, ShardCount(s), file, obj.size, c.shardSize, 0, s.fill, s.shardId);
      } else {
        var full := s.fill > 0 && s.fill + obj.size > c.maxShardSize;
        var id := if full then s.shardId + 1 else s.shardId;
        DenseAppend(s.pieces, ShardCount(s), Piece(file, true, 0, obj.size - 1, id));
      }
    }
  }

  /** Shard ids are non-decreasing along the registry and use exactly 0 .. n-1. */
  lemma {:induction false} ShardIdsAreDense(c: Config, objs: seq<S3Object>)
    requires ValidConfig(c)
    ensures DenseIds(Allocate(c, objs).pieces, ShardCount(Allocate(c, objs)))
  {
    hide Step;
    if objs != [] {
      ShardIdsAreDense(c, objs[..|objs| - 1]);
      StepKeepsDense(c, Allocate(c, objs[..|objs| - 1]), |objs| - 1, objs[|objs| - 1]);
    }
  }

  // ---------- Loads ----------

  function LoadOf(p: Piece, id: nat): int {
    if p.shardId == id then p.hi - p.lo + 1 else 0
  }

  /** The bytes placed in one shard, before the starts are moved back. */
  function Load(pieces: seq<Piece>, id: nat): int {
    if pieces == [] then 0 else Load(pieces[..|pieces| - 1], id) + LoadOf(pieces[|pieces| - 1], id)
  }

  lemma {:induction false} LoadAppend(a: seq<Piece>, b: seq<Piece>, id: nat)
    ensures Load(a + b, id) == Load(a, id) + Load(b, id)
  {
    if b == [] {
      assert a + b == a;
    } else {
      LoadAppend(a, b[..|b| - 1], id);
      assert (a + b)[..|a + b| - 1] == a + b[..|b| - 1];
    }
  }

  lemma LoadOfOne(p: Piece, id: nat)
    ensures Load([p], id) == LoadOf(p, id)
  {
    assert [p][..0] == [];
  }

  lemma {:induction false} ChunkLoad(file: nat, size: nat, shardSize: nat, start: nat, fill: nat, id: nat, i: nat)
    requires 0 < shardSize && fill <= shardSize && start < size
    ensures var r := ChunkPieces(file, size, shardSize, start, fill, id);
            && (i < id || i >= id + |r| ==> Load(r, i) == 0)
            && Load(r, i) <= (if i == id then shardSize - fill + 1 else shardSize + 1)
    decreases size - start
  {
    hide Load;
    var r := ChunkPieces(file, size, shardSize, start, fill, id);
    LoadOfOne(r[0], i);
    var next := start + shardSize - fill + 1;
    if next <= size - 1 {
      var rest := ChunkPieces(file, size, shardSize, next, 0, id + 1);
      ChunkLoad(file, size, shardSize, next, 0, id + 1, i);
      assert r == [r[0]] + rest;
      LoadAppend([r[0]], rest, i);
    } else {
      assert r == [r[0]];
    }
  }

  function Bound(c: Config): nat {
    if c.maxShardSize > c.shardSize + 1 then c.maxShardSize else c.shardSize + 1
  }

  /** Closed shards are within the bound, the open one holds its fill, later ones are empty. */
  ghost predicate LoadInvariant(c: Config, s: State, id: nat) {
    && Load(s.pieces, id) <= Bound(c)
    && (id == s.shardId ==> Load(s.pieces, id) == s.fill)
    && (id > s.shardId ==> Load(s.pieces, id) == 0)
  }

  lemma StepKeepsLoads(c: Config, s: State, file: nat, obj: S3Object, id: nat)
    requires ValidConfig(c) && c.split && s.fill <= c.shardSize && LoadInvariant(c, s, id)
    ensures LoadInvariant(c, Step(c, s, file, obj), id)
  {
    hide Load;
    hide ChunkPieces;
    if !Skipped(c, obj) {
      if IsSplit(c, obj) {
        ChunkLoad(file, obj.size, c.shardSize, 0, s.fill, s.shardId, id);
        LoadAppend(s.pieces, ChunkPieces(file, obj.size, c.shardSize, 0, s.fill, s.shardId), id);
      } else {
        var full := s.fill > 0 && s.fill + obj.size > c.maxShardSize;
        var p := Piece(file, true, 0, obj.size - 1, if full then s.shardId + 1 else s.shardId);
        LoadOfOne(p, id);
        LoadAppend(s.pieces, [p], id);
      }
    }
  }

  /** With splitting on, no shard is loaded beyond the maximum (or one byte over the shard size). */
  lemma {:induction false} LoadsAreBounded(c: Config, objs: seq<S3Object>, id: nat)
    requires ValidConfig(c) && c.split
    ensures || Load(Allocate(c, objs).pieces, id) <= c.maxShardSize
            || Load(Allocate(c, objs).pieces, id) <= c.shardSize + 1
    ensures LoadInvariant(c, Allocate(c, objs), id)
  {
    hide Step;
    if objs != [] {
      LoadsAreBounded(c, objs[..|objs| - 1], id);
      StepKeepsLoads(c, Allocate(c, objs[..|objs| - 1]), |objs| - 1, objs[|objs| - 1], id);
    }
  }

  // ---------- Waste ----------

  function AssignedBytes(c: Config, objs: seq<S3Object>): nat {
    if objs == [] then 0
    else
      var obj := objs[|objs| - 1];
      AssignedBytes(c, objs[..|objs| - 1]) + (if Skipped(c, obj) then 0 else obj.size)
  }

  lemma {:induction false} ChunkCount(size: nat, shardSize: nat, start: nat, fill: nat)
    requires 0 < shardSize && fill <= shardSize && start < size
    ensures size - start + fill >= (|Chunks(size, shardSize, start, fill)| - 1) * shardSize
    decreases size - start
  {
    var next := start + shardSize - fill + 1;
    if next <= size - 1 {
      ChunkCount(size, shardSize, next, 0);
      var k := |Chunks(size, shardSize, next, 0)|;
      assert |Chunks(size, shardSize, start, fill)| == k + 1;
      assert k * shardSize == (k - 1) * shardSize + shardSize;
    }
  }

  lemma MoreShards(id: nat, k: nat, shardSize: nat)
    ensures (id + k) * shardSize == id * shardSize + k * shardSize
  {}

  /** One object keeps the potential: twice the bytes pay for the shards closed and for the fill. */
  lemma StepPaysForShards(c: Config, s: State, file: nat, obj: S3Object)
    requires ValidConfig(c) && s.fill <= c.shardSize && !Skipped(c, obj)
    ensures var after := Step(c, s, file, obj);
            && after.shardId >= s.shardId
            && (after.shardId - s.shardId) * c.shardSize + after.fill <= s.fill + 2 * obj.size
  {
    if IsSplit(c, obj) {
      ChunkCount(obj.size, c.shardSize, 0, s.fill);
      ChunkPiecesAreChunks(file, obj.size, c.shardSize, 0, s.fill, s.shardId);
      var k := |Chunks(obj.size, c.shardSize, 0, s.fill)|;
      MoreShards(k - 1, 1, c.shardSize);
    } else {
      MoreShards(1, 1, c.shardSize);
    }
  }

  /** Closed shards are on average at least half full: the potential is twice the bytes less the fill. */
  lemma {:induction false} ClosedShardsAreHalfFull(c: Config, objs: seq<S3Object>)
    requires ValidConfig(c)
    ensures Allocate(c, objs).shardId * c.shardSize + Allocate(c, objs).fill <= 2 * AssignedBytes(c, objs)
  {
    hide Step;
    if objs != [] {
      var m := |objs| - 1;
      var s, obj := Allocate(c, objs[..m]), objs[m];
      ClosedShardsAreHalfFull(c, objs[..m]);
      var after := Step(c, s, m, obj);
      if Skipped(c, obj) {
        SkippedStep(c, s, m, obj);
      } else {
        StepPaysForShards(c, s, m, obj);
        MoreShards(s.shardId, after.shardId - s.shardId, c.shardSize);
      }
    }
  }

  lemma SkippedStep(c: Config, s: State, file: nat, obj: S3Object)
    requires ValidConfig(c) && s.fill <= c.shardSize && Skipped(c, obj)
    ensures Step(c, s, file, obj) == s
  {}

  /** The allocator wastes at most a factor of two. */
  lemma WasteIsBounded(c: Config, objs: seq<S3Object>)
    requires ValidConfig(c)
    ensures (ShardCount(Allocate(c, objs)) - 1) * c.shardSize <= 2 * AssignedBytes(c, objs)
  {
    hide Allocate;
    hide AssignedBytes;
    ClosedShardsAreHalfFull(c, objs);
    FewerShards(ShardCount(Allocate(c, objs)) - 1, Allocate(c, objs).shardId, c.shardSize);
  }

  lemma FewerShards(a: int, b: nat, shardSize: nat)
    requires a <= b
    ensures a * shardSize <= b * shardSize
  {}

  function TotalSize(objs: seq<S3Object>): nat {
    if objs == [] then 0 else TotalSize(objs[..|objs| - 1]) + objs[|objs| - 1].size
  }

  lemma {:induction false} OneShardWhenTotalFits(c: Config, objs: seq<S3Object>)
    requires ValidConfig(c) && !c.split && TotalSize(objs) <= c.shardSize
    ensures Allocate(c, objs).shardId == 0 && Allocate(c, objs).fill <= TotalSize(objs)
  {
    if objs != [] {
      OneShardWhenTotalFits(c, objs[..|objs| - 1]);
    }
  }

  /** A merge-only run, with sizes just above the total, no splitting and no offset, never gets more than one shard:
      its error branch is dead. */
  lemma MergeOnlyIsOneShard(objs: seq<S3Object>, sentinel: string)
    ensures var total := TotalSize(objs);
            ShardCount(Allocate(Config(total + 1024, total + 1024 * 1024, 0, false, sentinel), objs)) <= 1
  {
    var total := TotalSize(objs);
    OneShardWhenTotalFits(Config(total + 1024, total + 1024 * 1024, 0, false, sentinel), objs);
  }

  // ---------- The allocator as it runs ----------

  lemma {:induction false} PieceFiles(c: Config, objs: seq<S3Object>)
    requires ValidConfig(c)
    ensures forall p | p in Allocate(c, objs).pieces :: p.file < |objs|
  {
    if objs != [] {
      var m := |objs| - 1;
      var s := Allocate(c, objs[..m]);
      PieceFiles(c, objs[..m]);
      if IsSplit(c, objs[m]) {
        ChunkPiecesAreChunks(m, objs[m].size, c.shardSize, 0, s.fill, s.shardId);
      }
    }
  }

  /** The registry rows of a run: one per piece, in the order the pieces were placed. */
  function Registry(c: Config, objs: seq<S3Object>): (rows: seq<ShardRow>)
    requires ValidConfig(c)
    ensures |rows| == |Allocate(c, objs).pieces|
  {
    PieceFiles(c, objs);
    Rows(c, objs, Allocate(c, objs).pieces)
  }

  function RowsOfFile(c: Config, obj: S3Object, pieces: seq<Piece>): seq<ShardRow> {
    if pieces == [] then [] else [RowOf(c, obj, pieces[0])] + RowsOfFile(c, obj, pieces[1..])
  }

  lemma RowsOfFileCons(c: Config, obj: S3Object, pieces: seq<Piece>)
    requires pieces != []
    ensures RowsOfFile(c, obj, pieces) == [RowOf(c, obj, pieces[0])] + RowsOfFile(c, obj, pieces[1..])
  {}

  lemma RowsOfNothing(c: Config, obj: S3Object)
    ensures RowsOfFile(c, obj, []) == []
  {}

  /** One more chunk, and those after it. */
  lemma ChunkPiecesCons(file: nat, size: nat, shardSize: nat, start: nat, fill: nat, id: nat)
    requires 0 < shardSize && fill <= shardSize && start < size
    ensures var r, end := ChunkPieces(file, size, shardSize, start, fill, id), start + shardSize - fill;
            if end >= size - 1 then r[0] == Piece(file, false, start, size - 1, id) && r[1..] == []
            else r[0] == Piece(file, false, start, end, id)
                 && r[1..] == ChunkPieces(file, size, shardSize, end + 1, 0, id + 1)
  {}

  /** Split one file: the chunks after the first start offset bytes early. */
  method SplitFile(c: Config, file: nat, obj: S3Object, shardId: nat, fill: nat)
    returns (rows: seq<ShardRow>, nextId: nat)
    requires ValidConfig(c) && fill <= c.shardSize && obj.size > 0
    ensures var pieces := ChunkPieces(file, obj.size, c.shardSize, 0, fill, shardId);
            rows == RowsOfFile(c, obj, pieces) && nextId == shardId + |pieces|
  {
    hide ChunkPieces;
    hide RowsOfFile;
    ghost var all := ChunkPieces(file, obj.size, c.shardSize, 0, fill, shardId);
    rows, nextId := [], shardId;
    var start, end, nextStart, currentShardSize := 0, 0, 0, fill;
    var reminder: int := obj.size;
    ghost var todo := all;
    while reminder > 0
      invariant 0 <= currentShardSize <= c.shardSize && 0 <= start
      invariant reminder > 0 ==> start < obj.size && reminder >= obj.size - start
      invariant reminder > 0 ==> todo == ChunkPieces(file, obj.size, c.shardSize, start, currentShardSize, nextId)
      invariant reminder <= 0 ==> todo == []
      invariant rows + RowsOfFile(c, obj, todo) == RowsOfFile(c, obj, all)
      invariant nextId + |todo| == shardId + |all|
      decreases |todo|
    {
      ChunkPiecesCons(file, obj.size, c.shardSize, start, currentShardSize, nextId);
      if start + c.shardSize - currentShardSize >= obj.size - 1 {
        end, nextStart, reminder := obj.size - 1, 0, 0;
      } else {
        end := start + c.shardSize - currentShardSize;
        nextStart := end + 1;
        reminder := reminder - (c.shardSize - currentShardSize);
      }
      RowsOfFileCons(c, obj, todo);
      var stored: int := if start > 0 then start - c.offset else start;
      rows := rows + [ShardRow(obj.key, obj.size, stored, end, nextId)];
      nextId := nextId + 1;
      currentShardSize := 0;
      start := nextStart;
      todo := todo[1..];
    }
    RowsOfNothing(c, obj);
    assert rows + [] == rows;
  }

  /** The rows so far are those of the pieces so far, all of them of the first m files. */
  ghost predicate RowsMatch(c: Config, objs: seq<S3Object>, rows: seq<ShardRow>, pieces: seq<Piece>, m: nat) {
    && m <= |objs| && |rows| == |pieces|
    && forall k | 0 <= k < |rows| :: pieces[k].file < m && rows[k] == RowOf(c, objs[pieces[k].file], pieces[k])
  }

  lemma RowsMatchAppend(c: Config, objs: seq<S3Object>, rows: seq<ShardRow>, pieces: seq<Piece>, m: nat,
                        more: seq<ShardRow>, added: seq<Piece>)
    requires RowsMatch(c, objs, rows, pieces, m) && m < |objs| && |more| == |added|
    requires forall k | 0 <= k < |added| :: added[k].file == m && more[k] == RowOf(c, objs[m], added[k])
    ensures RowsMatch(c, objs, rows + more, pieces + added, m + 1)
  {
    hide RowOf;
  }

  lemma RowsMatchSkip(c: Config, objs: seq<S3Object>, rows: seq<ShardRow>, pieces: seq<Piece>, m: nat)
    requires RowsMatch(c, objs, rows, pieces, m) && m < |objs|
    ensures RowsMatch(c, objs, rows, pieces, m + 1)
  {
    hide RowOf;
  }

  lemma RowsMatchRegistry(c: Config, objs: seq<S3Object>, rows: seq<ShardRow>)
    requires ValidConfig(c) && RowsMatch(c, objs, rows, Allocate(c, objs).pieces, |objs|)
    ensures rows == Registry(c, objs)
  {
    hide Allocate;
    hide RowOf;
    PieceFiles(c, objs);
  }

  lemma SplitRowsMatch(c: Config, file: nat, obj: S3Object, shardId: nat, fill: nat)
    requires ValidConfig(c) && fill <= c.shardSize && obj.size > 0
    ensures var pieces := ChunkPieces(file, obj.size, c.shardSize, 0, fill, shardId);
            var rows := RowsOfFile(c, obj, pieces);
            |rows| == |pieces|
              && forall k | 0 <= k < |pieces| :: pieces[k].file == file && rows[k] == RowOf(c, obj, pieces[k])
  {
    hide RowOf;
    hide RowsOfFile;
    hide Chunks;
    hide ChunkPieces;
    RowsOfFileAt(c, obj, ChunkPieces(file, obj.size, c.shardSize, 0, fill, shardId));
    ChunkPiecesAreChunks(file, obj.size, c.shardSize, 0, fill, shardId);
  }

  lemma AllocateAppend(c: Config, objs: seq<S3Object>, m: nat)
    requires ValidConfig(c) && m < |objs|
    ensures Allocate(c, objs[..m + 1]) == Step(c, Allocate(c, objs[..m]), m, objs[m])
  {
    hide Step;
    assert objs[..m + 1][..m] == objs[..m];
  }

  /** The registry rows in listing order and the number of shards. */
  method AssignShardInfo(c: Config, objs: seq<S3Object>) returns (rows: seq<ShardRow>, count: nat)
    requires ValidConfig(c)
    ensures rows == Registry(c, objs)
    ensures count == ShardCount(Allocate(c, objs))
  {
    hide ChunkPieces;
    hide HasSuffix;
    hide RowsOfFile;
    hide RowsMatch;
    hide Registry;
    hide Allocate;
    var shardId, fill: nat := 0, 0;
    rows := [];
    NothingAllocated(c, objs);
    for i := 0 to |objs|
      invariant Allocate(c, objs[..i]).shardId == shardId && Allocate(c, objs[..i]).fill == fill
      invariant RowsMatch(c, objs, rows, Allocate(c, objs[..i]).pieces, i)
    {
      var obj := objs[i];
      ghost var pieces := Allocate(c, objs[..i]).pieces;
      AllocateAppend(c, objs, i);
      if Skipped(c, obj) {
        RowsMatchSkip(c, objs, rows, pieces, i);
        continue;
      }
      if IsSplit(c, obj) {
        ghost var chunks := ChunkPieces(i, obj.size, c.shardSize, 0, fill, shardId);
        var chunkRows, nextId := SplitFile(c, i, obj, shardId, fill);
        SplitRowsMatch(c, i, obj, shardId, fill);
        RowsMatchAppend(c, objs, rows, pieces, i, chunkRows, chunks);
        rows := rows + chunkRows;
        shardId, fill := nextId, 0;
      } else {
        if fill > 0 && fill + obj.size > c.maxShardSize {
          shardId, fill := shardId + 1, 0;
        }
        var row := ShardRow(obj.key, obj.size, 0, 0, shardId);
        RowsMatchAppend(c, objs, rows, pieces, i, [row], [Piece(i, true, 0, obj.size - 1, shardId)]);
        rows := rows + [row];
        fill := fill + obj.size;
        if fill > c.shardSize {
          shardId, fill := shardId + 1, 0;
        }
      }
    }
    assert objs[..|objs|] == objs;
    RowsMatchRegistry(c, objs, rows);
    count := if fill > 0 then shardId + 1 else shardId;
  }

  lemma NothingAllocated(c: Config, objs: seq<S3Object>)
    requires ValidConfig(c)
    ensures Allocate(c, objs[..0]) == State([], 0, 0) && RowsMatch(c, objs, [], [], 0)
  {}

  lemma {:induction false} RowsOfFileAt(c: Config, obj: S3Object, pieces: seq<Piece>)
    ensures var r := RowsOfFile(c, obj, pieces);
            |r| == |pieces| && forall k | 0 <= k < |r| :: r[k] == RowOf(c, obj, pieces[k])
  {
    if pieces != [] {
      RowsOfFileAt(c, obj, pieces[1..]);
    }
  }
}
