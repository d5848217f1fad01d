/**
 Every record of a split file is read by exactly one shard, with no coordinator: the line a shard
 drops starts at exactly the byte where the next shard resumes.
 */
module ShardedRead {
  import opened ShardAllocator
  import opened ShardReader

  /** The newline before the line that crosses into chunk c lies inside the offset window of c's reader. */
  predicate BoundaryVisible(f: seq<Byte>, offset: nat, c: (nat, nat))
    requires c.0 <= |f|
  {
    c.0 > 0 ==> LineStart(f, c.0 - 1) > c.0 - offset
  }

  ghost predicate AllVisible(f: seq<Byte>, offset: nat, chunks: seq<(nat, nat)>) {
    forall c | c in chunks :: c.0 <= |f| && BoundaryVisible(f, offset, c)
  }

  // ---------- One shard ----------

  lemma LastIndexIs(s: seq<Byte>, i: int)
    requires -1 <= i < |s| && (i >= 0 ==> s[i] == LF) && forall k | i < k < |s| :: s[k] != LF
    ensures LastIndex(s, LF) == i
  {
    hide LastIndex;
    var l := LastIndex(s, LF);
    assert l >= 0 ==> s[l] == LF;
  }

  /** The offset window [lo, b) of the reader whose un-shifted start is b. */
  lemma ResumeFindsLineStart(f: seq<Byte>, lo: nat, b: nat)
    requires 0 < lo < b <= |f|
    ensures Resume(f[lo..b]) == if LineStart(f, b - 1) > lo then LineStart(f, b - 1) - 1 - lo else -1
  {
    hide LineStart;
    hide LastIndex;
    var r, w := LineStart(f, b - 1), f[lo..b];
    var buf := if w[|w| - 1] == LF then w[..|w| - 1] else w;
    var i := if r > lo then r - 1 - lo else -1;
    forall k | i < k < |buf| ensures buf[k] != LF {
      assert buf[k] == w[k] == f[lo + k];
    }
    assert i >= 0 ==> i < |buf| && buf[i] == f[r - 1];
    LastIndexIs(buf, i);
  }

  lemma DownloadRange(f: seq<Byte>, row: ShardRow, lenient: bool)
    requires 0 <= row.start <= row.end < |f| && row.end > 0
    ensures Download(f, row, lenient) == Ok(f[row.start..row.end + 1])
  {}

  lemma LaterPosition(f: seq<Byte>, row: ShardRow, b: nat, offset: nat)
    requires 0 < offset < b <= row.end < |f| && row.start == b - offset
    ensures Position(f[b - offset..row.end + 1], row, offset)
         == if LineStart(f, b - 1) > b - offset then Ok(f[LineStart(f, b - 1)..row.end + 1]) else Err(NoRecordBoundary)
  {
    hide LineStart;
    hide Resume;
    var lo, r := b - offset, LineStart(f, b - 1);
    var bytes := f[lo..row.end + 1];
    ResumeFindsLineStart(f, lo, b);
    assert bytes[..offset] == f[lo..b];
    assert r > lo ==> bytes[r - lo..] == f[r..row.end + 1];
  }

  /** A shard after the first: it resumes at the line that crosses its un-shifted start and stops before
      the line that crosses its end, or fails because that line's beginning is out of its window. */
  lemma LaterShard(f: seq<Byte>, row: ShardRow, b: nat, offset: nat, lenient: bool)
    requires 0 < offset < b <= row.end < |f| == row.size
    requires row.start == b - offset
    ensures LineStart(f, b - 1) <= LineStart(f, row.end)
    ensures ReadShard(f, row, offset, lenient)
         == if BoundaryVisible(f, offset, (b, row.end))
            then Ok(Lines(f[LineStart(f, b - 1)..LineStart(f, row.end)])) else Err(NoRecordBoundary)
  {
    hide Lines;
    hide LineStart;
    hide Position;
    hide DropLast;
    hide Download;
    DownloadRange(f, row, lenient);
    LineStartIsMonotone(f, b - 1, row.end);
    LaterPosition(f, row, b, offset);
    LinesUpTo(f, LineStart(f, b - 1), row.end);
  }

  lemma FirstShard(f: seq<Byte>, row: ShardRow, offset: nat, lenient: bool)
    requires row.start == 0 < row.end < |f| == row.size
    ensures ReadShard(f, row, offset, lenient) == Ok(Lines(f[..LineStart(f, row.end)]))
  {
    hide Lines;
    hide LineStart;
    hide DropLast;
    hide Download;
    DownloadRange(f, row, lenient);
    LinesUpTo(f, 0, row.end);
    assert f[0..LineStart(f, row.end)] == f[..LineStart(f, row.end)];
  }

  // ---------- All shards of one file ----------

  function ChunkRows(c: Config, obj: S3Object, start: nat, fill: nat, id: nat): seq<ShardRow>
    requires 0 < c.shardSize && fill <= c.shardSize && start < obj.size
  {
    RowsOfFile(c, obj, ChunkPieces(0, obj.size, c.shardSize, start, fill, id))
  }

  /** The rows of a split file: the row of the first chunk, then those of the rest. */
  lemma ChunkRowsUnfold(c: Config, obj: S3Object, start: nat, fill: nat, id: nat)
    requires 0 < c.shardSize && fill <= c.shardSize && start < obj.size
    ensures var next, stored := start + c.shardSize - fill + 1, if start > 0 then start - c.offset else 0;
            if next <= obj.size - 1
            then ChunkRows(c, obj, start, fill, id)
                 == [ShardRow(obj.key, obj.size, stored, next - 1, id)] + ChunkRows(c, obj, next, 0, id + 1)
            else ChunkRows(c, obj, start, fill, id) == [ShardRow(obj.key, obj.size, stored, obj.size - 1, id)]
  {
    var p := ChunkPieces(0, obj.size, c.shardSize, start, fill, id);
    var next := start + c.shardSize - fill + 1;
    if next <= obj.size - 1 {
      assert p[1..] == ChunkPieces(0, obj.size, c.shardSize, next, 0, id + 1);
    } else {
      assert p == [p[0]] && p[1..] == [] && RowsOfFile(c, obj, []) == [];
    }
  }

  lemma ReadAllCons(f: seq<Byte>, row: ShardRow, rows: seq<ShardRow>, offset: nat, lenient: bool)
    ensures ReadAll(f, [row] + rows, offset, lenient)
         == match ReadShard(f, row, offset, lenient)
            case Err(e) => Err(e)
            case Ok(first) =>
              match ReadAll(f, rows, offset, lenient)
              case Err(e) => Err(e)
              case Ok(rest) => Ok(first + rest)
  {
    hide ReadShard;
    assert ([row] + rows)[1..] == rows;
  }

  lemma JoinLines(f: seq<Byte>, a: nat, b: nat, e: nat)
    requires a <= b <= e <= |f| && (a == b || f[b - 1] == LF)
    ensures Lines(f[a..b]) + Lines(f[b..e]) == Lines(f[a..e])
  {
    hide Lines;
    var s := f[a..e];
    assert s[..b - a] == f[a..b] && s[b - a..] == f[b..e];
    assert b > a ==> s[b - a - 1] == f[b - 1];
    LinesSplit(s, b - a);
  }

  ghost predicate Reads(result: Result<seq<Line>>, visible: bool, lines: seq<Line>) {
    result == if visible then Ok(lines) else Err(NoRecordBoundary)
  }

  lemma AllVisibleCons(f: seq<Byte>, offset: nat, c: (nat, nat), rest: seq<(nat, nat)>)
    requires c.0 <= |f|
    ensures AllVisible(f, offset, [c] + rest) <==> BoundaryVisible(f, offset, c) && AllVisible(f, offset, rest)
  {
    hide LineStart;
    var cs := [c] + rest;
    assert forall d | d in rest :: d in cs;
    assert c in cs;
  }

  /** One shard in front of the shards that read on from where it stopped. */
  lemma ReadOneMore(f: seq<Byte>, row: ShardRow, rows: seq<ShardRow>, offset: nat, a: nat, b: nat, e: nat, v: bool,
                    vs: bool, lenient: bool)
    requires a <= b <= e <= |f| && (a == b || f[b - 1] == LF)
    requires Reads(ReadShard(f, row, offset, lenient), v, Lines(f[a..b]))
    requires Reads(ReadAll(f, rows, offset, lenient), vs, Lines(f[b..e]))
    ensures Reads(ReadAll(f, [row] + rows, offset, lenient), v && vs, Lines(f[a..e]))
  {
    hide Lines;
    hide ReadShard;
    hide ReadAll;
    JoinLines(f, a, b, e);
    ReadAllCons(f, row, rows, offset, lenient);
  }

  lemma ReadJustOne(f: seq<Byte>, row: ShardRow, offset: nat, v: bool, lines: seq<Line>, lenient: bool)
    requires Reads(ReadShard(f, row, offset, lenient), v, lines)
    ensures Reads(ReadAll(f, [row], offset, lenient), v, lines)
  {
    hide ReadShard;
    ReadAllCons(f, row, [], offset, lenient);
    ReadNothing(f, offset, lenient);
    assert [row] + [] == [row] && lines + [] == lines;
  }

  /** The shards from un-shifted byte b on read the lines from the one that crosses into b up to the last. */
  lemma {:induction false} LaterShards(f: seq<Byte>, c: Config, obj: S3Object, b: nat, id: nat, lenient: bool)
    requires 0 < c.offset < b < obj.size == |f| && 0 < c.shardSize
    ensures LineStart(f, b - 1) <= LineStart(f, obj.size - 1)
    ensures Reads(ReadAll(f, ChunkRows(c, obj, b, 0, id), c.offset, lenient),
                  AllVisible(f, c.offset, Chunks(obj.size, c.shardSize, b, 0)),
                  Lines(f[LineStart(f, b - 1)..LineStart(f, obj.size - 1)]))
    decreases obj.size - b
  {
    hide Lines;
    hide LineStart;
    hide ReadShard;
    hide ReadAll;
    hide ChunkRows;
    hide AllVisible;
    hide BoundaryVisible;
    var last, next := obj.size - 1, b + c.shardSize + 1;
    var end := if next <= last then next - 1 else last;
    var row := ShardRow(obj.key, obj.size, b - c.offset, end, id);
    var seen := BoundaryVisible(f, c.offset, (b, end));
    ChunkRowsUnfold(c, obj, b, 0, id);
    LaterShard(f, row, b, c.offset, lenient);
    var from, to := LineStart(f, b - 1), LineStart(f, end);
    if next <= last {
      var rest := Chunks(obj.size, c.shardSize, next, 0);
      LaterShards(f, c, obj, next, id + 1, lenient);
      AllVisibleCons(f, c.offset, (b, end), rest);
      ReadOneMore(f, row, ChunkRows(c, obj, next, 0, id + 1), c.offset, from, to, LineStart(f, last),
                  seen, AllVisible(f, c.offset, rest), lenient);
    } else {
      AllVisibleCons(f, c.offset, (b, end), []);
      assert [(b, end)] + [] == [(b, end)];
      NothingToSee(f, c.offset);
      ReadJustOne(f, row, c.offset, seen, Lines(f[from..to]), lenient);
    }
  }

  lemma NothingToSee(f: seq<Byte>, offset: nat)
    ensures AllVisible(f, offset, [])
  {}

  lemma ReadNothing(f: seq<Byte>, offset: nat, lenient: bool)
    ensures ReadAll(f, [], offset, lenient) == Ok([])
  {}

  /** The guard of a sound split: one chunk holds the whole file, or the second chunk's stored start is positive. */
  predicate SoundSplit(c: Config, size: nat, fill: nat)
  {
    size - 1 <= c.shardSize - fill || c.offset <= c.shardSize - fill
  }

  /**
   The exact behaviour of the sharded read under the guard: all lines of the file but the last, in
   order, each once; or a failure exactly when some boundary's line begins outside its window.
   */
  lemma ShardedReadIsExact(f: seq<Byte>, c: Config, obj: S3Object, fill: nat, id: nat, lenient: bool)
    requires ValidConfig(c) && IsSplit(c, obj) && c.offset > 0 && fill <= c.shardSize && |f| == obj.size
    requires SoundSplit(c, obj.size, fill)
    ensures Reads(ReadAll(f, ChunkRows(c, obj, 0, fill, id), c.offset, lenient),
                  AllVisible(f, c.offset, Chunks(obj.size, c.shardSize, 0, fill)), DropLast(Lines(f)))
  {
    hide Lines;
    hide LineStart;
    hide ReadShard;
    hide ReadAll;
    hide ChunkRows;
    hide AllVisible;
    var last, next := obj.size - 1, c.shardSize - fill + 1;
    var end := if next <= last then next - 1 else last;
    var row := ShardRow(obj.key, obj.size, 0, end, id);
    ChunkRowsUnfold(c, obj, 0, fill, id);
    FirstShard(f, row, c.offset, lenient);
    LinesUpTo(f, 0, last);
    var to := LineStart(f, end);
    assert f[0..last + 1] == f && f[0..to] == f[..to];
    if next <= last {
      var rest := Chunks(obj.size, c.shardSize, next, 0);
      LaterShards(f, c, obj, next, id + 1, lenient);
      AllVisibleCons(f, c.offset, (0, end), rest);
      ReadOneMore(f, row, ChunkRows(c, obj, next, 0, id + 1), c.offset, 0, to, LineStart(f, last),
                  true, AllVisible(f, c.offset, rest), lenient);
    } else {
      AllVisibleCons(f, c.offset, (0, end), []);
      assert [(0, end)] + [] == [(0, end)];
      NothingToSee(f, c.offset);
      ReadJustOne(f, row, c.offset, true, Lines(f[..to]), lenient);
    }
  }

  /** No split reads a whole file: under the guard the final line is lost, or the read fails. */
  lemma FinalLineIsLost(f: seq<Byte>, c: Config, obj: S3Object, fill: nat, id: nat, lenient: bool)
    requires ValidConfig(c) && IsSplit(c, obj) && c.offset > 0 && fill <= c.shardSize && |f| == obj.size
    requires SoundSplit(c, obj.size, fill)
    ensures ReadAll(f, ChunkRows(c, obj, 0, fill, id), c.offset, lenient) != Ok(Lines(f))
  {
    hide Lines;
    hide ReadAll;
    hide ChunkRows;
    hide AllVisible;
    ShardedReadIsExact(f, c, obj, fill, id, lenient);
    SomeLine(f);
  }

  lemma SomeLine(s: seq<Byte>)
    requires s != []
    ensures Lines(s) != [] && |DropLast(Lines(s))| == |Lines(s)| - 1
  {}

  /** Every line, its newline included, is shorter than the offset. */
  ghost predicate ShortLines(f: seq<Byte>, offset: nat) {
    forall pos: nat | pos < |f| :: pos - LineStart(f, pos) + 1 < offset
  }

  lemma ShortLinesAreVisible(f: seq<Byte>, offset: nat, chunks: seq<(nat, nat)>)
    requires ShortLines(f, offset) && forall c | c in chunks :: c.0 <= |f|
    ensures AllVisible(f, offset, chunks)
  {
    hide LineStart;
    forall c | c in chunks ensures BoundaryVisible(f, offset, c) {
      if c.0 > 0 {
        var pos := c.0 - 1;
        assert pos - LineStart(f, pos) + 1 < offset;
      }
    }
  }

  /** From every file of short lines the split reads all lines but the last, in order and once each. */
  ghost predicate ReadsAllButLast(c: Config, obj: S3Object, fill: nat, id: nat, lenient: bool)
    requires 0 < c.shardSize && fill <= c.shardSize && 0 < obj.size
  {
    forall f: seq<Byte> | |f| == obj.size && ShortLines(f, c.offset) ::
      ReadAll(f, ChunkRows(c, obj, 0, fill, id), c.offset, lenient) == Ok(DropLast(Lines(f)))
  }

  lemma SoundSplitReadsAllButLast(c: Config, obj: S3Object, fill: nat, id: nat, lenient: bool)
    requires ValidConfig(c) && IsSplit(c, obj) && c.offset > 0 && fill <= c.shardSize
    requires SoundSplit(c, obj.size, fill)
    ensures ReadsAllButLast(c, obj, fill, id, lenient)
  {
    hide Lines;
    hide ReadAll;
    hide ChunkRows;
    hide ShortLines;
    hide AllVisible;
    forall f: seq<Byte> | |f| == obj.size && ShortLines(f, c.offset)
      ensures ReadAll(f, ChunkRows(c, obj, 0, fill, id), c.offset, lenient) == Ok(DropLast(Lines(f)))
    {
      ShardedReadIsExact(f, c, obj, fill, id, lenient);
      ChunksTile(obj.size, c.shardSize, 0, fill);
      ShortLinesAreVisible(f, c.offset, Chunks(obj.size, c.shardSize, 0, fill));
    }
  }

  // ---------- The guard is necessary ----------

  function Newlines(n: nat): (f: seq<Byte>)
    ensures |f| == n && forall k | 0 <= k < n :: f[k] == LF
  {
    seq(n, _ => LF)
  }

  lemma {:induction false} LinesOfNewlines(s: seq<Byte>)
    requires forall k | 0 <= k < |s| :: s[k] == LF
    ensures |Lines(s)| == |s|
  {
    if s != [] {
      LineEndIsUnique(s, 1);
      LinesOfNewlines(s[1..]);
    }
  }

  lemma NewlinesAreShort(n: nat, offset: nat)
    requires offset > 1
    ensures ShortLines(Newlines(n), offset)
  {}

  /** A read that hands out at least as many lines as the file has has not dropped its last one only. */
  lemma TooManyLines(f: seq<Byte>, rows: seq<ShardRow>, offset: nat, lenient: bool)
    requires f != []
    requires ReadAll(f, rows, offset, lenient).Ok? ==> |ReadAll(f, rows, offset, lenient).value| >= |Lines(f)|
    ensures ReadAll(f, rows, offset, lenient) != Ok(DropLast(Lines(f)))
  {
    hide Lines;
    hide ReadAll;
    SomeLine(f);
  }

  /** A shard that is exactly full when the split begins: the first chunk (0, 0) means the whole file, so that
      shard alone hands out every line, and whatever the others do the lines are not those of a sound split. */
  lemma FullShardReadsTwice(f: seq<Byte>, c: Config, obj: S3Object, fill: nat, id: nat, lenient: bool)
    requires ValidConfig(c) && IsSplit(c, obj) && fill == c.shardSize && |f| == obj.size
    ensures var rows := ChunkRows(c, obj, 0, fill, id);
            && |rows| > 0 && ReadShard(f, rows[0], c.offset, lenient) == Ok(Lines(f))
            && ReadAll(f, rows, c.offset, lenient) != Ok(DropLast(Lines(f)))
  {
    hide Lines;
    hide ReadAll;
    hide ChunkRows;
    var row := ShardRow(obj.key, obj.size, 0, 0, id);
    ChunkRowsUnfold(c, obj, 0, fill, id);
    ReadAllCons(f, row, ChunkRows(c, obj, 1, 0, id + 1), c.offset, lenient);
    TooManyLines(f, ChunkRows(c, obj, 0, fill, id), c.offset, lenient);
  }

  lemma LinesInside(f: seq<Byte>, a: nat, b: nat)
    requires f == Newlines(|f|) && a <= b <= |f|
    ensures |Lines(f[a..b])| == b - a
  {
    LinesOfNewlines(f[a..b]);
  }

  /** The chunks after the one that starts at b. */
  function ChunksAfter(c: Config, size: nat, b: nat): seq<(nat, nat)>
    requires 0 < c.shardSize && b < size
  {
    if b + c.shardSize + 1 <= size - 1 then Chunks(size, c.shardSize, b + c.shardSize + 1, 0) else []
  }

  /** The second chunk, moved back to byte 0: its reader and those after it hand out the whole file again, its
      last line apart. */
  lemma StartOver(f: seq<Byte>, c: Config, obj: S3Object, b: nat, id: nat, lenient: bool)
    requires |f| == obj.size && 0 < c.shardSize && 1 < b == c.offset < obj.size
    ensures Reads(ReadAll(f, ChunkRows(c, obj, b, 0, id), c.offset, lenient),
                  AllVisible(f, c.offset, ChunksAfter(c, obj.size, b)), DropLast(Lines(f)))
  {
    hide Lines;
    hide LineStart;
    hide ReadShard;
    hide ReadAll;
    hide ChunkRows;
    hide AllVisible;
    hide Chunks;
    var last, next := obj.size - 1, b + c.shardSize + 1;
    var end := if next <= last then next - 1 else last;
    var row := ShardRow(obj.key, obj.size, 0, end, id);
    ChunkRowsUnfold(c, obj, b, 0, id);
    FirstShard(f, row, c.offset, lenient);
    LinesUpTo(f, 0, last);
    var to := LineStart(f, end);
    assert f[0..last + 1] == f && f[0..to] == f[..to];
    if next <= last {
      LaterShards(f, c, obj, next, id + 1, lenient);
      ReadOneMore(f, row, ChunkRows(c, obj, next, 0, id + 1), c.offset, 0, to, LineStart(f, last),
                  true, AllVisible(f, c.offset, ChunksAfter(c, obj.size, b)), lenient);
    } else {
      NothingToSee(f, c.offset);
      ReadJustOne(f, row, c.offset, true, Lines(f[..to]), lenient);
    }
  }

  /**
   The second chunk, moved back to or before byte 0. Its reader starts over from byte 0, or its range is invalid:
   then it fails, or gets the whole file. Whenever the readers from there on succeed, the first of them hands out
   every line of the file again, its last one apart.
   */
  lemma SecondShardStartsOver(f: seq<Byte>, c: Config, obj: S3Object, e: nat, id: nat, lenient: bool)
    requires |f| == obj.size && 0 < c.shardSize && 0 < e < obj.size - 1 && c.offset > e
    ensures var rows := ChunkRows(c, obj, e + 1, 0, id);
            var all := ReadAll(f, rows, c.offset, lenient);
            && |rows| > 0
            && (c.offset == e + 1 ==>
                Reads(all, AllVisible(f, c.offset, ChunksAfter(c, obj.size, e + 1)), DropLast(Lines(f))))
            && (c.offset > e + 1 && !lenient ==> all == Err(BadRange))
            && (c.offset > e + 1 && lenient ==> ReadShard(f, rows[0], c.offset, lenient) == Ok(DropLast(Lines(f))))
            && (all.Ok? ==> DropLast(Lines(f)) <= all.value)
  {
    hide Lines;
    hide ReadAll;
    hide ChunkRows;
    hide AllVisible;
    hide ChunksAfter;
    hide ReadShard;
    var rows := ChunkRows(c, obj, e + 1, 0, id);
    ChunkRowsUnfold(c, obj, e + 1, 0, id);
    if c.offset == e + 1 {
      StartOver(f, c, obj, e + 1, id, lenient);
    } else {
      InvalidRange(f, rows[0], c.offset, lenient);
      ReadAllCons(f, rows[0], rows[1..], c.offset, lenient);
      assert rows == [rows[0]] + rows[1..];
    }
  }

  lemma InvalidRange(f: seq<Byte>, row: ShardRow, offset: nat, lenient: bool)
    requires row.start < 0 < row.end < row.size
    ensures ReadShard(f, row, offset, lenient) == if lenient then Ok(DropLast(Lines(f))) else Err(BadRange)
  {
    hide Lines;
    hide DropLast;
  }

  lemma UnsoundSplitFails(c: Config, obj: S3Object, fill: nat, id: nat, lenient: bool)
    requires ValidConfig(c) && IsSplit(c, obj) && c.offset > 1 && fill <= c.shardSize
    requires !SoundSplit(c, obj.size, fill)
    ensures var f := Newlines(obj.size);
            ReadAll(f, ChunkRows(c, obj, 0, fill, id), c.offset, lenient) != Ok(DropLast(Lines(f)))
  {
    hide Lines;
    hide ReadAll;
    hide ChunkRows;
    hide AllVisible;
    hide ReadShard;
    hide ChunksAfter;
    var f, e := Newlines(obj.size), c.shardSize - fill;
    if e == 0 {
      FullShardReadsTwice(f, c, obj, fill, id, lenient);
    } else {
      var row := ShardRow(obj.key, obj.size, 0, e, id);
      ChunkRowsUnfold(c, obj, 0, fill, id);
      FirstShard(f, row, c.offset, lenient);
      LinesInside(f, 0, e);
      LinesOfNewlines(f);
      SomeLine(f);
      assert f[0..e] == f[..e];
      ReadAllCons(f, row, ChunkRows(c, obj, e + 1, 0, id + 1), c.offset, lenient);
      SecondShardStartsOver(f, c, obj, e, id + 1, lenient);
      TooManyLines(f, ChunkRows(c, obj, 0, fill, id), c.offset, lenient);
    }
  }

  /** Splitting reads all lines but the last from every text of short lines if and only if the guard holds. */
  lemma SplitReadsAllButLastIff(c: Config, obj: S3Object, fill: nat, id: nat, lenient: bool)
    requires ValidConfig(c) && IsSplit(c, obj) && c.offset > 1 && fill <= c.shardSize
    ensures ReadsAllButLast(c, obj, fill, id, lenient) <==> SoundSplit(c, obj.size, fill)
  {
    hide Lines;
    hide ReadAll;
    hide ChunkRows;
    hide ShortLines;
    if SoundSplit(c, obj.size, fill) {
      SoundSplitReadsAllButLast(c, obj, fill, id, lenient);
    } else {
      UnsoundSplitFails(c, obj, fill, id, lenient);
      NewlinesAreShort(obj.size, c.offset);
    }
  }

  // ---------- Inside a run of the allocator ----------

  lemma {:induction false} RowsIgnoreFileIndex(c: Config, obj: S3Object, file: nat, start: nat, fill: nat, id: nat)
    requires 0 < c.shardSize && fill <= c.shardSize && start < obj.size
    ensures RowsOfFile(c, obj, ChunkPieces(file, obj.size, c.shardSize, start, fill, id))
         == ChunkRows(c, obj, start, fill, id)
  {
    var a := ChunkPieces(file, obj.size, c.shardSize, start, fill, id);
    var b := ChunkPieces(0, obj.size, c.shardSize, start, fill, id);
    ChunkPiecesAreChunks(file, obj.size, c.shardSize, start, fill, id);
    ChunkPiecesAreChunks(0, obj.size, c.shardSize, start, fill, id);
    RowsOfFileAt(c, obj, a);
    RowsOfFileAt(c, obj, b);
    hide RowsOfFile;
    assert forall k | 0 <= k < |a| :: RowOf(c, obj, a[k]) == RowOf(c, obj, b[k]);
  }

  lemma {:induction false} AllocateExtends(c: Config, objs: seq<S3Object>, m: nat)
    requires ValidConfig(c) && m <= |objs|
    ensures Allocate(c, objs[..m]).pieces <= Allocate(c, objs).pieces
  {
    if m < |objs| {
      var front := objs[..|objs| - 1];
      AllocateExtends(c, front, m);
      assert front[..m] == objs[..m];
    } else {
      assert objs[..m] == objs;
    }
  }

  /** The registry rows a run records for its m-th file. */
  function FileRows(c: Config, objs: seq<S3Object>, m: nat): seq<ShardRow>
    requires ValidConfig(c) && m < |objs|
    requires |Allocate(c, objs[..m]).pieces| <= |Allocate(c, objs[..m + 1]).pieces| <= |Allocate(c, objs).pieces|
  {
    Registry(c, objs)[|Allocate(c, objs[..m]).pieces|..|Allocate(c, objs[..m + 1]).pieces|]
  }

  lemma AllocateSplitFile(c: Config, objs: seq<S3Object>, m: nat)
    requires ValidConfig(c) && m < |objs| && !Skipped(c, objs[m]) && IsSplit(c, objs[m])
    ensures var before, obj := Allocate(c, objs[..m]), objs[m];
            Allocate(c, objs[..m + 1]).pieces
            == before.pieces + ChunkPieces(m, obj.size, c.shardSize, 0, before.fill, before.shardId)
  {
    hide ChunkPieces;
    assert objs[..m + 1][..m] == objs[..m];
  }

  lemma RunRowsOfSplitFile(c: Config, objs: seq<S3Object>, m: nat)
    requires ValidConfig(c) && m < |objs| && !Skipped(c, objs[m]) && IsSplit(c, objs[m])
    ensures |Allocate(c, objs[..m]).pieces| <= |Allocate(c, objs[..m + 1]).pieces| <= |Allocate(c, objs).pieces|
    ensures var before := Allocate(c, objs[..m]);
            FileRows(c, objs, m) == ChunkRows(c, objs[m], 0, before.fill, before.shardId)
  {
    hide ChunkRows;
    hide ChunkPieces;
    hide RowsOfFile;
    hide RowOf;
    hide Allocate;
    hide Chunks;
    var before, obj := Allocate(c, objs[..m]), objs[m];
    var after, all := Allocate(c, objs[..m + 1]), Allocate(c, objs);
    var pieces := ChunkPieces(m, obj.size, c.shardSize, 0, before.fill, before.shardId);
    PieceFiles(c, objs);
    AllocateExtends(c, objs, m + 1);
    AllocateSplitFile(c, objs, m);
    ChunkPiecesAreChunks(m, obj.size, c.shardSize, 0, before.fill, before.shardId);
    RowsOfFileAt(c, obj, pieces);
    RowsIgnoreFileIndex(c, obj, m, 0, before.fill, before.shardId);
    var n, rows := |before.pieces|, RowsOfFile(c, obj, pieces);
    forall k | 0 <= k < |pieces| ensures FileRows(c, objs, m)[k] == rows[k] {
      assert all.pieces[n + k] == after.pieces[n + k] == pieces[k];
    }
    assert FileRows(c, objs, m) == rows;
  }

  /** In every run, the rows of a split file are its chunks, begun with the fill the run had reached; so they
      hand out every line but the last exactly once, for every text of short lines, if and only if the guard
      holds at that point of the run. */
  lemma RunReadsSplitFile(c: Config, objs: seq<S3Object>, m: nat, lenient: bool)
    requires ValidConfig(c) && m < |objs| && !Skipped(c, objs[m]) && IsSplit(c, objs[m]) && c.offset > 1
    ensures |Allocate(c, objs[..m]).pieces| <= |Allocate(c, objs[..m + 1]).pieces| <= |Allocate(c, objs).pieces|
    ensures SoundSplit(c, objs[m].size, Allocate(c, objs[..m]).fill)
            <==> forall f: seq<Byte> | |f| == objs[m].size && ShortLines(f, c.offset) ::
                   ReadAll(f, FileRows(c, objs, m), c.offset, lenient) == Ok(DropLast(Lines(f)))
  {
    hide Lines;
    hide ReadAll;
    hide ChunkRows;
    hide ShortLines;
    hide SoundSplit;
    hide Allocate;
    hide FileRows;
    var before := Allocate(c, objs[..m]);
    RunRowsOfSplitFile(c, objs, m);
    SplitReadsAllButLastIff(c, objs[m], before.fill, before.shardId, lenient);
  }

  lemma AllocateWholeFile(c: Config, objs: seq<S3Object>, m: nat) returns (id: nat)
    requires ValidConfig(c) && m < |objs| && !Skipped(c, objs[m]) && !IsSplit(c, objs[m])
    ensures Allocate(c, objs[..m + 1]).pieces
         == Allocate(c, objs[..m]).pieces + [Piece(m, true, 0, objs[m].size - 1, id)]
  {
    hide Allocate;
    AllocateAppend(c, objs, m);
    var before := Allocate(c, objs[..m]);
    var full := before.fill > 0 && before.fill + objs[m].size > c.maxShardSize;
    id := if full then before.shardId + 1 else before.shardId;
  }

  /** The rows of a run for one file carry its key and its size. */
  lemma FileRowsAreOfTheFile(c: Config, objs: seq<S3Object>, m: nat)
    requires ValidConfig(c) && m < |objs|
    ensures |Allocate(c, objs[..m]).pieces| <= |Allocate(c, objs[..m + 1]).pieces| <= |Allocate(c, objs).pieces|
    ensures forall row | row in FileRows(c, objs, m) :: row.key == objs[m].key && row.size == objs[m].size
    ensures Skipped(c, objs[m]) ==> FileRows(c, objs, m) == []
  {
    hide Allocate;
    hide ChunkPieces;
    hide Chunks;
    var before, after, all := Allocate(c, objs[..m]), Allocate(c, objs[..m + 1]), Allocate(c, objs);
    AllocateAppend(c, objs, m);
    AllocateExtends(c, objs, m + 1);
    PieceFiles(c, objs);
    if !Skipped(c, objs[m]) && IsSplit(c, objs[m]) {
      ChunkPiecesAreChunks(m, objs[m].size, c.shardSize, 0, before.fill, before.shardId);
    }
    var n, rows := |before.pieces|, FileRows(c, objs, m);
    forall k | 0 <= k < |rows| ensures rows[k].key == objs[m].key && rows[k].size == objs[m].size {
      assert all.pieces[n + k] == after.pieces[n + k];
    }
  }

  /** In every run, the row of a file that is not split reads that file whole, its last line included. */
  lemma RunReadsWholeFile(c: Config, objs: seq<S3Object>, m: nat, f: seq<Byte>, lenient: bool)
    requires ValidConfig(c) && m < |objs| && !Skipped(c, objs[m]) && !IsSplit(c, objs[m]) && |f| == objs[m].size
    ensures |Allocate(c, objs[..m]).pieces| <= |Allocate(c, objs[..m + 1]).pieces| <= |Allocate(c, objs).pieces|
    ensures |FileRows(c, objs, m)| == 1
    ensures ReadAll(f, FileRows(c, objs, m), c.offset, lenient) == Ok(Lines(f))
  {
    hide Allocate;
    hide Lines;
    hide ReadAll;
    var before, after, all := Allocate(c, objs[..m]), Allocate(c, objs[..m + 1]), Allocate(c, objs);
    var id := AllocateWholeFile(c, objs, m);
    AllocateExtends(c, objs, m + 1);
    PieceFiles(c, objs);
    var n, rows := |before.pieces|, FileRows(c, objs, m);
    assert all.pieces[n] == after.pieces[n];
    ReadAllCons(f, rows[0], [], c.offset, lenient);
    ReadNothing(f, c.offset, lenient);
    assert rows == [rows[0]] + [] && Lines(f) + [] == Lines(f);
  }

  // ---------- Runs that break the guard ----------

  /** A file that leaves the current shard with the given fill, and one to be split after it. */
  function TwoFiles(fill: nat, big: nat): seq<S3Object> {
    [S3Object("a", fill), S3Object("b", big)]
  }

  function TwoFilesConfig(shardSize: nat): Config {
    Config(shardSize, shardSize, 2, true, "")
  }

  lemma FillIsReached(shardSize: nat, fill: nat, big: nat)
    requires 0 < fill <= shardSize < big
    ensures var c, objs := TwoFilesConfig(shardSize), TwoFiles(fill, big);
            ValidConfig(c) && Allocate(c, objs[..1]).fill == fill && !Skipped(c, objs[1]) && IsSplit(c, objs[1])
  {
    var c, objs := TwoFilesConfig(shardSize), TwoFiles(fill, big);
    assert objs[..1] == [objs[0]] && [objs[0]][..0] == [];
    assert Allocate(c, []) == State([], 0, 0);
  }

  /**
   The allocator does break the guard: with an offset of 2, a file that fills the shard exactly, or to one byte
   less, before a larger one. The rows it records for the larger file then misread a file of bare newlines.
   */
  lemma GuardIsBrokenInARun(shardSize: nat, fill: nat, big: nat, lenient: bool)
    requires 1 < shardSize < big && (fill == shardSize || fill == shardSize - 1)
    ensures var c, objs := TwoFilesConfig(shardSize), TwoFiles(fill, big);
            && ValidConfig(c) && Allocate(c, objs[..1]).fill == fill && !SoundSplit(c, big, fill)
            && |Allocate(c, objs[..1]).pieces| <= |Allocate(c, objs[..2]).pieces| <= |Allocate(c, objs).pieces|
            && ReadAll(Newlines(big), FileRows(c, objs, 1), c.offset, lenient) != Ok(DropLast(Lines(Newlines(big))))
  {
    hide Lines;
    hide ReadAll;
    hide FileRows;
    hide ChunkRows;
    hide Allocate;
    var c, objs := TwoFilesConfig(shardSize), TwoFiles(fill, big);
    FillIsReached(shardSize, fill, big);
    RunRowsOfSplitFile(c, objs, 1);
    UnsoundSplitFails(c, objs[1], fill, Allocate(c, objs[..1]).shardId, lenient);
  }

  /** After an exactly full shard every file of that size is misread, not only one of bare newlines. */
  lemma EveryFileIsMisread(shardSize: nat, big: nat, f: seq<Byte>, lenient: bool)
    requires 0 < shardSize < big == |f|
    ensures var c, objs := TwoFilesConfig(shardSize), TwoFiles(shardSize, big);
            && ValidConfig(c)
              && |Allocate(c, objs[..1]).pieces| <= |Allocate(c, objs[..2]).pieces| <= |Allocate(c, objs).pieces|
            && ReadAll(f, FileRows(c, objs, 1), c.offset, lenient) != Ok(DropLast(Lines(f)))
  {
    hide Lines;
    hide ReadAll;
    hide FileRows;
    hide ChunkRows;
    hide Allocate;
    hide ReadShard;
    var c, objs := TwoFilesConfig(shardSize), TwoFiles(shardSize, big);
    FillIsReached(shardSize, shardSize, big);
    RunRowsOfSplitFile(c, objs, 1);
    FullShardReadsTwice(f, c, objs[1], shardSize, Allocate(c, objs[..1]).shardId, lenient);
  }
}
