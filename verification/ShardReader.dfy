/**
 Reading one shard of a text file, line by line.

 A reader downloads its own byte range and knows nothing of the other shards. When its stored
 start is positive it looks at the first offset bytes and resumes after the last newline in them;
 when its range ends inside the file it drops the last line it sees.
 */
module ShardReader {
  import opened ShardAllocator

  type Byte = x: int | 0 <= x < 256
  type Line = seq<Byte>

  const LF: Byte := 10
  const CR: Byte := 13

  datatype ReadError = BadRange | NoShardBytes | NoRecordBoundary
  datatype Result<+T> = Ok(value: T) | Err(error: ReadError)

  // ---------- Lines ----------

  /** One past the end of the first line; the newline belongs to the line it ends. */
  function LineEnd(s: seq<Byte>): (r: nat)
    requires s != []
    ensures 0 < r <= |s|
    ensures forall k | 0 <= k < r - 1 :: s[k] != LF
    ensures r == |s| || s[r - 1] == LF
  {
    if s[0] == LF || |s| == 1 then 1 else 1 + LineEnd(s[1..])
  }

  function DropCR(s: seq<Byte>): Line {
    if s != [] && s[|s| - 1] == CR then s[..|s| - 1] else s
  }

  /** The text of a raw line: without its newline and without a carriage return before it. */
  function Text(raw: seq<Byte>): Line {
    DropCR(if raw != [] && raw[|raw| - 1] == LF then raw[..|raw| - 1] else raw)
  }

  /** The lines of a text; the last one need not end in a newline. */
  function Lines(s: seq<Byte>): seq<Line> {
    if s == [] then [] else [Text(s[..LineEnd(s)])] + Lines(s[LineEnd(s)..])
  }

  /** Where the line that holds byte pos starts. */
  function LineStart(s: seq<Byte>, pos: nat): (r: nat)
    requires pos < |s|
    ensures r <= pos
    ensures r == 0 || s[r - 1] == LF
    ensures forall k | r <= k < pos :: s[k] != LF
  {
    if pos == 0 || s[pos - 1] == LF then pos else LineStart(s, pos - 1)
  }

  lemma LineEndIsUnique(s: seq<Byte>, r: nat)
    requires EndsFirstLine(s, r)
    ensures LineEnd(s) == r
  {
    var e := LineEnd(s);
    assert e == |s| || s[e - 1] == LF;
    assert r == |s| || s[r - 1] == LF;
  }

  lemma LineStartIsMonotone(s: seq<Byte>, a: nat, b: nat)
    requires a <= b < |s|
    ensures LineStart(s, a) <= LineStart(s, b)
  {
    var ra, rb := LineStart(s, a), LineStart(s, b);
    assert ra == 0 || s[ra - 1] == LF;
  }

  ghost predicate EndsFirstLine(s: seq<Byte>, r: nat) {
    0 < r <= |s| && (forall k | 0 <= k < r - 1 :: s[k] != LF) && (r == |s| || s[r - 1] == LF)
  }

  lemma LinesCons(s: seq<Byte>, k: nat)
    requires EndsFirstLine(s, k)
    ensures Lines(s) == [Text(s[..k])] + Lines(s[k..])
  {
    hide Text;
    LineEndIsUnique(s, k);
  }

  lemma PrefixLine(s: seq<Byte>, r: nat, k: nat)
    requires 0 < r <= |s| && s[r - 1] == LF && EndsFirstLine(s, k)
    ensures k <= r && EndsFirstLine(s[..r], k)
  {}

  lemma NoLines()
    ensures Lines([]) == []
  {}

  /** A text cut after a newline reads as its two halves. */
  lemma {:induction false} LinesSplit(s: seq<Byte>, r: nat)
    requires r <= |s| && (r == 0 || s[r - 1] == LF)
    ensures Lines(s) == Lines(s[..r]) + Lines(s[r..])
    decreases |s|
  {
    hide Text;
    hide LineEnd;
    hide Lines;
    if r == 0 {
      NoLines();
      assert s[..0] == [] && s[0..] == s;
    } else {
      var k := LineEnd(s);
      var front, rest := s[..r], s[k..];
      PrefixLine(s, r, k);
      LinesCons(s, k);
      LinesCons(front, k);
      LinesSplit(rest, r - k);
      assert front[..k] == s[..k] && front[k..] == rest[..r - k] && rest[r - k..] == s[r..];
    }
  }

  lemma SingleLine(s: seq<Byte>)
    requires s != [] && forall k | 0 <= k < |s| - 1 :: s[k] != LF
    ensures Lines(s) == [Text(s)]
  {
    LineEndIsUnique(s, |s|);
    assert s[..|s|] == s && s[|s|..] == [];
  }

  function DropLast(lines: seq<Line>): seq<Line> {
    if lines == [] then [] else lines[..|lines| - 1]
  }

  /** Dropping the last line of bytes from..pos leaves the lines before the one that holds pos. */
  lemma LinesUpTo(f: seq<Byte>, from: nat, pos: nat)
    requires pos < |f| && from <= LineStart(f, pos)
    ensures DropLast(Lines(f[from..pos + 1])) == Lines(f[from..LineStart(f, pos)])
  {
    hide Lines;
    hide LineStart;
    var r := LineStart(f, pos);
    var s, tail := f[from..pos + 1], f[r..pos + 1];
    assert s[..r - from] == f[from..r] && s[r - from..] == tail;
    assert r > from ==> s[r - from - 1] == LF;
    LinesSplit(s, r - from);
    SingleLine(tail);
  }

  // ---------- One shard ----------

  /** The last position of c in s, or -1. */
  function LastIndex(s: seq<Byte>, c: Byte): (r: int)
    ensures -1 <= r < |s|
    ensures r >= 0 ==> s[r] == c
    ensures forall k | r < k < |s| :: s[k] != c
  {
    if s == [] then -1 else if s[|s| - 1] == c then |s| - 1 else LastIndex(s[..|s| - 1], c)
  }

  method LastIndexByte(s: seq<Byte>, c: Byte) returns (r: int)
    ensures r == LastIndex(s, c)
  {
    var i := |s| - 1;
    while i >= 0
      invariant -1 <= i < |s|
      invariant forall k | i < k < |s| :: s[k] != c
    {
      if s[i] == c {
        return i;
      }
      i := i - 1;
    }
    return -1;
  }

  /** The bytes of a row. A server refuses an invalid range, or ignores it and sends the whole file: section 14.2 of
      RFC 9110 lets it do either. */
  function Download(f: seq<Byte>, row: ShardRow, lenient: bool): Result<seq<Byte>> {
    if row.end <= 0 then Ok(f)
    else if 0 <= row.start <= row.end < |f| then Ok(f[row.start..row.end + 1])
    else if lenient then Ok(f)
    else Err(BadRange)
  }

  /** The last newline before the final byte of the offset window, or -1. */
  function Resume(window: seq<Byte>): int
    requires window != []
  {
    LastIndex(if window[|window| - 1] == LF then window[..|window| - 1] else window, LF)
  }

  predicate DropsLastRow(row: ShardRow) {
    row.end > 0 && row.end < row.size
  }

  /** The bytes left to scan once the reader is positioned. */
  function Position(bytes: seq<Byte>, row: ShardRow, offset: nat): Result<seq<Byte>> {
    if row.start > 0 && offset > 0 then
      var n := if offset < |bytes| then offset else |bytes|;
      if n == 0 then Err(NoShardBytes)
      else
        var l := Resume(bytes[..n]);
        if l < 0 then Err(NoRecordBoundary) else Ok(bytes[l + 1..])
    else Ok(bytes)
  }

  function ReadShard(f: seq<Byte>, row: ShardRow, offset: nat, lenient: bool): Result<seq<Line>> {
    match Download(f, row, lenient)
    case Err(e) => Err(e)
    case Ok(bytes) =>
      match Position(bytes, row, offset)
      case Err(e) => Err(e)
      case Ok(body) => Ok(if DropsLastRow(row) then DropLast(Lines(body)) else Lines(body))
  }

  /** The shards of one file, read independently and laid end to end. */
  function ReadAll(f: seq<Byte>, rows: seq<ShardRow>, offset: nat, lenient: bool): Result<seq<Line>> {
    if rows == [] then Ok([])
    else
      match ReadShard(f, rows[0], offset, lenient)
      case Err(e) => Err(e)
      case Ok(first) =>
        match ReadAll(f, rows[1..], offset, lenient)
        case Err(e) => Err(e)
        case Ok(rest) => Ok(first + rest)
  }

  /** The reader as it runs: position, then scan one line ahead when the last row is to be dropped. */
  method ReadFixedWidth(bytes: seq<Byte>, row: ShardRow, offset: nat) returns (r: Result<seq<Line>>)
    ensures r == match Position(bytes, row, offset)
                 case Err(e) => Err(e)
                 case Ok(body) => Ok(if DropsLastRow(row) then DropLast(Lines(body)) else Lines(body))
  {
    hide LastIndex;
    hide Lines;
    hide DropLast;
    var rest := bytes;
    if row.start > 0 && offset > 0 {
      var n := if offset < |bytes| then offset else |bytes|;
      if n == 0 {
        return Err(NoShardBytes);
      }
      var buf := bytes[..n];
      if buf[n - 1] == LF {
        buf := buf[..n - 1];
      }
      var l := LastIndexByte(buf, LF);
      if l < 0 {
        return Err(NoRecordBoundary);
      }
      rest := bytes[l + 1..];
    }
    var out := ScanLines(rest, DropsLastRow(row));
    return Ok(out);
  }

  lemma LinesStep(s: seq<Byte>)
    requires s != []
    ensures Lines(s) == [Text(s[..LineEnd(s)])] + Lines(s[LineEnd(s)..])
  {}

  lemma DropAppended(lines: seq<Line>, last: Line)
    ensures DropLast(lines + [last]) == lines
  {
    assert (lines + [last])[..|lines|] == lines;
  }

  method ScanLines(body: seq<Byte>, dropLastRow: bool) returns (out: seq<Line>)
    ensures out == if dropLastRow then DropLast(Lines(body)) else Lines(body)
  {
    hide Lines;
    hide DropLast;
    hide LineEnd;
    hide Text;
    var rest := body;
    var line, nextLine: Line := [], [];
    out := [];
    NoLines();
    if dropLastRow {
      if rest == [] {
        NothingDropped();
        return;
      }
      LinesStep(rest);
      line, rest := Text(rest[..LineEnd(rest)]), rest[LineEnd(rest)..];
    }
    while rest != []
      invariant dropLastRow ==> Lines(body) == out + [line] + Lines(rest)
      invariant !dropLastRow ==> Lines(body) == out + Lines(rest)
      decreases |rest|
    {
      LinesStep(rest);
      var scanned := Text(rest[..LineEnd(rest)]);
      rest := rest[LineEnd(rest)..];
      if dropLastRow {
        nextLine := scanned;
      } else {
        line := scanned;
      }
      out := out + [line];
      line := nextLine;
    }
    assert out + [line] + [] == out + [line] && out + [] == out;
    DropAppended(out, line);
  }

  lemma NothingDropped()
    ensures DropLast([]) == []
  {}
}
