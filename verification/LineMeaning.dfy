/** What the lines of a text are, byte by byte. */
module LineMeaning {
  import opened ShardReader

  /** The text cut after every newline. */
  function RawLines(s: seq<Byte>): seq<seq<Byte>> {
    if s == [] then [] else [s[..LineEnd(s)]] + RawLines(s[LineEnd(s)..])
  }

  function Flat(parts: seq<seq<Byte>>): seq<Byte> {
    if parts == [] then [] else parts[0] + Flat(parts[1..])
  }

  /** A line and what ends it in the text: a newline or nothing, with a carriage return before it or not; one carriage
      return at the end belongs to the ending, never to the line. */
  ghost predicate IsLineOf(line: Line, raw: seq<Byte>) {
    && 10 !in line
    && (raw == line + [13, 10] || raw == line + [13]
        || ((raw == line + [10] || raw == line) && (line == [] || line[|line| - 1] != 13)))
  }

  lemma TextIsLine(raw: seq<Byte>)
    requires raw != [] && forall k | 0 <= k < |raw| - 1 :: raw[k] != 10
    ensures IsLineOf(Text(raw), raw)
  {
    var n := |raw|;
    var body := if raw[n - 1] == 10 then raw[..n - 1] else raw;
    var line := Text(raw);
    if body != [] && body[|body| - 1] == 13 {
      assert body == line + [13];
      assert raw[n - 1] == 10 ==> raw == line + [13, 10];
    } else {
      assert line == body;
      assert raw[n - 1] == 10 ==> raw == line + [10];
    }
  }

  /** Each line is its piece without the ending, and all pieces but the last end in a newline. */
  ghost predicate AreLinesOf(lines: seq<Line>, raws: seq<seq<Byte>>) {
    && |lines| == |raws|
    && (forall i | 0 <= i < |raws| :: raws[i] != [] && IsLineOf(lines[i], raws[i]))
    && (forall i | 0 <= i < |raws| - 1 :: raws[i] != [] && raws[i][|raws[i]| - 1] == 10)
  }

  lemma LinesOfCons(line: Line, raw: seq<Byte>, lines: seq<Line>, raws: seq<seq<Byte>>)
    requires raw != [] && IsLineOf(line, raw) && AreLinesOf(lines, raws) && (raws == [] || raw[|raw| - 1] == 10)
    ensures AreLinesOf([line] + lines, [raw] + raws)
  {
    hide IsLineOf;
  }

  lemma RawStep(s: seq<Byte>)
    requires s != []
    ensures RawLines(s) == [s[..LineEnd(s)]] + RawLines(s[LineEnd(s)..])
    ensures Flat(RawLines(s)) == s[..LineEnd(s)] + Flat(RawLines(s[LineEnd(s)..]))
  {
    hide LineEnd;
    assert RawLines(s)[1..] == RawLines(s[LineEnd(s)..]);
  }

  lemma NoRaws(s: seq<Byte>)
    ensures s == [] ==> RawLines(s) == [] && Flat(RawLines(s)) == []
    ensures s != [] ==> RawLines(s) != []
  {}

  /**
   The lines of every text: cut after each newline, the pieces make up the text again, all but the last end in a
   newline, and each line is its piece without the ending.
   */
  lemma {:induction false} LinesMeaning(s: seq<Byte>)
    ensures Flat(RawLines(s)) == s && AreLinesOf(Lines(s), RawLines(s))
    decreases |s|
  {
    hide Text;
    hide LineEnd;
    hide IsLineOf;
    hide RawLines;
    hide Flat;
    hide Lines;
    NoRaws(s);
    if s == [] {
      NoLines();
    } else {
      hide AreLinesOf;
      var k := LineEnd(s);
      var head, rest := s[..k], s[k..];
      LinesMeaning(rest);
      RawStep(s);
      LinesStep(s);
      TextIsLine(head);
      NoRaws(rest);
      assert s == head + rest;
      LinesOfCons(Text(head), head, Lines(rest), RawLines(rest));
    }
  }

  /** The lines with a newline between them. */
  function Joined(lines: seq<Line>): seq<Byte> {
    if lines == [] then []
    else if |lines| == 1 then lines[0]
    else lines[0] + [10] + Joined(lines[1..])
  }

  /** The final newline of a text, if it has one. */
  function Ending(s: seq<Byte>): seq<Byte> {
    if s != [] && s[|s| - 1] == 10 then [10] else []
  }

  lemma EndingOfTail(s: seq<Byte>, k: nat)
    requires k < |s|
    ensures Ending(s) == Ending(s[k..])
  {}

  /** A text without carriage returns is its lines joined by newlines, and its final newline if it has one. */
  lemma {:induction false} JoinedIsText(s: seq<Byte>)
    requires 13 !in s
    ensures s == Joined(Lines(s)) + Ending(s)
    decreases |s|
  {
    hide *;
    if s == [] {
      NoLines();
      JoinedNothing();
    } else {
      var k := LineEnd(s);
      var head, rest := s[..k], s[k..];
      assert s == head + rest;
      JoinedIsText(rest);
      PlainText(head);
      LinesStep(s);
      if rest == [] {
        NoLines();
        JoinedOne(Text(head));
        assert [Text(head)] + [] == [Text(head)] && head == s;
      } else {
        EndingOfTail(s, k);
        NewlineInside(s);
        SomeLines(rest);
        JoinedCons(Text(head), Lines(rest));
        Assemble(head, rest, Text(head), Joined(Lines(rest)), Ending(rest));
      }
    }
  }

  lemma NewlineInside(s: seq<Byte>)
    requires s != [] && LineEnd(s) < |s|
    ensures Ending(s[..LineEnd(s)]) == [10]
  {
    hide LineEnd;
  }

  lemma SomeLines(s: seq<Byte>)
    requires s != []
    ensures Lines(s) != []
  {}

  lemma Assemble(head: seq<Byte>, rest: seq<Byte>, line: Line, joined: seq<Byte>, ending: seq<Byte>)
    requires head == line + [10] && rest == joined + ending
    ensures head + rest == line + [10] + joined + ending
  {}

  lemma JoinedNothing()
    ensures Joined([]) == [] && Ending([]) == []
  {}

  lemma JoinedOne(line: Line)
    ensures Joined([line]) == line
  {}

  lemma JoinedCons(line: Line, lines: seq<Line>)
    requires lines != []
    ensures Joined([line] + lines) == line + [10] + Joined(lines)
  {
    assert ([line] + lines)[1..] == lines;
  }

  lemma PlainText(raw: seq<Byte>)
    requires raw != [] && 13 !in raw
    ensures raw == Text(raw) + Ending(raw)
  {
    var n := |raw|;
    assert raw == raw[..n - 1] + [raw[n - 1]];
    assert raw[n - 1] in raw && forall k | 0 <= k < n :: raw[k] in raw;
  }
}
