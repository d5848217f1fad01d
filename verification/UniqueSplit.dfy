/** Splitting a text on a separator and numbering equal pieces so that every piece becomes unique. */
module UniqueSplit {
  import opened Common
  import opened ColumnAggregates

  // ---------- Splitting ----------

  /** The separator occurs in s at position k. */
  predicate OccursAt(s: string, sep: string, k: nat) {
    k + |sep| <= |s| && s[k..k + |sep|] == sep
  }

  /** The first occurrence at or after k. */
  function Find(s: string, sep: string, k: nat): (r: Option<nat>)
    ensures r.Some? ==> r.value >= k && OccursAt(s, sep, r.value) && forall j | k <= j < r.value :: !OccursAt(s, sep, j)
    ensures r.None? ==> forall j | k <= j :: !OccursAt(s, sep, j)
    decreases |s| - k
  {
    if k + |sep| > |s| then None
    else if OccursAt(s, sep, k) then Some(k)
    else Find(s, sep, k + 1)
  }

  function Split(s: string, sep: string): (pieces: seq<string>)
    requires sep != ""
    ensures pieces != []
    decreases |s|
  {
    var k := Find(s, sep, 0);
    if k.None? then [s] else [s[..k.value]] + Split(s[k.value + |sep|..], sep)
  }

  function Glue(pieces: seq<string>, sep: string): string
    requires pieces != []
  {
    if |pieces| == 1 then pieces[0] else pieces[0] + sep + Glue(pieces[1..], sep)
  }

  /** Splitting loses nothing, no piece holds the separator, and each cut is at the first occurrence. */
  lemma {:induction false} SplitInverts(s: string, sep: string)
    requires sep != ""
    ensures Glue(Split(s, sep), sep) == s
    ensures forall p, j: nat | p in Split(s, sep) :: !OccursAt(p, sep, j)
    ensures forall k, j: nat | 0 <= k < |Split(s, sep)| - 1 && j < |Split(s, sep)[k]| ::
              !OccursAt(Split(s, sep)[k] + sep, sep, j)
    decreases |s|
  {
    hide Find;
    var k := Find(s, sep, 0);
    if k.Some? {
      var head, rest := s[..k.value], s[k.value + |sep|..];
      SplitInverts(rest, sep);
      assert s == head + sep + rest;
      assert Split(s, sep)[1..] == Split(rest, sep);
      forall j: nat | j < |head| ensures !OccursAt(head + sep, sep, j) {
        FirstOccurrence(s, sep, k.value, j);
      }
      forall j: nat ensures !OccursAt(head, sep, j) {
        if j + |sep| <= |head| {
          assert head[j..j + |sep|] == s[j..j + |sep|];
          assert !OccursAt(s, sep, j);
        }
      }
    }
  }

  lemma FirstOccurrence(s: string, sep: string, k: nat, j: nat)
    requires OccursAt(s, sep, k) && j < k && !OccursAt(s, sep, j)
    ensures !OccursAt(s[..k] + sep, sep, j)
  {
    var t := s[..k] + sep;
    assert t == s[..k + |sep|];
    if j + |sep| <= |t| {
      assert t[j..j + |sep|] == s[j..j + |sep|];
    }
  }

  // ---------- Numbering ----------

  function Tagged(v: string, i: nat): string {
    v + "-" + Digits(i)
  }

  /** Everything before the last dash. */
  function Strip(s: string): string {
    if s == "" then ""
    else if s[|s| - 1] == '-' then s[..|s| - 1]
    else Strip(s[..|s| - 1])
  }

  lemma {:induction false} StripSuffix(v: string, digits: string)
    requires '-' !in digits
    ensures Strip(v + "-" + digits) == v
    decreases |digits|
  {
    var s := v + "-" + digits;
    if digits == "" {
      assert s[..|s| - 1] == v;
    } else {
      var front := digits[..|digits| - 1];
      assert s[..|s| - 1] == v + "-" + front;
      assert digits[|digits| - 1] in digits;
      StripSuffix(v, front);
    }
  }

  lemma {:induction false} DigitsHaveNoDash(n: nat)
    ensures '-' !in Digits(n)
  {
    hide DigitChar;
    if n >= 10 {
      DigitsHaveNoDash(n / 10);
    }
  }

  /** Stripping undoes the numbering. */
  lemma StripTagged(v: string, i: nat)
    ensures Strip(Tagged(v, i)) == v
  {
    hide Strip;
    DigitsHaveNoDash(i);
    StripSuffix(v, Digits(i));
  }

  lemma TaggedInjective(v: string, i: nat, w: string, j: nat)
    requires Tagged(v, i) == Tagged(w, j)
    ensures v == w && i == j
  {
    hide Strip;
    hide Digits;
    StripTagged(v, i);
    StripTagged(w, j);
    assert Tagged(v, i)[|v| + 1..] == Digits(i) && Tagged(w, j)[|w| + 1..] == Digits(j);
    DigitsInjective(i, j);
  }

  // ---------- The result for a given order of the distinct pieces ----------

  function Copies(v: string, n: nat): seq<string> {
    seq(n, i requires 0 <= i < n => Tagged(v, i))
  }

  /** The numbered pieces, group by group. */
  function Numbered(order: seq<string>, pieces: seq<string>): seq<string> {
    if order == [] then []
    else
      var v := order[|order| - 1];
      Numbered(order[..|order| - 1], pieces) + Copies(v, multiset(pieces)[v])
  }

  /** Every numbered piece comes from a group of the order. */
  lemma {:induction false} NumberedFrom(order: seq<string>, pieces: seq<string>, x: string)
    requires x in Numbered(order, pieces)
    ensures Strip(x) in order
  {
    hide Strip;
    hide Tagged;
    var front, v := order[..|order| - 1], order[|order| - 1];
    if x in Numbered(front, pieces) {
      NumberedFrom(front, pieces, x);
    } else {
      var i :| 0 <= i < multiset(pieces)[v] && x == Tagged(v, i);
      StripTagged(v, i);
    }
  }

  /** No two results are equal. */
  lemma {:induction false} NumberedAreDistinct(order: seq<string>, pieces: seq<string>)
    requires NoDuplicates(order)
    ensures NoDuplicates(Numbered(order, pieces))
  {
    hide Strip;
    hide Tagged;
    if order != [] {
      var front, v := order[..|order| - 1], order[|order| - 1];
      NumberedAreDistinct(front, pieces);
      var a, b := Numbered(front, pieces), Copies(v, multiset(pieces)[v]);
      CopiesAreDistinct(v, multiset(pieces)[v]);
      forall x, y | x in a && y in b ensures x != y {
        NumberedFrom(front, pieces, x);
        var i :| 0 <= i < |b| && y == b[i];
        StripTagged(v, i);
      }
      ConcatDistinct(a, b);
    }
  }

  lemma CopiesAreDistinct(v: string, n: nat)
    ensures NoDuplicates(Copies(v, n))
  {
    hide Tagged;
    forall i: nat, j: nat | i < j < n ensures Copies(v, n)[i] != Copies(v, n)[j] {
      if Tagged(v, i) == Tagged(v, j) {
        TaggedInjective(v, i, v, j);
      }
    }
  }

  lemma ConcatDistinct(a: seq<string>, b: seq<string>)
    requires NoDuplicates(a) && NoDuplicates(b) && forall x, y | x in a && y in b :: x != y
    ensures NoDuplicates(a + b)
  {
    forall i, j | 0 <= i < j < |a + b| ensures (a + b)[i] != (a + b)[j] {
      if i < |a| <= j {
        assert a[i] in a && b[j - |a|] in b;
      }
    }
  }

  /** x is the i-th copy of piece v. */
  ghost predicate IsCopy(order: seq<string>, pieces: seq<string>, x: string, v: string, i: nat) {
    v in order && i < multiset(pieces)[v] && x == v + "-" + Digits(i)
  }

  /** A piece that occurs n times yields exactly the numbers 0 to n - 1, and nothing else is handed out. */
  lemma {:induction false} NumbersFromZero(order: seq<string>, pieces: seq<string>, x: string)
    ensures x in Numbered(order, pieces) <==> exists v, i: nat :: IsCopy(order, pieces, x, v, i)
  {
    hide Digits;
    if order != [] {
      var front, last := order[..|order| - 1], order[|order| - 1];
      assert order == front + [last];
      NumbersFromZero(front, pieces, x);
      if v, i: nat :| IsCopy(front, pieces, x, v, i) {
        assert IsCopy(order, pieces, x, v, i);
      }
      var n := multiset(pieces)[last];
      if x in Copies(last, n) {
        var i := CopyNumber(last, n, x);
        assert IsCopy(order, pieces, x, last, i);
      }
      if v, i: nat :| IsCopy(order, pieces, x, v, i) {
        if v == last {
          CopyIsThere(last, n, i);
        } else {
          assert IsCopy(front, pieces, x, v, i);
        }
      }
    }
  }

  lemma CopyIsThere(v: string, n: nat, i: nat)
    requires i < n
    ensures v + "-" + Digits(i) in Copies(v, n)
  {
    hide Digits;
    assert Copies(v, n)[i] == v + "-" + Digits(i);
  }

  lemma CopyNumber(v: string, n: nat, x: string) returns (i: nat)
    requires x in Copies(v, n)
    ensures i < n && x == v + "-" + Digits(i)
  {
    hide Digits;
    i :| i < n && Copies(v, n)[i] == x;
  }

  function StripAll(s: seq<string>): seq<string> {
    seq(|s|, i requires 0 <= i < |s| => Strip(s[i]))
  }

  lemma StripCopies(v: string, n: nat)
    ensures StripAll(Copies(v, n)) == seq(n, _ => v)
  {
    hide Strip;
    hide Tagged;
    forall i | 0 <= i < n ensures Strip(Tagged(v, i)) == v {
      StripTagged(v, i);
    }
  }

  lemma {:induction false} Repeated(v: string, n: nat, x: string)
    ensures multiset(seq(n, _ => v))[x] == if x == v then n else 0
  {
    if n > 0 {
      Repeated(v, n - 1, x);
      assert seq(n, _ => v) == seq(n - 1, _ => v) + [v];
    }
  }

  lemma {:induction false} StrippedCount(order: seq<string>, pieces: seq<string>, x: string)
    requires NoDuplicates(order)
    ensures multiset(StripAll(Numbered(order, pieces)))[x] == if x in order then multiset(pieces)[x] else 0
  {
    hide Strip;
    if order != [] {
      var front, v := order[..|order| - 1], order[|order| - 1];
      var a, b := Numbered(front, pieces), Copies(v, multiset(pieces)[v]);
      StrippedCount(front, pieces, x);
      assert order == front + [v];
      assert StripAll(a + b) == StripAll(a) + StripAll(b);
      StripCopies(v, multiset(pieces)[v]);
      Repeated(v, multiset(pieces)[v], x);
    }
  }

  /** Stripping the numbers gives the pieces back, each as often as it was there. */
  lemma StrippedIsSplit(order: seq<string>, pieces: seq<string>)
    requires IsWalk(order, set p | p in pieces)
    ensures multiset(StripAll(Numbered(order, pieces))) == multiset(pieces)
  {
    hide StripAll;
    hide Numbered;
    forall x ensures multiset(StripAll(Numbered(order, pieces)))[x] == multiset(pieces)[x] {
      StrippedCount(order, pieces, x);
    }
  }

  // ---------- The function as written ----------

  method GroupPieces(pieces: seq<string>) returns (groups: map<string, seq<string>>)
    ensures groups.Keys == set p | p in pieces
    ensures forall v | v in groups :: groups[v] == seq(multiset(pieces)[v], _ => v)
  {
    groups := map[];
    for n := 0 to |pieces|
      invariant groups.Keys == set p | p in pieces[..n]
      invariant forall v | v in groups :: groups[v] == seq(multiset(pieces[..n])[v], _ => v)
    {
      var v := pieces[n];
      assert pieces[..n + 1] == pieces[..n] + [v];
      var group := if v in groups then groups[v] else [];
      groups := groups[v := group + [v]];
    }
    assert pieces[..|pieces|] == pieces;
  }

  method NumberGroup(v: string, group: seq<string>) returns (r: seq<string>)
    requires group == seq(|group|, _ => v)
    ensures r == Copies(v, |group|)
  {
    hide Tagged;
    r := [];
    for i := 0 to |group|
      invariant r == Copies(v, i)
    {
      r := r + [Tagged(group[i], i)];
    }
  }

  /** The distinct pieces are walked in whatever order the map gives them. */
  method UniqueSplitOn(inputValue: string, argument: string, order: seq<string>) returns (r: Option<seq<string>>)
    requires inputValue != "" && argument != "" ==> IsWalk(order, set p | p in Split(inputValue, argument))
    ensures r.None? <==> inputValue == "" || argument == ""
    ensures r.Some? ==> r.value == Numbered(order, Split(inputValue, argument))
    ensures r.Some? ==> NoDuplicates(r.value) && multiset(StripAll(r.value)) == multiset(Split(inputValue, argument))
  {
    hide Split;
    hide Strip;
    hide Copies;
    if inputValue == "" || argument == "" {
      return None;
    }
    var pieces := Split(inputValue, argument);
    var groups := GroupPieces(pieces);
    var out := [];
    for n := 0 to |order|
      invariant out == Numbered(order[..n], pieces)
    {
      assert order[n] in order && order[..n + 1][..n] == order[..n];
      var more := NumberGroup(order[n], groups[order[n]]);
      out := out + more;
    }
    assert order[..|order|] == order;
    NumberedAreDistinct(order, pieces);
    StrippedIsSplit(order, pieces);
    return Some(out);
  }
}
