/** Finite sums over the reals: over an index range and over a sequence. */
module Sums {
  import opened Common

  /** f(0) + ... + f(n-1) */
  function Sum(n: nat, f: nat -> real): real {
    if n == 0 then 0.0 else Sum(n - 1, f) + f(n - 1)
  }

  /** The sum of f over the elements of s, with multiplicity. */
  function Total<T>(s: seq<T>, f: T -> real): real {
    if s == [] then 0.0 else Total(s[..|s| - 1], f) + f(s[|s| - 1])
  }

  lemma {:induction false} SumLinear(n: nat, a: real, f: nat -> real, b: real, g: nat -> real, h: nat -> real)
    requires forall i: nat | i < n :: h(i) == a * f(i) + b * g(i)
    ensures Sum(n, h) == a * Sum(n, f) + b * Sum(n, g)
  {
    if n > 0 {
      SumLinear(n - 1, a, f, b, g, h);
      assert h(n - 1) == a * f(n - 1) + b * g(n - 1);
    }
  }

  lemma SumCongruent(n: nat, f: nat -> real, g: nat -> real)
    requires forall i: nat | i < n :: f(i) == g(i)
    ensures Sum(n, f) == Sum(n, g)
  {
    SumLinear(n, 1.0, f, 0.0, f, g);
  }

  /** Two summands that differ by d at x and agree elsewhere have sums that differ by d. */
  lemma {:induction false} SumDelta(n: nat, f: nat -> real, g: nat -> real, x: nat, d: real)
    requires x < n
    requires g(x) == f(x) + d
    requires forall i: nat | i < n && i != x :: g(i) == f(i)
    ensures Sum(n, g) == Sum(n, f) + d
  {
    if x == n - 1 {
      SumCongruent(n - 1, f, g);
    } else {
      SumDelta(n - 1, f, g, x, d);
    }
  }

  lemma Distribute(k: real, a: real, b: real)
    ensures k * (a + b) == k * a + k * b
  {}

  /** A multiple of g added to every summand, and d more at x. */
  lemma {:induction false} SumShift(n: nat, f: nat -> real, f': nat -> real, g: nat -> real, k: real, x: nat, d: real)
    requires forall i: nat | i < n :: f'(i) == f(i) + k * g(i) + (if i == x then d else 0.0)
    ensures Sum(n, f') == Sum(n, f) + k * Sum(n, g) + (if x < n then d else 0.0)
  {
    if n > 0 {
      var m := n - 1;
      SumShift(m, f, f', g, k, x, d);
      Distribute(k, Sum(m, g), g(m));
      assert f'(m) == f(m) + k * g(m) + (if m == x then d else 0.0);
    }
  }

  lemma SumShiftTo(n: nat, f: nat -> real, f': nat -> real, g: nat -> real, k: real, t: real, x: nat, d: real)
    requires x < n && Sum(n, g) == t
    requires forall i: nat | i < n :: f'(i) == f(i) + k * g(i) + (if i == x then d else 0.0)
    ensures Sum(n, f') == Sum(n, f) + k * t + d
  {
    SumShift(n, f, f', g, k, x, d);
  }

  lemma {:induction false} SumZero(n: nat, f: nat -> real)
    requires forall i: nat | i < n :: f(i) == 0.0
    ensures Sum(n, f) == 0.0
  {
    SumLinear(n, 0.0, f, 0.0, f, f);
  }

  lemma TotalAppend<T>(s: seq<T>, x: T, f: T -> real)
    ensures Total(s + [x], f) == Total(s, f) + f(x)
  {
    assert (s + [x])[..|s|] == s;
  }

  lemma {:induction false} TotalLinear<T>(s: seq<T>, a: real, f: T -> real, b: real, g: T -> real, h: T -> real)
    requires forall x | x in s :: h(x) == a * f(x) + b * g(x)
    ensures Total(s, h) == a * Total(s, f) + b * Total(s, g)
  {
    if s != [] {
      TotalLinear(s[..|s| - 1], a, f, b, g, h);
      var x := s[|s| - 1];
      assert x in s;
      assert h(x) == a * f(x) + b * g(x);
    }
  }

  lemma TotalCongruent<T>(s: seq<T>, f: T -> real, g: T -> real)
    requires forall x | x in s :: f(x) == g(x)
    ensures Total(s, f) == Total(s, g)
  {
    TotalLinear(s, 1.0, f, 0.0, f, g);
  }

  lemma {:induction false} TotalShift<T>(s: seq<T>, f: T -> real, f': T -> real, g: T -> real, h: T -> real)
    requires forall x | x in s :: f'(x) == f(x) + g(x) - h(x)
    ensures Total(s, f') == Total(s, f) + Total(s, g) - Total(s, h)
  {
    if s != [] {
      TotalShift(s[..|s| - 1], f, f', g, h);
      assert s[|s| - 1] in s;
    }
  }

  lemma {:induction false} TotalMonotone<T>(s: seq<T>, f: T -> real, g: T -> real)
    requires forall x | x in s :: f(x) <= g(x)
    ensures Total(s, f) <= Total(s, g)
  {
    if s != [] {
      TotalMonotone(s[..|s| - 1], f, g);
      assert s[|s| - 1] in s;
    }
  }

  /** Two summands that differ by d at the one occurrence of x and agree elsewhere. */
  lemma {:induction false} TotalDelta<T>(s: seq<T>, f: T -> real, g: T -> real, x: T, d: real)
    requires x in s && NoDuplicates(s)
    requires g(x) == f(x) + d
    requires forall y | y in s && y != x :: g(y) == f(y)
    ensures Total(s, g) == Total(s, f) + d
  {
    var m := |s| - 1;
    var k :| 0 <= k <= m && s[k] == x;
    var front := s[..m];
    assert forall y | y in front :: y in s;
    if k == m {
      assert forall y | y in front :: y != x;
      TotalCongruent(front, f, g);
    } else {
      assert front[k] == x;
      TotalDelta(front, f, g, x, d);
      assert s[m] in s && s[m] != x;
    }
  }

  lemma {:induction false} TotalMiddle<T>(a: seq<T>, x: T, b: seq<T>, f: T -> real)
    ensures Total(a + [x] + b, f) == Total(a + b, f) + f(x)
  {
    hide Total;
    if b == [] {
      assert a + [x] + b == a + [x] && a + b == a;
      TotalAppend(a, x, f);
    } else {
      var front, last := b[..|b| - 1], b[|b| - 1];
      TotalMiddle(a, x, front, f);
      assert a + [x] + b == (a + [x] + front) + [last] && a + b == (a + front) + [last];
      TotalAppend(a + [x] + front, last, f);
      TotalAppend(a + front, last, f);
    }
  }

  /** The order of the terms does not matter. */
  lemma {:induction false} TotalOfWalk<T(!new)>(a: seq<T>, b: seq<T>, f: T -> real)
    requires NoDuplicates(a) && NoDuplicates(b) && forall x :: x in a <==> x in b
    ensures Total(a, f) == Total(b, f)
  {
    hide Total;
    assert |b| > 0 ==> b[0] in b;
    if a != [] {
      var front, last := a[..|a| - 1], a[|a| - 1];
      assert a == front + [last] && last in a;
      var i :| 0 <= i < |b| && b[i] == last;
      var b1, b2 := b[..i], b[i + 1..];
      assert b == b1 + [last] + b2;
      forall x ensures x in front <==> x in b1 + b2 {
        assert x in a <==> x in front || x == last;
        assert x in b <==> x in b1 + b2 || x == last;
      }
      TotalOfWalk(front, b1 + b2, f);
      TotalMiddle(b1, last, b2, f);
      TotalAppend(front, last, f);
    }
  }
}
