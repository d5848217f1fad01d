/**
 The sorted enumeration of a finite set: what a program gets when it collects the keys of a map,
 whose iteration order is arbitrary, and sorts them. The result does not depend on that order.
 */
module SortedSets {

  ghost predicate StrictTotal<T(!new)>(less: (T, T) -> bool) {
    && (forall x :: !less(x, x))
    && (forall x, y :: x != y ==> less(x, y) || less(y, x))
    && (forall x, y, z :: less(x, y) && less(y, z) ==> less(x, z))
  }

  ghost predicate Sorted<T>(less: (T, T) -> bool, s: seq<T>) {
    forall i, j :: 0 <= i < j < |s| ==> less(s[i], s[j])
  }

  ghost predicate IsAscending<T(!new)>(less: (T, T) -> bool, elements: set<T>, s: seq<T>) {
    Sorted(less, s) && forall x :: x in s <==> x in elements
  }

  /** In a sorted sequence everything before the last element is below it. */
  lemma FrontBelow<T(!new)>(less: (T, T) -> bool, front: seq<T>, last: T)
    requires Sorted(less, front + [last])
    ensures Sorted(less, front)
    ensures forall y | y in front :: less(y, last)
  {
    var s := front + [last];
    forall y | y in front ensures less(y, last) {
      var i :| 0 <= i < |front| && front[i] == y;
      assert less(s[i], s[|front|]);
    }
    forall i, j | 0 <= i < j < |front| ensures less(front[i], front[j]) {
      assert less(s[i], s[j]);
    }
  }

  lemma AppendSorted<T(!new)>(less: (T, T) -> bool, s: seq<T>, x: T)
    requires Sorted(less, s) && forall y | y in s :: less(y, x)
    ensures Sorted(less, s + [x])
  {}

  function Insert<T(!new)>(less: (T, T) -> bool, s: seq<T>, x: T): (r: seq<T>)
    requires StrictTotal(less) && Sorted(less, s) && x !in s
    ensures Sorted(less, r)
    ensures forall y :: y in r <==> y == x || y in s
  {
    if s == [] then [x]
    else
      var front, last := s[..|s| - 1], s[|s| - 1];
      assert s == front + [last];
      FrontBelow(less, front, last);
      if less(last, x) then
        AppendSorted(less, s, x);
        s + [x]
      else
        assert last in s && less(x, last);
        var r := Insert(less, front, x);
        AppendSorted(less, r, last);
        r + [last]
  }

  /** The elements of a finite set in ascending order. */
  ghost function Ascending<T(!new)>(less: (T, T) -> bool, elements: set<T>): (r: seq<T>)
    requires StrictTotal(less)
    ensures IsAscending(less, elements, r)
  {
    if elements == {} then []
    else
      var x :| x in elements;
      Insert(less, Ascending(less, elements - {x}), x)
  }

  lemma {:induction false} AscendingIsUnique<T(!new)>(less: (T, T) -> bool, elements: set<T>, s: seq<T>, t: seq<T>)
    requires StrictTotal(less) && IsAscending(less, elements, s) && IsAscending(less, elements, t)
    ensures s == t
  {
    assert |s| > 0 ==> s[0] in s;
    assert |t| > 0 ==> t[0] in t;
    if s == [] {
    } else {
      var a, b := s[|s| - 1], t[|t| - 1];
      var s', t' := s[..|s| - 1], t[..|t| - 1];
      assert s == s' + [a] && t == t' + [b];
      FrontBelow(less, s', a);
      FrontBelow(less, t', b);
      assert b in t && a in s;
      assert a == b || (less(a, b) && less(b, a));
      forall x ensures (x in s' <==> x in elements - {a}) && (x in t' <==> x in elements - {a}) {}
      AscendingIsUnique(less, elements - {a}, s', t');
    }
  }

  /** Collect in any order, then sort. */
  method CollectSorted<T(!new,==)>(less: (T, T) -> bool, elements: set<T>) returns (r: seq<T>)
    requires StrictTotal(less)
    ensures r == Ascending(less, elements)
  {
    r := [];
    var rest := elements;
    while rest != {}
      invariant rest <= elements
      invariant IsAscending(less, elements - rest, r)
      decreases |rest|
    {
      var x :| x in rest;
      r := Insert(less, r, x);
      rest := rest - {x};
    }
    assert elements - rest == elements;
    AscendingIsUnique(less, elements, r, Ascending(less, elements));
  }

  predicate LessNat(x: nat, y: nat) { x < y }

  predicate LessPair(x: (nat, nat), y: (nat, nat)) {
    if x.0 != y.0 then x.0 < y.0 else x.1 < y.1
  }

  /** In the sorted enumeration the smaller number comes first. */
  lemma LessComesFirst(s: seq<nat>, i: nat, j: nat)
    requires Sorted<nat>(LessNat, s) && i < |s| && j < |s|
    ensures s[j] < s[i] <==> j < i
  {}

  lemma LessNatIsTotal()
    ensures StrictTotal<nat>(LessNat)
  {}

  lemma LessPairIsTotal()
    ensures StrictTotal<(nat, nat)>(LessPair)
  {}
}
