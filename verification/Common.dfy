/** Notions shared by the modules of the model. */
module Common {

  datatype Option<T> = None | Some(value: T)

  ghost predicate NoDuplicates<T>(s: seq<T>) {
    forall i, j | 0 <= i < j < |s| :: s[i] != s[j]
  }

  /** A walk over a set, such as the keys of a map: each element once, in any order. */
  ghost predicate IsWalk<T(!new)>(order: seq<T>, elements: set<T>) {
    (forall x :: x in order <==> x in elements) && NoDuplicates(order)
  }

  /** The distinct elements of s in order of first appearance. */
  function Distinct<T(!new, ==)>(s: seq<T>): (r: seq<T>)
    ensures |r| <= |s|
    ensures forall x :: x in r <==> x in s
    ensures NoDuplicates(r)
  {
    if s == [] then []
    else
      var front, last := s[..|s| - 1], s[|s| - 1];
      assert s == front + [last];
      var r := Distinct(front);
      if last in r then r else r + [last]
  }

  lemma DistinctAppend<T(!new)>(s: seq<T>, x: T)
    ensures Distinct(s + [x]) == if x in s then Distinct(s) else Distinct(s) + [x]
  {
    assert (s + [x])[..|s|] == s;
  }

  lemma NoDuplicatesFront<T>(front: seq<T>, last: T)
    requires NoDuplicates(front + [last])
    ensures NoDuplicates(front) && last !in front
  {
    var s := front + [last];
    forall i, j | 0 <= i < j < |front| ensures front[i] != front[j] {
      assert s[i] != s[j];
    }
    forall i | 0 <= i < |front| ensures front[i] != last {
      assert s[i] != s[|front|];
    }
  }

  /** A walk is as long as the set is large. */
  lemma {:induction false} WalkLength<T(!new)>(order: seq<T>, elements: set<T>)
    requires IsWalk(order, elements)
    ensures |order| == |elements|
  {
    if order == [] {
      assert elements == {};
    } else {
      var front, last := order[..|order| - 1], order[|order| - 1];
      assert order == front + [last];
      NoDuplicatesFront(front, last);
      WalkLength(front, elements - {last});
    }
  }
}
