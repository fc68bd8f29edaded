// Python list operations the core relies on: membership without repeats,
// list.remove (first occurrence), the first-seen de-duplication that
// topologicalSort builds, and moving an element to the tail.
module Lists {

  /** No value occurs twice. */
  predicate Distinct<T(==)>(s: seq<T>)
  {
    forall i, j :: 0 <= i < j < |s| ==> s[i] != s[j]
  }

  lemma DistinctAppend<T>(s: seq<T>, x: T)
    requires Distinct(s) && x !in s
    ensures Distinct(s + [x])
  {
  }

  /** list.remove(x): drop the first occurrence of x; unchanged when x is absent. */
  function RemoveFirst<T(==)>(s: seq<T>, x: T): seq<T>
  {
    if s == [] then []
    else if s[0] == x then s[1..]
    else [s[0]] + RemoveFirst(s[1..], x)
  }

  /** list.remove takes away exactly one x when there is one, and nothing else. */
  lemma {:induction false} RemoveFirstCount<T>(s: seq<T>, x: T)
    ensures multiset(RemoveFirst(s, x)) == multiset(s) - multiset{x}
    ensures x in s ==> |RemoveFirst(s, x)| == |s| - 1
    ensures x !in s ==> RemoveFirst(s, x) == s
  {
    if s != [] && s[0] != x {
      RemoveFirstCount(s[1..], x);
      assert s == [s[0]] + s[1..];
    } else if s != [] {
      assert s == [s[0]] + s[1..];
    }
  }

  /** list.remove(x) keeps every value other than x. */
  /** Taking out a value that was only appended at the end gives back what it was appended to. */
  lemma {:induction false} RemoveFirstAppended<T>(s: seq<T>, x: T)
    requires x !in s
    ensures RemoveFirst(s + [x], x) == s
  {
    if s != [] {
      assert (s + [x])[1..] == s[1..] + [x];
      RemoveFirstAppended(s[1..], x);
    }
  }

  lemma {:induction false} RemoveFirstKeeps<T>(s: seq<T>, x: T)
    ensures forall y :: y != x ==> (y in RemoveFirst(s, x) <==> y in s)
  {
    if s != [] && s[0] != x {
      RemoveFirstKeeps(s[1..], x);
    }
  }

  /** On a list without repeats, list.remove(x) removes x and keeps every other value. */
  lemma {:induction false} RemoveFirstDistinct<T>(s: seq<T>, x: T)
    requires Distinct(s)
    ensures Distinct(RemoveFirst(s, x))
    ensures forall y :: y in RemoveFirst(s, x) <==> y in s && y != x
  {
    if s != [] {
      if s[0] == x {
        assert x !in s[1..];
      } else {
        RemoveFirstDistinct(s[1..], x);
        assert s[0] !in s[1..];
      }
    }
  }

  /** A list without repeats whose values all occur in b is no longer than b. */
  lemma {:induction false} SubsetLength<T>(a: seq<T>, b: seq<T>)
    requires Distinct(a)
    requires forall x :: x in a ==> x in b
    ensures |a| <= |b|
  {
    if a != [] {
      var x := a[0];
      var b' := RemoveFirst(b, x);
      RemoveFirstCount(b, x);
      RemoveFirstKeeps(b, x);
      assert x !in a[1..];
      SubsetLength(a[1..], b');
    }
  }

  /**
   * The values of s, each once, in the order of their first appearance: an
   * element is appended only when it has not been seen.
   */
  function FirstSeen<T(==)>(s: seq<T>): seq<T>
  {
    if s == [] then []
    else
      var f := FirstSeen(s[..|s| - 1]);
      if s[|s| - 1] in f then f else f + [s[|s| - 1]]
  }

  lemma {:induction false} FirstSeenSpec<T>(s: seq<T>)
    ensures Distinct(FirstSeen(s))
    ensures forall y :: y in FirstSeen(s) <==> y in s
  {
    if s != [] {
      var p := s[..|s| - 1];
      FirstSeenSpec(p);
      assert s == p + [s[|s| - 1]];
    }
  }

  /** Appending to s appends to its first-seen list exactly when the value is new. */
  lemma FirstSeenAppend<T>(s: seq<T>, x: T)
    ensures FirstSeen(s + [x]) == if x in FirstSeen(s) then FirstSeen(s) else FirstSeen(s) + [x]
  {
    assert (s + [x])[..|s + [x]| - 1] == s;
  }

  /** `s.remove(x); s.append(x)`. */
  function MoveToEnd<T(==)>(s: seq<T>, x: T): seq<T>
  {
    RemoveFirst(s, x) + [x]
  }

  /** Moving a present value to the tail keeps the values, each once, and ends with x. */
  lemma MoveToEndSpec<T>(s: seq<T>, x: T)
    requires Distinct(s) && x in s
    ensures Distinct(MoveToEnd(s, x)) && |MoveToEnd(s, x)| == |s|
    ensures MoveToEnd(s, x)[|s| - 1] == x
    ensures forall y :: y in MoveToEnd(s, x) <==> y in s
  {
    RemoveFirstDistinct(s, x);
    RemoveFirstCount(s, x);
    DistinctAppend(RemoveFirst(s, x), x);
  }

  /** The element-wise image of a list. */
  function MapSeq<A, B>(s: seq<A>, f: A -> B): (r: seq<B>)
    ensures |r| == |s| && forall i :: 0 <= i < |s| ==> r[i] == f(s[i])
  {
    if s == [] then [] else [f(s[0])] + MapSeq(s[1..], f)
  }

  /** The image of a prefix one longer. */
  lemma MapSeqStep<A, B>(s: seq<A>, f: A -> B, i: int)
    requires 0 <= i < |s|
    ensures MapSeq(s[..i + 1], f) == MapSeq(s[..i], f) + [f(s[i])]
  {
    var a, b := MapSeq(s[..i + 1], f), MapSeq(s[..i], f) + [f(s[i])];
    assert forall k :: 0 <= k <= i ==> a[k] == b[k];
  }

  /** The image of a list one longer. */
  lemma MapSeqAppend<A, B>(s: seq<A>, x: A, f: A -> B)
    ensures MapSeq(s + [x], f) == MapSeq(s, f) + [f(x)]
  {
    var a, b := MapSeq(s + [x], f), MapSeq(s, f) + [f(x)];
    assert forall k :: 0 <= k < |s| ==> (s + [x])[k] == s[k];
    assert forall k :: 0 <= k < |a| ==> a[k] == b[k];
  }

  /** The image of a member is a member of the image. */
  lemma MapSeqIn<A, B>(s: seq<A>, x: A, f: A -> B)
    requires x in s
    ensures f(x) in MapSeq(s, f)
  {
    var i :| 0 <= i < |s| && s[i] == x;
    assert MapSeq(s, f)[i] == f(x);
  }
}
