/** Generic facts about sequences that the inducer's list handling relies on. */
module Sequences {

  predicate NoDuplicates<T(==)>(s: seq<T>)
  {
    forall i, j :: 0 <= i < j < |s| ==> s[i] != s[j]
  }

  /** The position of the first occurrence of `x` in `s`. */
  function IndexOf<T(==)>(s: seq<T>, x: T): (k: nat)
    requires x in s
    ensures k < |s| && s[k] == x
    ensures forall j :: 0 <= j < k ==> s[j] != x
  {
    if s[0] == x then 0 else 1 + IndexOf(s[1..], x)
  }

  /** The elements of `s` in order of first appearance, each once: what a loop builds
      that appends a value to a list the first time it is seen. */
  function Distinct<T(==)>(s: seq<T>): seq<T>
  {
    if s == [] then []
    else
      var d := Distinct(s[..|s| - 1]);
      if s[|s| - 1] in d then d else d + [s[|s| - 1]]
  }

  lemma DistinctSnoc<T>(s: seq<T>, v: T)
    ensures Distinct(s + [v]) == if v in Distinct(s) then Distinct(s) else Distinct(s) + [v]
  {
    assert (s + [v])[..|s|] == s;
  }

  /** Python's `list.remove(x)`: the first occurrence of `x` is deleted. */
  function RemoveFirst<T(==)>(s: seq<T>, x: T): seq<T>
  {
    if x in s then s[..IndexOf(s, x)] + s[IndexOf(s, x) + 1..] else s
  }

  /** The first occurrence is the only position with `x` and nothing equal to `x` before it. */
  lemma IndexOfUnique<T>(s: seq<T>, x: T, k: nat)
    requires k < |s| && s[k] == x && forall j :: 0 <= j < k ==> s[j] != x
    ensures IndexOf(s, x) == k
  {
  }

  lemma IndexOfPrefix<T>(s: seq<T>, m: nat, x: T)
    requires m <= |s| && x in s[..m]
    ensures x in s && IndexOf(s, x) == IndexOf(s[..m], x)
  {
    var p := s[..m];
    var k := IndexOf(p, x);
    assert s[k] == p[k] == x;
    forall j | 0 <= j < k ensures s[j] != x {
      assert s[j] == p[j];
    }
    IndexOfUnique(s, x, k);
  }

  /** Distinct keeps exactly the elements of `s`, once each, in order of first appearance. */
  lemma {:induction false} DistinctProperties<T>(s: seq<T>)
    ensures forall x :: x in Distinct(s) <==> x in s
    ensures NoDuplicates(Distinct(s))
    ensures forall i, j :: 0 <= i < j < |Distinct(s)| ==>
      IndexOf(s, Distinct(s)[i]) < IndexOf(s, Distinct(s)[j])
  {
    if s != [] {
      var p := s[..|s| - 1];
      var x := s[|s| - 1];
      DistinctProperties(p);
      assert s == p + [x];
      var d := Distinct(p);
      forall y | y in p
        ensures y in s && IndexOf(s, y) == IndexOf(p, y)
      {
        IndexOfPrefix(s, |s| - 1, y);
      }
      if x !in d {
        assert x !in p;
        assert IndexOf(s, x) == |s| - 1;
      }
    }
  }

  /** Deleting position `i` removes one copy of `s[i]`. */
  lemma DeleteAt<T>(s: seq<T>, i: nat)
    requires i < |s|
    ensures multiset(s[..i] + s[i + 1..]) == multiset(s) - multiset{s[i]}
  {
    assert s == s[..i] + [s[i]] + s[i + 1..];
    calc {
      multiset(s);
      multiset(s[..i] + [s[i]] + s[i + 1..]);
      multiset(s[..i]) + multiset{s[i]} + multiset(s[i + 1..]);
    }
  }

  /** `list.remove(s[i])` and deleting position `i` leave the same elements, as often. */
  lemma RemoveFirstLikeDelete<T>(s: seq<T>, i: nat)
    requires i < |s|
    ensures multiset(RemoveFirst(s, s[i])) == multiset(s[..i] + s[i + 1..])
    ensures |RemoveFirst(s, s[i])| == |s| - 1
    ensures forall y :: y in RemoveFirst(s, s[i]) <==> y in s[..i] + s[i + 1..]
  {
    var k := IndexOf(s, s[i]);
    var removed := s[..k] + s[k + 1..];
    var deleted := s[..i] + s[i + 1..];
    assert RemoveFirst(s, s[i]) == removed;
    DeleteAt(s, i);
    DeleteAt(s, k);
    assert multiset(removed) == multiset(deleted);
    assert |multiset(removed)| == |multiset(deleted)|;
    forall y
      ensures y in removed <==> y in deleted
    {
      assert y in removed <==> y in multiset(removed);
      assert y in deleted <==> y in multiset(deleted);
    }
  }

  /** A list without repeats holds each value at most once. */
  lemma {:induction false} NoDuplicatesCount<T>(s: seq<T>, x: T)
    requires NoDuplicates(s)
    ensures multiset(s)[x] <= 1
  {
    if s != [] {
      var tail := s[1..];
      assert s == [s[0]] + tail;
      assert NoDuplicates(tail);
      NoDuplicatesCount(tail, x);
      if s[0] == x {
        assert x !in tail;
      }
    }
  }

  /** Taking no value more often than a list without repeats holds it gives no repeats. */
  lemma SubMultisetNoDuplicates<T>(s: seq<T>, u: seq<T>)
    requires NoDuplicates(u) && multiset(s) <= multiset(u)
    ensures NoDuplicates(s)
  {
    forall i, j | 0 <= i < j < |s| ensures s[i] != s[j] {
      if s[i] == s[j] {
        var x := s[i];
        assert s == s[..j] + s[j..];
        assert x in s[..j] && x in s[j..];
        assert multiset(s)[x] == multiset(s[..j])[x] + multiset(s[j..])[x];
        NoDuplicatesCount(u, x);
        assert false;
      }
    }
  }

  /** Two lists without repeats and without a common value concatenate without repeats. */
  lemma NoDuplicatesConcat<T>(s: seq<T>, u: seq<T>)
    requires NoDuplicates(s) && NoDuplicates(u)
    requires forall x :: x in s ==> x !in u
    ensures NoDuplicates(s + u)
  {
    var w := s + u;
    forall i, j | 0 <= i < j < |w| ensures w[i] != w[j] {
      if i < |s| && |s| <= j {
        assert w[i] == s[i] && w[j] == u[j - |s|];
        assert s[i] in s;
      }
    }
  }
}
