/** Scoring candidate conditions (`get_ints_and_cards`) and picking the best one
    (`get_best_intersection`). */
module Selection {

  /** A candidate's score: the part of the goal its match set covers, and the size of
      its match set. */
  datatype Candidate = Candidate(inter: set<nat>, card: nat)

  /** `get_ints_and_cards`: for each match set, in order, its intersection with the goal
      and its size. */
  function IntsAndCards(goal: set<nat>, sets: seq<set<nat>>): (r: seq<Candidate>)
    ensures |r| == |sets|
    ensures forall i :: 0 <= i < |sets| ==>
      r[i].inter == goal * sets[i] && r[i].inter <= goal && r[i].card == |sets[i]|
  {
    if sets == [] then []
    else IntsAndCards(goal, sets[..|sets| - 1]) + [Candidate(goal * sets[|sets| - 1], |sets[|sets| - 1]|)]
  }

  /** `a` ranks strictly above `b` under the key (|inter|, -card): a larger intersection,
      or an equal one with a smaller match set. */
  predicate Beats(a: Candidate, b: Candidate)
  {
    |a.inter| > |b.inter| || (|a.inter| == |b.inter| && a.card < b.card)
  }

  predicate SameKey(a: Candidate, b: Candidate)
  {
    |a.inter| == |b.inter| && a.card == b.card
  }

  /** Candidate i has the lexicographically largest key, and is the first that has it. */
  predicate IsBest(cs: seq<Candidate>, i: nat)
  {
    i < |cs|
    && (forall j :: 0 <= j < |cs| ==> !Beats(cs[j], cs[i]))
    && (forall j :: 0 <= j < i ==> Beats(cs[i], cs[j]))
  }

  /** `enumerate`: each candidate with its position. */
  function Enumerate(cs: seq<Candidate>): (e: seq<(nat, Candidate)>)
    ensures |e| == |cs| && forall i :: 0 <= i < |cs| ==> e[i] == (i, cs[i])
  {
    seq(|cs|, i requires 0 <= i < |cs| => (i, cs[i]))
  }

  function InsertDesc(x: (nat, Candidate), s: seq<(nat, Candidate)>): seq<(nat, Candidate)>
  {
    if s == [] then [x]
    else if Beats(x.1, s[0].1) then [x] + s
    else [s[0]] + InsertDesc(x, s[1..])
  }

  /** Python's `sorted(..., key=(|inter|, -card), reverse=True)`: descending by key, and
      stable, so that entries with equal keys keep their order. */
  function SortDesc(xs: seq<(nat, Candidate)>): seq<(nat, Candidate)>
  {
    if xs == [] then [] else InsertDesc(xs[|xs| - 1], SortDesc(xs[..|xs| - 1]))
  }

  predicate Descending(s: seq<(nat, Candidate)>)
  {
    forall i, j :: 0 <= i < j < |s| ==> !Beats(s[j].1, s[i].1)
  }

  /** Inserting adds exactly one copy of the entry. */
  lemma {:induction false} InsertDescPermutes(x: (nat, Candidate), s: seq<(nat, Candidate)>)
    ensures multiset(InsertDesc(x, s)) == multiset(s) + multiset{x}
    ensures |InsertDesc(x, s)| == |s| + 1
  {
    if s != [] && !Beats(x.1, s[0].1) {
      InsertDescPermutes(x, s[1..]);
      assert s == [s[0]] + s[1..];
    }
  }

  lemma {:induction false} InsertDescMember(x: (nat, Candidate), s: seq<(nat, Candidate)>, y: (nat, Candidate))
    requires y in InsertDesc(x, s)
    ensures y == x || y in s
  {
    if s != [] && !Beats(x.1, s[0].1) && y != s[0] {
      InsertDescMember(x, s[1..], y);
    }
  }

  /** Inserting into a descending list keeps it descending. */
  lemma {:induction false} InsertDescSorted(x: (nat, Candidate), s: seq<(nat, Candidate)>)
    requires Descending(s)
    ensures Descending(InsertDesc(x, s))
  {
    if s != [] && !Beats(x.1, s[0].1) {
      var tail := s[1..];
      assert Descending(tail);
      InsertDescSorted(x, tail);
      var r := InsertDesc(x, tail);
      forall y | y in r ensures !Beats(y.1, s[0].1) {
        InsertDescMember(x, tail, y);
        if y != x {
          var k :| 0 <= k < |tail| && tail[k] == y;
          assert s[k + 1] == y;
        }
      }
      var out := [s[0]] + r;
      forall i, j | 0 <= i < j < |out| ensures !Beats(out[j].1, out[i].1) {
        assert out[j] == r[j - 1] && r[j - 1] in r;
        if i > 0 {
          assert out[i] == r[i - 1];
        }
      }
    }
  }

  /** SortDesc is a sort: a permutation of its input in descending key order. */
  lemma {:induction false} SortDescSorts(xs: seq<(nat, Candidate)>)
    ensures multiset(SortDesc(xs)) == multiset(xs)
    ensures |SortDesc(xs)| == |xs|
    ensures Descending(SortDesc(xs))
  {
    if xs != [] {
      var p := xs[..|xs| - 1];
      SortDescSorts(p);
      InsertDescPermutes(xs[|xs| - 1], SortDesc(p));
      InsertDescSorted(xs[|xs| - 1], SortDesc(p));
      assert xs == p + [xs[|xs| - 1]];
    }
  }

  /** Reference definition: the first entry with the largest key, found by a left-to-right scan. */
  function FirstBest(xs: seq<(nat, Candidate)>): (k: nat)
    requires xs != []
    ensures k < |xs|
  {
    if |xs| == 1 then 0
    else
      var k := FirstBest(xs[..|xs| - 1]);
      if Beats(xs[|xs| - 1].1, xs[k].1) then |xs| - 1 else k
  }

  predicate BestAt(xs: seq<(nat, Candidate)>, k: nat)
  {
    k < |xs|
    && (forall j :: 0 <= j < |xs| ==> !Beats(xs[j].1, xs[k].1))
    && (forall j :: 0 <= j < k ==> Beats(xs[k].1, xs[j].1))
  }

  lemma {:induction false} FirstBestIsBest(xs: seq<(nat, Candidate)>)
    requires xs != []
    ensures BestAt(xs, FirstBest(xs))
  {
    if |xs| > 1 {
      var p := xs[..|xs| - 1];
      FirstBestIsBest(p);
      assert forall j :: 0 <= j < |p| ==> xs[j] == p[j];
    }
  }

  /** The stable descending sort puts first the first entry with the largest key. */
  lemma {:induction false} SortDescHead(xs: seq<(nat, Candidate)>)
    requires xs != []
    ensures |SortDesc(xs)| == |xs|
    ensures SortDesc(xs)[0] == xs[FirstBest(xs)]
  {
    var p := xs[..|xs| - 1];
    SortDescSorts(xs);
    if p != [] {
      SortDescHead(p);
      SortDescSorts(p);
      assert xs[FirstBest(p)] == p[FirstBest(p)];
    }
  }

  /** The first position from `from` on whose candidate has the same key as `key`. */
  function FirstWithKey(cs: seq<Candidate>, key: Candidate, from: nat): (k: nat)
    requires from <= |cs| && exists j :: from <= j < |cs| && SameKey(cs[j], key)
    ensures from <= k < |cs| && SameKey(cs[k], key)
    ensures forall j :: from <= j < k ==> !SameKey(cs[j], key)
    decreases |cs| - from
  {
    if SameKey(cs[from], key) then from else FirstWithKey(cs, key, from + 1)
  }

  /** `get_best_intersection`: sort the enumerated candidates by key, descending; when the
      top two tie, scan for the first candidate with the top key, otherwise take the top.
      Either way the result is the first candidate with the largest key. */
  function BestIntersection(cs: seq<Candidate>): (r: (nat, Candidate))
    requires |cs| >= 2
    ensures IsBest(cs, r.0) && r.1 == cs[r.0]
  {
    var e := Enumerate(cs);
    var s := SortDesc(e);
    SortDescHead(e);
    FirstBestIsBest(e);
    assert BestAt(e, FirstBest(e)) ==> IsBest(cs, FirstBest(e));
    if SameKey(s[0].1, s[1].1) then
      var k := FirstWithKey(cs, s[0].1, 0);
      (k, cs[k])
    else
      s[0]
  }
}
