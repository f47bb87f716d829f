/** Which cases a condition matches (`get_set_av_pairs`), and the cases a conjunction of
    conditions covers. */
module Matching {
  import opened Outcomes
  import opened DecisionTable
  import opened Conditions

  /** The text a condition compares against a case's raw value: a symbolic value itself,
      a range formatted as `lo..hi`. */
  function Text(v: Value, show: real -> string): string
  {
    match v
    case Sym(s) => s
    case Range(lo, hi) => show(lo) + ".." + show(hi)
  }

  /** The case's raw value for the condition's attribute equals the condition's text. */
  predicate Holds(row: Row, p: Pair, show: real -> string)
  {
    p.attribute in row && row[p.attribute] == Text(p.value, show)
  }

  /** The cases that condition `p` matches. */
  function MatchSet(t: Table, show: real -> string, p: Pair): set<nat>
  {
    set k: nat | 1 <= k <= |t.rows| && Holds(Case(t, k), p, show)
  }

  /** The cases that every condition of `cs` matches. */
  function Cover(t: Table, show: real -> string, cs: seq<Pair>): set<nat>
  {
    set k: nat | 1 <= k <= |t.rows| && forall c :: c in cs ==> Holds(Case(t, k), c, show)
  }

  lemma CoverEmpty(t: Table, show: real -> string)
    ensures Cover(t, show, []) == Universe(|t.rows|)
  {
  }

  /** Adding a condition intersects the cover with its match set. */
  lemma CoverSnoc(t: Table, show: real -> string, cs: seq<Pair>, c: Pair)
    ensures Cover(t, show, cs + [c]) == Cover(t, show, cs) * MatchSet(t, show, c)
  {
    assert forall d :: d in cs + [c] <==> d in cs || d == c;
  }

  /** Fewer conditions cover at least as many cases. */
  lemma CoverAntitone(t: Table, show: real -> string, cs: seq<Pair>, ds: seq<Pair>)
    requires forall c :: c in ds ==> c in cs
    ensures Cover(t, show, cs) <= Cover(t, show, ds)
  {
  }

  predicate HasDots(s: string)
  {
    exists i :: 0 <= i < |s| - 1 && s[i] == '.' && s[i + 1] == '.'
  }

  /** The text of a range contains "..". */
  lemma RangeTextHasDots(show: real -> string, lo: real, hi: real)
    ensures HasDots(Text(Range(lo, hi), show))
  {
    var text := show(lo) + ".." + show(hi);
    var m := |show(lo)|;
    assert text[m] == '.' && text[m + 1] == '.';
  }

  /** Range conditions are compared as text: where no raw value of the attribute contains
      "..", a range condition matches no case at all. */
  lemma RangeMatchesOnlyItsText(t: Table, show: real -> string, a: string, lo: real, hi: real)
    requires forall i :: 0 <= i < |t.rows| && a in t.rows[i] ==> !HasDots(t.rows[i][a])
    ensures MatchSet(t, show, Pair(a, Range(lo, hi))) == {}
  {
    RangeTextHasDots(show, lo, hi);
    forall k: nat | 1 <= k <= |t.rows| ensures !Holds(Case(t, k), Pair(a, Range(lo, hi)), show) {
      assert Case(t, k) == t.rows[k - 1];
    }
  }

  /** `float()` accepts no text containing "..", as Python's does not: no case whose raw
      value is a number can match a range condition. */
  ghost predicate RejectsRangeText(parse: string -> Option<real>)
  {
    forall s :: parse(s).Some? ==> !HasDots(s)
  }

  /** `get_set_av_pairs`: one match set per condition, in the same order. */
  method GetSetAvPairs(t: Table, show: real -> string, pairs: seq<Pair>) returns (sets: seq<set<nat>>)
    requires WellFormed(t)
    requires forall p :: p in pairs ==> p.attribute in t.attributes
    ensures |sets| == |pairs|
    ensures forall i :: 0 <= i < |pairs| ==> sets[i] == MatchSet(t, show, pairs[i])
    ensures forall i :: 0 <= i < |pairs| ==> sets[i] <= Universe(|t.rows|)
  {
    sets := [];
    for i := 0 to |pairs|
      invariant |sets| == i
      invariant forall i' :: 0 <= i' < i ==> sets[i'] == MatchSet(t, show, pairs[i'])
    {
      var p := pairs[i];
      assert p in pairs;
      var cases: set<nat> := {};
      var rowCounter := 0;
      for j := 0 to |t.rows|
        invariant rowCounter == j
        invariant cases == set k: nat | 1 <= k <= j && Holds(Case(t, k), p, show)
      {
        rowCounter := rowCounter + 1;
        assert Case(t, rowCounter) == t.rows[j];
        if t.rows[j][p.attribute] == Text(p.value, show) {
          cases := cases + {rowCounter};
        }
      }
      sets := sets + [cases];
    }
  }
}
