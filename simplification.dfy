/** Dropping redundant conditions from a rule and redundant rules from the rule set. Both
    scans walk a list by position while removing from it, as the Python `enumerate` loops
    do: after a removal the element that slid into the current position is never examined. */
module Simplification {
  import opened Sequences
  import opened DecisionTable
  import opened Conditions

  /** A rule: its conditions, its target (decision name, concept name), and the cases
      recorded as covered when it was made. */
  datatype Rule = Rule(conditions: seq<Pair>, target: (string, string), coverage: set<nat>)

  /** The cover of `cs` computed through the condition-to-cases dictionary, starting from
      the cases 1..n and intersecting with each condition's entry in turn. */
  function IndexCover(index: map<Pair, set<nat>>, n: nat, cs: seq<Pair>): set<nat>
    requires forall c :: c in cs ==> c in index
  {
    if cs == [] then Universe(n)
    else IndexCover(index, n, cs[..|cs| - 1]) * index[cs[|cs| - 1]]
  }

  /** Case k is in the dictionary cover iff it is one of 1..n and in every condition's entry. */
  lemma {:induction false} IndexCoverMembers(index: map<Pair, set<nat>>, n: nat, cs: seq<Pair>)
    requires forall c :: c in cs ==> c in index
    ensures forall k :: k in IndexCover(index, n, cs) <==> k in Universe(n) && forall c :: c in cs ==> k in index[c]
  {
    if cs != [] {
      var p := cs[..|cs| - 1];
      assert forall c :: c in cs <==> c in p || c == cs[|cs| - 1] by {
        assert cs == p + [cs[|cs| - 1]];
      }
      IndexCoverMembers(index, n, p);
    }
  }

  /** The cover depends only on which conditions occur. */
  lemma IndexCoverSameElements(index: map<Pair, set<nat>>, n: nat, cs: seq<Pair>, ds: seq<Pair>)
    requires forall c :: c in cs <==> c in ds
    requires forall c :: c in cs ==> c in index
    ensures IndexCover(index, n, cs) == IndexCover(index, n, ds)
  {
    IndexCoverMembers(index, n, cs);
    IndexCoverMembers(index, n, ds);
  }

  /** Python's `for i, condition in enumerate(conditions)` from position `i` on: a condition
      is removed (its first occurrence) when the other conditions alone still cover only
      cases of the concept. */
  function DropScan(index: map<Pair, set<nat>>, n: nat, concept: set<nat>, conds: seq<Pair>, i: nat): (r: seq<Pair>)
    requires forall c :: c in conds ==> c in index
    ensures forall c :: c in r ==> c in conds
    decreases |conds| + 1 - i
  {
    if i >= |conds| then conds
    else
      var rest := conds[..i] + conds[i + 1..];
      if IndexCover(index, n, rest) <= concept then
        RemoveFirstLikeDelete(conds, i);
        DropScan(index, n, concept, RemoveFirst(conds, conds[i]), i + 1)
      else
        DropScan(index, n, concept, conds, i + 1)
  }

  /** The condition drop keeps a sub-multiset of the conditions, so the cover can only grow. */
  lemma {:induction false} DropScanShrinks(index: map<Pair, set<nat>>, n: nat, concept: set<nat>, conds: seq<Pair>, i: nat)
    requires forall c :: c in conds ==> c in index
    ensures multiset(DropScan(index, n, concept, conds, i)) <= multiset(conds)
    ensures IndexCover(index, n, conds) <= IndexCover(index, n, DropScan(index, n, concept, conds, i))
    decreases |conds| + 1 - i
  {
    if i < |conds| {
      var rest := conds[..i] + conds[i + 1..];
      if IndexCover(index, n, rest) <= concept {
        RemoveFirstLikeDelete(conds, i);
        DeleteAt(conds, i);
        DropScanShrinks(index, n, concept, RemoveFirst(conds, conds[i]), i + 1);
      } else {
        DropScanShrinks(index, n, concept, conds, i + 1);
      }
    }
    IndexCoverMembers(index, n, conds);
    IndexCoverMembers(index, n, DropScan(index, n, concept, conds, i));
  }

  /** A rule whose cover lies within the concept still does after simplification. */
  lemma {:induction false} DropScanWithin(index: map<Pair, set<nat>>, n: nat, concept: set<nat>, conds: seq<Pair>, i: nat)
    requires forall c :: c in conds ==> c in index
    requires IndexCover(index, n, conds) <= concept
    ensures IndexCover(index, n, DropScan(index, n, concept, conds, i)) <= concept
    decreases |conds| + 1 - i
  {
    if i < |conds| {
      var rest := conds[..i] + conds[i + 1..];
      if IndexCover(index, n, rest) <= concept {
        var removed := RemoveFirst(conds, conds[i]);
        RemoveFirstLikeDelete(conds, i);
        IndexCoverSameElements(index, n, removed, rest);
        DropScanWithin(index, n, concept, removed, i + 1);
      } else {
        DropScanWithin(index, n, concept, conds, i + 1);
      }
    }
  }

  /** The dictionary covers in the example below. */
  lemma ExampleCovers(index: map<Pair, set<nat>>, p1: Pair, p2: Pair, p3: Pair)
    requires p1 != p2 && p1 != p3 && p2 != p3
    requires index == map[p1 := {1, 2}, p2 := {1, 2}, p3 := {1}]
    ensures IndexCover(index, 2, [p2, p3]) == {1}
    ensures IndexCover(index, 2, [p2]) == {1, 2}
    ensures IndexCover(index, 2, [p3]) == {1}
  {
    assert Universe(2) == {1, 2};
    assert [p2, p3][..1] == [p2];
    assert [p2][..0] == [] && [p3][..0] == [];
    assert index[p2] == {1, 2} && index[p3] == {1};
    assert IndexCover(index, 2, [p2]) == Universe(2) * index[p2];
    assert IndexCover(index, 2, [p3]) == Universe(2) * index[p3];
  }

  /** The scan can leave a redundant condition behind: from [p1, p2, p3] it drops p1, then
      sees p3 at position 1 and keeps it, and never examines p2, although p3 alone
      already covers only cases of the concept. */
  lemma DropScanCanLeaveRedundant()
    ensures var p1 := Pair("a", Sym("x"));
            var p2 := Pair("b", Sym("y"));
            var p3 := Pair("c", Sym("z"));
            var index := map[p1 := {1, 2}, p2 := {1, 2}, p3 := {1}];
            DropScan(index, 2, {1}, [p1, p2, p3], 0) == [p2, p3]
            && IndexCover(index, 2, [p3]) <= {1}
  {
    var p1 := Pair("a", Sym("x"));
    var p2 := Pair("b", Sym("y"));
    var p3 := Pair("c", Sym("z"));
    var index := map[p1 := {1, 2}, p2 := {1, 2}, p3 := {1}];
    ExampleCovers(index, p1, p2, p3);
    assert [p1, p2, p3][..0] + [p1, p2, p3][1..] == [p2, p3];
    assert RemoveFirst([p1, p2, p3], p1) == [p2, p3];
    assert DropScan(index, 2, {1}, [p1, p2, p3], 0) == DropScan(index, 2, {1}, [p2, p3], 1);
    assert [p2, p3][..1] + [p2, p3][2..] == [p2];
    assert DropScan(index, 2, {1}, [p2, p3], 1) == DropScan(index, 2, {1}, [p2, p3], 2);
  }

  /** The inner loop of rule simplification: the cover of `cs` through the dictionary. */
  method CoverOf(index: map<Pair, set<nat>>, n: nat, cs: seq<Pair>) returns (cover: set<nat>)
    requires forall c :: c in cs ==> c in index
    ensures cover == IndexCover(index, n, cs)
  {
    cover := Universe(n);
    for j := 0 to |cs|
      invariant cover == IndexCover(index, n, cs[..j])
    {
      assert cs[..j + 1][..j] == cs[..j];
      cover := cover * index[cs[j]];
    }
    assert cs[..|cs|] == cs;
  }

  /** `simplify rule`, the loop over `enumerate(conditions)` with its inner cover loop. */
  method SimplifyRule(index: map<Pair, set<nat>>, n: nat, concept: set<nat>, conditions: seq<Pair>) returns (r: seq<Pair>)
    requires forall c :: c in conditions ==> c in index
    ensures r == DropScan(index, n, concept, conditions, 0)
  {
    r := conditions;
    var i := 0;
    while i < |r|
      invariant i <= |r| + 1
      invariant forall c :: c in r ==> c in index
      invariant DropScan(index, n, concept, r, i) == DropScan(index, n, concept, conditions, 0)
      decreases |r| + 1 - i
    {
      var condition := r[i];
      var newRule := r[..i] + r[i + 1..];
      var newCover := CoverOf(index, n, newRule);
      if newCover <= concept {
        RemoveFirstLikeDelete(r, i);
        r := RemoveFirst(r, condition);
      }
      i := i + 1;
    }
  }

  /** The cases covered by the rules, in order (`temp_covered_cases`). */
  function RuleUnion(rs: seq<Rule>): set<nat>
  {
    if rs == [] then {} else RuleUnion(rs[..|rs| - 1]) + rs[|rs| - 1].coverage
  }

  /** A case is in the union iff some rule's coverage contains it. */
  lemma {:induction false} RuleUnionMembers(rs: seq<Rule>)
    ensures forall k :: k in RuleUnion(rs) <==> exists j :: 0 <= j < |rs| && k in rs[j].coverage
  {
    if rs != [] {
      var p := rs[..|rs| - 1];
      RuleUnionMembers(p);
      assert forall j :: 0 <= j < |p| ==> p[j] == rs[j];
    }
  }

  lemma RuleUnionSameElements(rs: seq<Rule>, qs: seq<Rule>)
    requires forall r :: r in rs <==> r in qs
    ensures RuleUnion(rs) == RuleUnion(qs)
  {
    RuleUnionMembers(rs);
    RuleUnionMembers(qs);
    forall k | k in RuleUnion(rs) ensures k in RuleUnion(qs) {
      var j :| 0 <= j < |rs| && k in rs[j].coverage;
      assert rs[j] in qs;
    }
    forall k | k in RuleUnion(qs) ensures k in RuleUnion(rs) {
      var j :| 0 <= j < |qs| && k in qs[j].coverage;
      assert qs[j] in rs;
    }
  }

  /** Leaving out a rule can only shrink the union. */
  lemma RuleUnionDelete(rules: seq<Rule>, i: nat)
    requires i < |rules|
    ensures RuleUnion(rules[..i] + rules[i + 1..]) <= RuleUnion(rules)
  {
    var rest := rules[..i] + rules[i + 1..];
    RuleUnionMembers(rules);
    RuleUnionMembers(rest);
    forall k | k in RuleUnion(rest) ensures k in RuleUnion(rules) {
      var j :| 0 <= j < |rest| && k in rest[j].coverage;
      if j < i {
        assert rest[j] == rules[j];
      } else {
        assert rest[j] == rules[j + 1];
      }
    }
  }

  /** Python's `for i, rule in enumerate(rules)` from position `i` on: a rule is removed
      (its first occurrence) when the other rules still cover every case 1..n. */
  function RuleScan(rules: seq<Rule>, n: nat, i: nat): (r: seq<Rule>)
    ensures multiset(r) <= multiset(rules)
    decreases |rules| + 1 - i
  {
    if i >= |rules| then rules
    else
      var rest := rules[..i] + rules[i + 1..];
      if |Universe(n) - RuleUnion(rest)| == 0 then
        RemoveFirstLikeDelete(rules, i);
        DeleteAt(rules, i);
        RuleScan(RemoveFirst(rules, rules[i]), n, i + 1)
      else
        RuleScan(rules, n, i + 1)
  }

  /** A rule set that covers every case 1..n still does after ruleset simplification. */
  lemma {:induction false} RuleScanKeepsCoverage(rules: seq<Rule>, n: nat, i: nat)
    requires Universe(n) <= RuleUnion(rules)
    ensures Universe(n) <= RuleUnion(RuleScan(rules, n, i))
    decreases |rules| + 1 - i
  {
    if i < |rules| {
      var rest := rules[..i] + rules[i + 1..];
      if |Universe(n) - RuleUnion(rest)| == 0 {
        var removed := RemoveFirst(rules, rules[i]);
        RemoveFirstLikeDelete(rules, i);
        RuleUnionSameElements(removed, rest);
        assert Universe(n) - RuleUnion(rest) == {};
        assert Universe(n) <= RuleUnion(removed);
        RuleScanKeepsCoverage(removed, n, i + 1);
      } else {
        RuleScanKeepsCoverage(rules, n, i + 1);
      }
    }
  }

  /** Rules are removed only while the rest cover every case: if the rule set does not
      cover all cases 1..n, simplification keeps every rule. */
  lemma {:induction false} RuleScanNeedsFullCover(rules: seq<Rule>, n: nat, i: nat)
    requires !(Universe(n) <= RuleUnion(rules))
    ensures RuleScan(rules, n, i) == rules
    decreases |rules| + 1 - i
  {
    if i < |rules| {
      var rest := rules[..i] + rules[i + 1..];
      var k :| k in Universe(n) && k !in RuleUnion(rules);
      RuleUnionDelete(rules, i);
      assert k in Universe(n) - RuleUnion(rest);
      RuleScanNeedsFullCover(rules, n, i + 1);
    }
  }

  /** The scan can leave a redundant rule behind: from [A, B, C] with coverages {1}, {1}
      and {1, 2} it drops A, then sees C at position 1 and keeps it, and never examines B,
      although C alone covers both cases. */
  lemma RuleScanCanLeaveRedundant()
    ensures var a := Rule([], ("d", "v"), {1});
            var b := Rule([Pair("x", Sym("0"))], ("d", "v"), {1});
            var c := Rule([Pair("y", Sym("0"))], ("d", "v"), {1, 2});
            RuleScan([a, b, c], 2, 0) == [b, c] && Universe(2) <= RuleUnion([c])
  {
    var a := Rule([], ("d", "v"), {1});
    var b := Rule([Pair("x", Sym("0"))], ("d", "v"), {1});
    var c := Rule([Pair("y", Sym("0"))], ("d", "v"), {1, 2});
    ExampleUnions(b, c);
    assert Universe(2) == {1, 2};
    assert [a, b, c][..0] + [a, b, c][1..] == [b, c];
    assert RemoveFirst([a, b, c], a) == [b, c];
    assert RuleScan([a, b, c], 2, 0) == RuleScan([b, c], 2, 1);
    assert [b, c][..1] + [b, c][2..] == [b];
    assert 2 in Universe(2) - RuleUnion([b]);
    assert RuleScan([b, c], 2, 1) == RuleScan([b, c], 2, 2);
  }

  /** The unions in the example above. */
  lemma ExampleUnions(b: Rule, c: Rule)
    requires b.coverage == {1} && c.coverage == {1, 2}
    ensures RuleUnion([b]) == {1} && RuleUnion([c]) == {1, 2} && RuleUnion([b, c]) == {1, 2}
  {
    assert [b, c][..1] == [b] && [b][..0] == [] && [c][..0] == [];
  }

  /** The inner loop of ruleset simplification: the union of the rules' coverages. */
  method UnionOf(rs: seq<Rule>) returns (covered: set<nat>)
    ensures covered == RuleUnion(rs)
  {
    covered := {};
    for j := 0 to |rs|
      invariant covered == RuleUnion(rs[..j])
    {
      assert rs[..j + 1][..j] == rs[..j];
      covered := covered + rs[j].coverage;
    }
    assert rs[..|rs|] == rs;
  }

  /** `simplify ruleset`, the loop over `enumerate(rules)` with its inner union loop. */
  method SimplifyRuleset(rules: seq<Rule>, n: nat) returns (r: seq<Rule>)
    ensures r == RuleScan(rules, n, 0)
  {
    r := rules;
    var i := 0;
    while i < |r|
      invariant i <= |r| + 1
      invariant RuleScan(r, n, i) == RuleScan(rules, n, 0)
      decreases |r| + 1 - i
    {
      var rule := r[i];
      var newRuleset := r[..i] + r[i + 1..];
      var allCases := Universe(n);
      var tempCovered := UnionOf(newRuleset);
      if |allCases - tempCovered| == 0 {
        RemoveFirstLikeDelete(r, i);
        r := RemoveFirst(r, rule);
      }
      i := i + 1;
    }
  }
}
