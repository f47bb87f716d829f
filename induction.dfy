/** The body of `mlem2`: rule induction concept by concept, ruleset simplification, and
    the per-rule statistics. */
module Induction {
  import opened Outcomes
  import opened Sequences
  import opened DecisionTable
  import opened Conditions
  import opened Matching
  import opened Selection
  import opened Simplification

  /** The two working lists agree: entry i of `sets` is the match set of condition i. */
  predicate Aligned(t: Table, show: real -> string, pairs: seq<Pair>, sets: seq<set<nat>>)
  {
    |pairs| == |sets| && forall i :: 0 <= i < |sets| ==> sets[i] == MatchSet(t, show, pairs[i])
  }

  /** The condition-to-cases dictionary built from aligned lists. */
  function MatchIndex(t: Table, show: real -> string, pairs: seq<Pair>): map<Pair, set<nat>>
  {
    map p | p in pairs :: MatchSet(t, show, p)
  }

  /** The dictionary filled by `for k, v in zip(pairs, sets): d[k] = v`. */
  function ZipMap(pairs: seq<Pair>, sets: seq<set<nat>>): map<Pair, set<nat>>
    requires |pairs| == |sets|
  {
    if pairs == [] then map[]
    else ZipMap(pairs[..|pairs| - 1], sets[..|sets| - 1])[pairs[|pairs| - 1] := sets[|sets| - 1]]
  }

  /** Zipping aligned lists gives each condition its own match set. */
  lemma {:induction false} ZipMapAligned(t: Table, show: real -> string, pairs: seq<Pair>, sets: seq<set<nat>>)
    requires Aligned(t, show, pairs, sets)
    ensures ZipMap(pairs, sets) == MatchIndex(t, show, pairs)
  {
    if pairs != [] {
      var pp := pairs[..|pairs| - 1];
      var sp := sets[..|sets| - 1];
      assert Aligned(t, show, pp, sp);
      ZipMapAligned(t, show, pp, sp);
      assert forall p :: p in pairs <==> p in pp || p == pairs[|pairs| - 1] by {
        assert pairs == pp + [pairs[|pairs| - 1]];
      }
    }
  }

  /** The loop that builds `av_pair_dict`. */
  method BuildIndex(pairs: seq<Pair>, sets: seq<set<nat>>) returns (index: map<Pair, set<nat>>)
    requires |pairs| == |sets|
    ensures index == ZipMap(pairs, sets)
  {
    index := map[];
    for i := 0 to |pairs|
      invariant index == ZipMap(pairs[..i], sets[..i])
    {
      assert pairs[..i + 1][..i] == pairs[..i] && sets[..i + 1][..i] == sets[..i];
      index := index[pairs[i] := sets[i]];
    }
    assert pairs[..|pairs|] == pairs && sets[..|sets|] == sets;
  }

  /** The dictionary cover of conditions drawn from the initial list is their cover. */
  lemma IndexCoverIsCover(t: Table, show: real -> string, initial: seq<Pair>, cs: seq<Pair>)
    requires forall c :: c in cs ==> c in initial
    ensures IndexCover(MatchIndex(t, show, initial), |t.rows|, cs) == Cover(t, show, cs)
  {
    var index := MatchIndex(t, show, initial);
    IndexCoverMembers(index, |t.rows|, cs);
    forall k ensures k in IndexCover(index, |t.rows|, cs) <==> k in Cover(t, show, cs) {
      if 1 <= k <= |t.rows| {
        assert forall c :: c in cs ==> (k in index[c] <==> Holds(Case(t, k), c, show));
      }
    }
  }

  /** What a rule promises about the table: it concludes the decision's concept
      `target.1`, it uses conditions from the initial list (no more often than they occur
      there), its recorded coverage is among the cases its conditions match, and those
      cases all belong to the concept. */
  predicate Sound(t: Table, show: real -> string, initial: seq<Pair>, r: Rule)
    requires WellFormed(t)
  {
    r.target.0 == t.decision && r.target.1 in ConceptNames(t)
    && multiset(r.conditions) <= multiset(initial)
    && r.coverage <= Cover(t, show, r.conditions)
    && Cover(t, show, r.conditions) <= ConceptCases(t, r.target.1)
  }

  /** How the loop records a rule: `draft` is the rule as grown, drawn from the initial
      list; the recorded coverage is the draft's cover, inside the concept, not
      recomputed after simplification; the conditions are the draft after the one-pass
      condition drop. */
  ghost predicate Recorded(t: Table, show: real -> string, initial: seq<Pair>, r: Rule, draft: seq<Pair>)
    requires WellFormed(t)
  {
    r.target.0 == t.decision && r.target.1 in ConceptNames(t)
    && multiset(draft) <= multiset(initial)
    && (forall c :: c in draft ==> c in initial)
    && r.coverage == Cover(t, show, draft)
    && r.coverage <= ConceptCases(t, r.target.1)
    && r.conditions == DropScan(MatchIndex(t, show, initial), |t.rows|, ConceptCases(t, r.target.1), draft, 0)
  }

  ghost predicate AllRecorded(t: Table, show: real -> string, initial: seq<Pair>, rules: seq<Rule>)
    requires WellFormed(t)
  {
    forall r :: r in rules ==> exists d :: Recorded(t, show, initial, r, d)
  }

  lemma AllRecordedSnoc(t: Table, show: real -> string, initial: seq<Pair>, rules: seq<Rule>, r: Rule, draft: seq<Pair>)
    requires WellFormed(t) && AllRecorded(t, show, initial, rules) && Recorded(t, show, initial, r, draft)
    ensures AllRecorded(t, show, initial, rules + [r])
  {
  }

  lemma RuleUnionSnoc(rules: seq<Rule>, r: Rule)
    ensures RuleUnion(rules + [r]) == RuleUnion(rules) + r.coverage
  {
    assert (rules + [r])[..|rules|] == rules;
  }

  /** Deleting the same position from both working lists keeps them aligned. */
  lemma AlignedDelete(t: Table, show: real -> string, pairs: seq<Pair>, sets: seq<set<nat>>, i: nat)
    requires Aligned(t, show, pairs, sets) && i < |pairs|
    ensures Aligned(t, show, pairs[..i] + pairs[i + 1..], sets[..i] + sets[i + 1..])
  {
    var ps := pairs[..i] + pairs[i + 1..];
    var ss := sets[..i] + sets[i + 1..];
    forall j | 0 <= j < |ss| ensures ss[j] == MatchSet(t, show, ps[j]) {
      if j < i {
        assert ss[j] == sets[j] && ps[j] == pairs[j];
      } else {
        assert ss[j] == sets[j + 1] && ps[j] == pairs[j + 1];
      }
    }
  }

  /** Moving the chosen pair from the working list to the partial rule keeps the two
      together the same multiset. */
  lemma MoveCondition(conditions: seq<Pair>, pairs: seq<Pair>, i: nat)
    requires i < |pairs|
    ensures multiset(conditions + [pairs[i]]) + multiset(pairs[..i] + pairs[i + 1..]) == multiset(conditions) + multiset(pairs)
  {
    DeleteAt(pairs, i);
  }

  /** A rule recorded by the loop is sound. */
  lemma RecordedIsSound(t: Table, show: real -> string, initial: seq<Pair>, r: Rule, draft: seq<Pair>)
    requires WellFormed(t) && Recorded(t, show, initial, r, draft)
    ensures Sound(t, show, initial, r)
  {
    var index := MatchIndex(t, show, initial);
    var concept := ConceptCases(t, r.target.1);
    IndexCoverIsCover(t, show, initial, draft);
    DropScanWithin(index, |t.rows|, concept, draft, 0);
    DropScanShrinks(index, |t.rows|, concept, draft, 0);
    IndexCoverIsCover(t, show, initial, r.conditions);
  }

  /** The simplification of a finished rule (lines 187-195) and its record. */
  method RecordRule(t: Table, show: real -> string, initial: seq<Pair>, index: map<Pair, set<nat>>,
                    concept: set<nat>, name: string, conditions: seq<Pair>, temp: set<nat>) returns (rule: Rule)
    requires WellFormed(t) && index == MatchIndex(t, show, initial)
    requires name in ConceptNames(t) && concept == ConceptCases(t, name)
    requires multiset(conditions) <= multiset(initial)
    requires temp == Cover(t, show, conditions) && temp <= concept
    ensures Recorded(t, show, initial, rule, conditions)
    ensures rule.target == (t.decision, name) && rule.coverage == temp
  {
    forall c | c in conditions ensures c in initial {
      assert c in multiset(conditions);
    }
    var simplified := SimplifyRule(index, |t.rows|, concept, conditions);
    rule := Rule(simplified, (t.decision, name), temp);
  }

  /** Recording a finished rule: simplify it, add its coverage to the covered cases and
      append it to the rule list (lines 187-199). */
  method CloseRule(t: Table, show: real -> string, initial: seq<Pair>, index: map<Pair, set<nat>>,
                   concept: set<nat>, name: string, conditions: seq<Pair>, temp: set<nat>,
                   covered0: set<nat>, rules0: seq<Rule>) returns (covered: set<nat>, rules: seq<Rule>)
    requires WellFormed(t) && index == MatchIndex(t, show, initial)
    requires name in ConceptNames(t) && concept == ConceptCases(t, name)
    requires multiset(conditions) <= multiset(initial)
    requires temp == Cover(t, show, conditions) && temp <= concept
    requires covered0 == RuleUnion(rules0) && AllRecorded(t, show, initial, rules0)
    ensures covered == covered0 + temp && covered == RuleUnion(rules)
    ensures |rules| == |rules0| + 1 && rules[..|rules0|] == rules0
    ensures rules[|rules0|].target == (t.decision, name) && rules[|rules0|].coverage == temp
    ensures Recorded(t, show, initial, rules[|rules0|], conditions)
    ensures AllRecorded(t, show, initial, rules)
  {
    var rule := RecordRule(t, show, initial, index, concept, name, conditions, temp);
    AllRecordedSnoc(t, show, initial, rules0, rule, conditions);
    RuleUnionSnoc(rules0, rule);
    covered := covered0 + temp;
    rules := rules0 + [rule];
    assert rules[..|rules0|] == rules0;
  }

  /** Lines 176-177: score the working list against the goal and pick the best entry,
      or fail as `get_best_intersection` does on fewer than two candidates. */
  method ChooseCondition(current: set<nat>, sets: seq<set<nat>>) returns (err: Option<Error>, bestIndex: nat)
    ensures err.Some? <==> |sets| < 2
    ensures err.Some? ==> err.value == TooFewCandidates
    ensures err.None? ==> bestIndex < |sets| && IsBest(IntsAndCards(current, sets), bestIndex)
  {
    var intsAndCards := IntsAndCards(current, sets);
    if |intsAndCards| < 2 {
      return Some(TooFewCandidates), 0;
    }
    var best := BestIntersection(intsAndCards);
    return None, best.0;
  }

  /** The state of the loop for one concept at each loop head: the goal lies inside the
      concept and inside the running intersection, which is the cover of the partial
      rule; the working lists are aligned and, together with the partial rule, a
      sub-multiset of the initial pairs; the earlier rules are kept, covered_cases only
      grows and is the union of the recorded coverages, and every rule is recorded. */
  ghost predicate Working(t: Table, show: real -> string, initial: seq<Pair>, concept: set<nat>,
                          covered0: set<nat>, rules0: seq<Rule>,
                          current: set<nat>, temp: set<nat>, conditions: seq<Pair>,
                          pairs: seq<Pair>, sets: seq<set<nat>>, covered: set<nat>, rules: seq<Rule>)
    requires WellFormed(t)
  {
    current <= concept && current <= temp
    && temp == Cover(t, show, conditions)
    && Aligned(t, show, pairs, sets)
    && multiset(conditions) + multiset(pairs) <= multiset(initial)
    && covered == RuleUnion(rules) && covered0 <= covered
    && |rules0| <= |rules| && rules[..|rules0|] == rules0
    && AllRecorded(t, show, initial, rules)
  }

  /** The setting of a real run: the initial list is the table's candidate conditions,
      and `float()` rejects range text. */
  ghost predicate StandardRun(t: Table, nums: Numerals, initial: seq<Pair>)
    requires WellFormed(t)
  {
    AvPairs(nums, t) == Success(initial) && RejectsRangeText(nums.parse)
  }

  /** A range on an attribute whose column parses matches no case: its text contains
      "..", and every raw value of the column is a missing marker or a number. */
  lemma RangeMatchesNothing(t: Table, nums: Numerals, a: string, lo: real, hi: real)
    requires HasColumn(t.rows, a) && ParseColumn(nums.parse, t.rows, a).Success?
    requires RejectsRangeText(nums.parse)
    ensures MatchSet(t, nums.show, Pair(a, Range(lo, hi))) == {}
  {
    ParseColumnValues(nums.parse, t.rows, a);
    forall i | 0 <= i < |t.rows| && a in t.rows[i] ensures !HasDots(t.rows[i][a]) {
      if !IsMissing(t.rows[i][a]) {
        assert nums.parse(t.rows[i][a]).Some?;
      }
    }
    RangeMatchesOnlyItsText(t, nums.show, a, lo, hi);
  }

  /** Case k of the goal has its own value `Case(t, k)[a]` on a symbolic attribute as a
      candidate. If no working pair matches k, that candidate is in the partial rule, so
      every case the rule covers has k's value on `a`, and a symbolic pair on `a` that
      misses k misses all of them. */
  lemma SymbolicPairMissesRule(t: Table, nums: Numerals, initial: seq<Pair>, conditions: seq<Pair>,
                               pairs: seq<Pair>, current: set<nat>, k: nat, best: Pair)
    requires WellFormed(t) && AvPairs(nums, t) == Success(initial)
    requires multiset(conditions) + multiset(pairs) == multiset(initial)
    requires k in current && current <= Cover(t, nums.show, conditions)
    requires forall p :: p in pairs ==> MatchSet(t, nums.show, p) * current == {}
    requires best.attribute in t.attributes && !IsNumeric(t, best.attribute) && best.value.Sym?
    requires k !in MatchSet(t, nums.show, best)
    ensures MatchSet(t, nums.show, best) * Cover(t, nums.show, conditions) == {}
  {
    var show := nums.show;
    var a := best.attribute;
    var own := Pair(a, Sym(Case(t, k)[a]));
    PairsOfHasOwnValue(nums, t, t.attributes, a, k - 1);
    assert own in multiset(initial);
    assert k in MatchSet(t, show, own) * current;
    assert own in multiset(conditions);
    forall k' | k' in Cover(t, show, conditions) ensures k' !in MatchSet(t, show, best) {
      assert Holds(Case(t, k'), own, show);
    }
  }

  /** A candidate condition is on a condition attribute; on a symbolic one if it is
      symbolic, and on one whose column parses if it is a range. */
  lemma CandidateKind(t: Table, nums: Numerals, initial: seq<Pair>, p: Pair)
    requires WellFormed(t) && AvPairs(nums, t) == Success(initial) && p in initial
    ensures p.attribute in t.attributes
    ensures p.value.Sym? ==> !IsNumeric(t, p.attribute)
    ensures p.value.Range? ==> ParseColumn(nums.parse, t.rows, p.attribute).Success?
  {
    PairsOfKinds(nums, t, t.attributes);
    PairsOfAttributes(nums, t, t.attributes);
  }

  /** If no working pair matches a case of the goal, the chosen pair matches nothing the
      partial rule covers, so the running intersection becomes empty. */
  lemma UnscoredPairMissesRule(t: Table, nums: Numerals, initial: seq<Pair>, conditions: seq<Pair>,
                               pairs: seq<Pair>, current: set<nat>, best: Pair)
    requires WellFormed(t) && StandardRun(t, nums, initial)
    requires multiset(conditions) + multiset(pairs) == multiset(initial)
    requires current <= Cover(t, nums.show, conditions) && current != {}
    requires forall p :: p in pairs ==> MatchSet(t, nums.show, p) * current == {}
    requires best in pairs
    ensures MatchSet(t, nums.show, best) * Cover(t, nums.show, conditions) == {}
  {
    var k :| k in current;
    assert best in multiset(initial) by {
      assert best in multiset(pairs);
    }
    CandidateKind(t, nums, initial, best);
    var missed := MatchSet(t, nums.show, best);
    assert missed * current == {};
    assert (k in missed) == (k in missed * current);
    if best.value.Sym? {
      SymbolicPairMissesRule(t, nums, initial, conditions, pairs, current, k, best);
    } else {
      RangeMatchesNothing(t, nums, best.attribute, best.value.lo, best.value.hi);
    }
  }

  /** Narrowing never empties the goal: when the chosen pair does not complete the rule,
      it shares a case with the goal, because the best pair scores zero only if every
      pair does, and then the running intersection becomes empty. */
  lemma NarrowingKeepsGoal(t: Table, nums: Numerals, initial: seq<Pair>, conditions: seq<Pair>,
                           pairs: seq<Pair>, sets: seq<set<nat>>, current: set<nat>, bestIndex: nat)
    requires WellFormed(t) && StandardRun(t, nums, initial)
    requires Aligned(t, nums.show, pairs, sets)
    requires multiset(conditions) + multiset(pairs) == multiset(initial)
    requires current <= Cover(t, nums.show, conditions) && current != {}
    requires bestIndex < |sets| && IsBest(IntsAndCards(current, sets), bestIndex)
    ensures sets[bestIndex] * Cover(t, nums.show, conditions) <= current || sets[bestIndex] * current != {}
  {
    var cs := IntsAndCards(current, sets);
    if sets[bestIndex] * current == {} {
      assert current * sets[bestIndex] == {};
      assert |cs[bestIndex].inter| == 0;
      forall p | p in pairs ensures MatchSet(t, nums.show, p) * current == {} {
        var j := IndexOf(pairs, p);
        assert !Beats(cs[j], cs[bestIndex]);
        assert |cs[j].inter| == 0;
        assert current * sets[j] == {};
      }
      UnscoredPairMissesRule(t, nums, initial, conditions, pairs, current, pairs[bestIndex]);
    }
  }

  /** One pass of the loop body: either the narrowed goal closes a rule (lines 184-191)
      or the best pair moves into the partial rule (lines 193-207). */
  ghost predicate GrowStep(t: Table, initial: seq<Pair>, initialSets: seq<set<nat>>, concept: set<nat>, name: string,
                           current0: set<nat>, temp0: set<nat>, conditions0: seq<Pair>, pairs0: seq<Pair>,
                           sets0: seq<set<nat>>, covered1: set<nat>, rules1: seq<Rule>, bestIndex: nat,
                           current: set<nat>, temp: set<nat>, conditions: seq<Pair>,
                           pairs: seq<Pair>, sets: seq<set<nat>>, covered: set<nat>, rules: seq<Rule>)
    requires bestIndex < |sets0| && bestIndex < |pairs0|
  {
    var narrowed := sets0[bestIndex] * temp0;
    if narrowed <= current0 then
      && pairs == initial && sets == initialSets && conditions == [] && temp == Universe(|t.rows|)
      && covered == covered1 + narrowed && current == concept - covered
      && |rules| == |rules1| + 1 && rules[..|rules1|] == rules1
      && rules[|rules1|].target == (t.decision, name) && rules[|rules1|].coverage == narrowed
    else
      && pairs == pairs0[..bestIndex] + pairs0[bestIndex + 1..]
      && sets == sets0[..bestIndex] + sets0[bestIndex + 1..]
      && conditions == conditions0 + [pairs0[bestIndex]] && temp == narrowed
      && current == current0 * narrowed && covered == covered1 && rules == rules1
  }

  /** One pass of the loop body after the choice (lines 178-207): append the chosen pair;
      if the running intersection now lies inside the goal, record the rule and start
      over, otherwise narrow the goal and delete the pair from both working lists. */
  method Grow(t: Table, show: real -> string, initial: seq<Pair>, initialSets: seq<set<nat>>,
              index: map<Pair, set<nat>>, concept: set<nat>, name: string,
              covered0: set<nat>, rules0: seq<Rule>,
              current0: set<nat>, temp0: set<nat>, conditions0: seq<Pair>,
              pairs0: seq<Pair>, sets0: seq<set<nat>>, covered1: set<nat>, rules1: seq<Rule>, bestIndex: nat)
    returns (current: set<nat>, temp: set<nat>, conditions: seq<Pair>,
             pairs: seq<Pair>, sets: seq<set<nat>>, covered: set<nat>, rules: seq<Rule>)
    requires WellFormed(t)
    requires Aligned(t, show, initial, initialSets) && index == MatchIndex(t, show, initial)
    requires name in ConceptNames(t) && concept == ConceptCases(t, name)
    requires Working(t, show, initial, concept, covered0, rules0, current0, temp0, conditions0, pairs0, sets0, covered1, rules1)
    requires bestIndex < |sets0|
    ensures Working(t, show, initial, concept, covered0, rules0, current, temp, conditions, pairs, sets, covered, rules)
    ensures GrowStep(t, initial, initialSets, concept, name, current0, temp0, conditions0, pairs0, sets0, covered1, rules1,
                     bestIndex, current, temp, conditions, pairs, sets, covered, rules)
  {
    var n := |t.rows|;
    var bestSet := sets0[bestIndex];
    var condition := pairs0[bestIndex];
    MoveCondition(conditions0, pairs0, bestIndex);
    CoverSnoc(t, show, conditions0, condition);
    conditions := conditions0 + [condition];
    temp := bestSet * temp0;
    if temp <= current0 {
      covered, rules := CloseRule(t, show, initial, index, concept, name, conditions, temp, covered1, rules1);
      assert rules[..|rules0|] == rules1[..|rules0|];
      current := concept - covered;
      pairs := initial;
      sets := initialSets;
      conditions := [];
      temp := Universe(n);
      CoverEmpty(t, show);
    } else {
      current := current0 * temp;
      AlignedDelete(t, show, pairs0, sets0, bestIndex);
      sets := sets0[..bestIndex] + sets0[bestIndex + 1..];
      pairs := pairs0[..bestIndex] + pairs0[bestIndex + 1..];
      covered, rules := covered1, rules1;
    }
  }

  /** What a real run adds to the loop state: the partial rule and the working list
      together are exactly the initial list, and the goal is empty only once the whole
      concept is covered and the working lists are the initial ones again. */
  ghost predicate Tight(initial: seq<Pair>, initialSets: seq<set<nat>>, concept: set<nat>, current: set<nat>,
                        conditions: seq<Pair>, pairs: seq<Pair>, sets: seq<set<nat>>, covered: set<nat>)
  {
    multiset(conditions) + multiset(pairs) == multiset(initial)
    && (current == {} ==> concept <= covered && pairs == initial && sets == initialSets)
  }

  /** In a real run a pass of the loop keeps the loop state tight: a pass that does not
      close a rule leaves some case of the goal matched, so the goal empties only when a
      rule closes and the lists start over from the initial ones. */
  lemma GrowKeepsTight(t: Table, nums: Numerals, initial: seq<Pair>, initialSets: seq<set<nat>>,
                       concept: set<nat>, name: string,
                       current0: set<nat>, temp0: set<nat>, conditions0: seq<Pair>, pairs0: seq<Pair>,
                       sets0: seq<set<nat>>, covered1: set<nat>, rules1: seq<Rule>, bestIndex: nat,
                       current: set<nat>, temp: set<nat>, conditions: seq<Pair>,
                       pairs: seq<Pair>, sets: seq<set<nat>>, covered: set<nat>, rules: seq<Rule>)
    requires WellFormed(t) && StandardRun(t, nums, initial)
    requires current0 <= temp0 && temp0 == Cover(t, nums.show, conditions0) && Aligned(t, nums.show, pairs0, sets0)
    requires Tight(initial, initialSets, concept, current0, conditions0, pairs0, sets0, covered1) && current0 != {}
    requires bestIndex < |sets0| && IsBest(IntsAndCards(current0, sets0), bestIndex)
    requires GrowStep(t, initial, initialSets, concept, name, current0, temp0, conditions0, pairs0, sets0, covered1, rules1,
                      bestIndex, current, temp, conditions, pairs, sets, covered, rules)
    ensures Tight(initial, initialSets, concept, current, conditions, pairs, sets, covered)
  {
    var narrowed := sets0[bestIndex] * temp0;
    if !(narrowed <= current0) {
      NarrowingKeepsGoal(t, nums, initial, conditions0, pairs0, sets0, current0, bestIndex);
      assert current == sets0[bestIndex] * current0 by {
        assert current == current0 * narrowed;
      }
      assert current != {};
      var p := pairs0[bestIndex];
      DeleteAt(pairs0, bestIndex);
      assert multiset(pairs) == multiset(pairs0) - multiset{p};
      assert multiset(conditions) == multiset(conditions0) + multiset{p};
      assert p in multiset(pairs0);
      assert multiset(conditions) + multiset(pairs) == multiset(initial);
    } else {
      assert pairs == initial && sets == initialSets && current == concept - covered;
      if current == {} {
        forall k | k in concept ensures k in covered {
          assert k !in current;
        }
      }
      assert multiset(conditions) + multiset(pairs) == multiset(initial);
    }
  }

  /** The `while len(current_concept) != 0` loop for one concept (lines 170-207), with a
      step budget `fuel0`. The working lists and the covered cases carry over from the
      previous concept, as in the source. In a real run that starts from the initial
      lists, a normal exit leaves the whole concept covered and the initial lists back
      in place. */
  method InduceConcept(t: Table, nums: Numerals, initial: seq<Pair>, initialSets: seq<set<nat>>,
                       index: map<Pair, set<nat>>, concept: set<nat>, name: string,
                       pairs0: seq<Pair>, sets0: seq<set<nat>>, covered0: set<nat>, rules0: seq<Rule>, fuel0: nat)
    returns (err: Option<Error>, pairs: seq<Pair>, sets: seq<set<nat>>, covered: set<nat>, rules: seq<Rule>, fuel: nat)
    requires WellFormed(t)
    requires Aligned(t, nums.show, initial, initialSets) && index == MatchIndex(t, nums.show, initial)
    requires name in ConceptNames(t) && concept == ConceptCases(t, name)
    requires Aligned(t, nums.show, pairs0, sets0) && multiset(pairs0) <= multiset(initial)
    requires covered0 == RuleUnion(rules0) && AllRecorded(t, nums.show, initial, rules0)
    ensures Aligned(t, nums.show, pairs, sets) && multiset(pairs) <= multiset(initial)
    ensures covered == RuleUnion(rules) && covered0 <= covered
    ensures |rules0| <= |rules| && rules[..|rules0|] == rules0
    ensures AllRecorded(t, nums.show, initial, rules)
    ensures err.Some? ==> err.value == TooFewCandidates || err.value == OutOfFuel
    ensures StandardRun(t, nums, initial) && pairs0 == initial && sets0 == initialSets && err.None? ==>
      pairs == initial && sets == initialSets && concept <= covered
  {
    var show := nums.show;
    ghost var tight := StandardRun(t, nums, initial) && pairs0 == initial && sets0 == initialSets;
    pairs, sets, covered, rules, fuel := pairs0, sets0, covered0, rules0, fuel0;
    var current := concept;
    var temp := Universe(|t.rows|);
    var conditions: seq<Pair> := [];
    CoverEmpty(t, show);
    while |current| != 0
      invariant Working(t, show, initial, concept, covered0, rules0, current, temp, conditions, pairs, sets, covered, rules)
      invariant tight ==> Tight(initial, initialSets, concept, current, conditions, pairs, sets, covered)
      decreases fuel
    {
      if fuel == 0 {
        err := Some(OutOfFuel);
        return;
      }
      fuel := fuel - 1;
      var failed, bestIndex := ChooseCondition(current, sets);
      if failed.Some? {
        err := failed;
        return;
      }
      ghost var current1, temp1, conditions1, pairs1, sets1, covered1, rules1 := current, temp, conditions, pairs, sets, covered, rules;
      current, temp, conditions, pairs, sets, covered, rules :=
        Grow(t, show, initial, initialSets, index, concept, name, covered0, rules0,
             current, temp, conditions, pairs, sets, covered, rules, bestIndex);
      if tight {
        GrowKeepsTight(t, nums, initial, initialSets, concept, name,
                       current1, temp1, conditions1, pairs1, sets1, covered1, rules1, bestIndex,
                       current, temp, conditions, pairs, sets, covered, rules);
      }
    }
    err := None;
  }

  /** The cases of the first `c` concepts. */
  function ConceptsUpTo(t: Table, c: nat): set<nat>
    requires WellFormed(t) && c <= |ConceptNames(t)|
  {
    if c == 0 then {} else ConceptsUpTo(t, c - 1) + ConceptCases(t, ConceptNames(t)[c - 1])
  }

  /** Together the concepts hold exactly the cases 1..n. */
  lemma {:induction false} ConceptsUpToAll(t: Table, c: nat)
    requires WellFormed(t) && c <= |ConceptNames(t)|
    ensures ConceptsUpTo(t, c) <= Universe(|t.rows|)
    ensures forall i, k :: 0 <= i < c && k in ConceptCases(t, ConceptNames(t)[i]) ==> k in ConceptsUpTo(t, c)
  {
    if c > 0 {
      ConceptsUpToAll(t, c - 1);
    }
  }

  /** Rules recorded for the concepts, once every concept lies inside what they cover,
      cover exactly the cases 1..n. */
  lemma RecordedCoverAll(t: Table, show: real -> string, initial: seq<Pair>, rules: seq<Rule>)
    requires WellFormed(t) && AllRecorded(t, show, initial, rules)
    requires ConceptsUpTo(t, |ConceptNames(t)|) <= RuleUnion(rules)
    ensures RuleUnion(rules) == Universe(|t.rows|)
  {
    var names := ConceptNames(t);
    RuleUnionMembers(rules);
    forall k | k in RuleUnion(rules) ensures k in Universe(|t.rows|) {
      var j :| 0 <= j < |rules| && k in rules[j].coverage;
      assert rules[j] in rules;
      var d :| Recorded(t, show, initial, rules[j], d);
      assert k in ConceptCases(t, rules[j].target.1);
    }
    ConceptsPartition(t);
    ConceptsUpToAll(t, |names|);
    forall k | k in Universe(|t.rows|) ensures k in RuleUnion(rules) {
      var i :| 0 <= i < |names| && k in CasesOf(t.rows, t.decision, names[i]);
      ConceptListIsConcept(t, names[i]);
      assert k in ConceptCases(t, names[i]);
    }
  }

  /** The induction part of `mlem2` (lines 157-207): concepts, candidate conditions,
      their match sets, the dictionary, then one induction loop per concept, sharing a
      budget of `fuel` loop iterations. When `float` accepts no text of a range, the
      induced rules cover exactly the cases 1..n. */
  method Induce(t: Table, nums: Numerals, fuel: nat) returns (r: Result<seq<Rule>>)
    requires WellFormed(t)
    ensures AvPairs(nums, t).Failure? ==> r == Failure(AvPairs(nums, t).error)
    ensures r.Success? ==> AvPairs(nums, t).Success? && AllRecorded(t, nums.show, AvPairs(nums, t).value, r.value)
    ensures r.Failure? && AvPairs(nums, t).Success? ==> r.error == TooFewCandidates || r.error == OutOfFuel
    ensures r.Success? && RejectsRangeText(nums.parse) ==> RuleUnion(r.value) == Universe(|t.rows|)
  {
    var show := nums.show;
    var concepts, names := GetConcepts(t);
    var av := AttributeValuePairs(t, nums);
    if av.Failure? {
      return Failure(av.error);
    }
    var initial := av.value;
    PairsOfAttributes(nums, t, t.attributes);
    var initialSets := GetSetAvPairs(t, show, initial);
    var pairs := initial;
    var sets := initialSets;
    var index := BuildIndex(pairs, sets);
    ZipMapAligned(t, show, pairs, sets);
    var covered: set<nat> := {};
    var rules: seq<Rule> := [];
    var steps := fuel;
    ghost var standard := RejectsRangeText(nums.parse);
    for c := 0 to |concepts|
      invariant Aligned(t, show, pairs, sets) && multiset(pairs) <= multiset(initial)
      invariant covered == RuleUnion(rules)
      invariant AllRecorded(t, show, initial, rules)
      invariant standard ==> pairs == initial && sets == initialSets && ConceptsUpTo(t, c) <= covered
    {
      var concept := set k | k in concepts[c];
      ConceptListIsConcept(t, names[c]);
      var err;
      err, pairs, sets, covered, rules, steps :=
        InduceConcept(t, nums, initial, initialSets, index, concept, names[c], pairs, sets, covered, rules, steps);
      if err.Some? {
        return Failure(err.value);
      }
      assert standard ==> StandardRun(t, nums, initial);
    }
    if standard {
      RecordedCoverAll(t, show, initial, rules);
    }
    return Success(rules);
  }

  /** Whether the case satisfies every condition of the rule. */
  predicate AllHold(row: Row, conds: seq<Pair>, show: real -> string)
  {
    forall c :: c in conds ==> Holds(row, c, show)
  }

  /** Whether the case carries the rule's decision value. */
  predicate Concludes(row: Row, target: (string, string))
  {
    target.0 in row && row[target.0] == target.1
  }

  /** The cases among 1..m whose raw values satisfy every condition. */
  function MatchedUpTo(t: Table, show: real -> string, conds: seq<Pair>, m: nat): set<nat>
  {
    set k: nat | 1 <= k <= m && k <= |t.rows| && AllHold(Case(t, k), conds, show)
  }

  /** The cases among 1..m that the rule matches and whose decision is the rule's. */
  function CorrectUpTo(t: Table, show: real -> string, r: Rule, m: nat): set<nat>
  {
    set k: nat | 1 <= k <= m && k <= |t.rows| && AllHold(Case(t, k), r.conditions, show) && Concludes(Case(t, k), r.target)
  }

  lemma MatchedIsCover(t: Table, show: real -> string, conds: seq<Pair>)
    ensures MatchedUpTo(t, show, conds, |t.rows|) == Cover(t, show, conds)
  {
  }

  /** A sound rule is always right on the cases it matches: its strength equals the
      number of cases it matches. */
  lemma StrengthIsCoverage(t: Table, show: real -> string, initial: seq<Pair>, r: Rule)
    requires WellFormed(t) && Sound(t, show, initial, r)
    ensures CorrectUpTo(t, show, r, |t.rows|) == Cover(t, show, r.conditions)
  {
    forall k | k in Cover(t, show, r.conditions) ensures k in CorrectUpTo(t, show, r, |t.rows|) {
      assert k in ConceptCases(t, r.target.1);
    }
  }

  /** The inner loop of the statistics: walk the conditions and stop at the first that fails. */
  method MatchesRow(row: Row, conds: seq<Pair>, show: real -> string) returns (m: bool)
    requires forall c :: c in conds ==> c.attribute in row
    ensures m <==> AllHold(row, conds, show)
  {
    m := true;
    var j := 0;
    while j < |conds|
      invariant j <= |conds|
      invariant forall i :: 0 <= i < j ==> Holds(row, conds[i], show)
    {
      if row[conds[j].attribute] != Text(conds[j].value, show) {
        assert conds[j] in conds && !Holds(row, conds[j], show);
        m := false;
        break;
      }
      j := j + 1;
    }
    if m {
      forall c | c in conds ensures Holds(row, c, show) {
        var i := IndexOf(conds, c);
      }
    }
  }

  /** Counting case j + 1: the case has every attribute the rule tests; it adds one to the
      matched cases iff it satisfies every condition, and one to the correctly matched
      ones iff it also carries the rule's decision. */
  lemma StatisticsStep(t: Table, show: real -> string, r: Rule, j: nat)
    requires WellFormed(t) && j < |t.rows|
    requires forall c :: c in r.conditions ==> c.attribute in t.attributes
    ensures forall c :: c in r.conditions ==> c.attribute in t.rows[j]
    ensures |MatchedUpTo(t, show, r.conditions, j + 1)| ==
      |MatchedUpTo(t, show, r.conditions, j)| + (if AllHold(t.rows[j], r.conditions, show) then 1 else 0)
    ensures |CorrectUpTo(t, show, r, j + 1)| ==
      |CorrectUpTo(t, show, r, j)| + (if AllHold(t.rows[j], r.conditions, show) && Concludes(t.rows[j], r.target) then 1 else 0)
  {
    assert Case(t, j + 1) == t.rows[j];
    assert j + 1 !in MatchedUpTo(t, show, r.conditions, j) && j + 1 !in CorrectUpTo(t, show, r, j);
    assert MatchedUpTo(t, show, r.conditions, j + 1) ==
      MatchedUpTo(t, show, r.conditions, j) + (if AllHold(t.rows[j], r.conditions, show) then {j + 1} else {});
    assert CorrectUpTo(t, show, r, j + 1) ==
      CorrectUpTo(t, show, r, j) + (if AllHold(t.rows[j], r.conditions, show) && Concludes(t.rows[j], r.target) then {j + 1} else {});
  }

  /** The statistics printed for a rule (lines 229-241): its number of conditions, the
      number of cases it matches that carry its decision, and the number it matches. */
  method RuleStatistics(t: Table, show: real -> string, rule: Rule) returns (specificity: nat, strength: nat, coverage: nat)
    requires WellFormed(t) && HasColumn(t.rows, rule.target.0)
    requires forall c :: c in rule.conditions ==> c.attribute in t.attributes
    ensures specificity == |rule.conditions|
    ensures coverage == |Cover(t, show, rule.conditions)|
    ensures strength == |CorrectUpTo(t, show, rule, |t.rows|)|
    ensures strength <= coverage
  {
    specificity := |rule.conditions|;
    strength := 0;
    coverage := 0;
    for j := 0 to |t.rows|
      invariant coverage == |MatchedUpTo(t, show, rule.conditions, j)|
      invariant strength == |CorrectUpTo(t, show, rule, j)|
      invariant strength <= coverage
    {
      var row := t.rows[j];
      StatisticsStep(t, show, rule, j);
      var m := MatchesRow(row, rule.conditions, show);
      if m {
        coverage := coverage + 1;
        if row[rule.target.0] == rule.target.1 {
          strength := strength + 1;
        }
      }
    }
    MatchedIsCover(t, show, rule.conditions);
  }

  /** A rule with the statistics printed for it. */
  datatype Report = Report(rule: Rule, specificity: nat, strength: nat, coverage: nat)

  /** The rules of the reports, in order. */
  function RulesOf(reports: seq<Report>): (rs: seq<Rule>)
    ensures |rs| == |reports| && forall i :: 0 <= i < |reports| ==> rs[i] == reports[i].rule
  {
    if reports == [] then [] else RulesOf(reports[..|reports| - 1]) + [reports[|reports| - 1].rule]
  }

  lemma RulesOfSnoc(reports: seq<Report>, report: Report, rules: seq<Rule>, i: nat)
    requires i < |rules| && RulesOf(reports) == rules[..i] && report.rule == rules[i]
    ensures RulesOf(reports + [report]) == rules[..i + 1]
  {
    assert (reports + [report])[..|reports|] == reports;
  }

  /** `mlem2` on a table already parsed: induce rules, drop redundant rules, and compute
      each remaining rule's statistics. The reported rules are, in order, the simplified
      list of rules recorded by the induction; every one is sound and is right on every
      case it matches; when `float` accepts no text of a range, they cover every case. */
  method Mlem2(t: Table, nums: Numerals, fuel: nat) returns (r: Result<seq<Report>>)
    requires WellFormed(t)
    ensures AvPairs(nums, t).Failure? ==> r == Failure(AvPairs(nums, t).error)
    ensures r.Failure? && AvPairs(nums, t).Success? ==> r.error == TooFewCandidates || r.error == OutOfFuel
    ensures r.Success? ==> AvPairs(nums, t).Success?
    ensures r.Success? ==> forall rep :: rep in r.value ==>
      Sound(t, nums.show, AvPairs(nums, t).value, rep.rule)
      && rep.specificity == |rep.rule.conditions|
      && rep.coverage == |Cover(t, nums.show, rep.rule.conditions)|
      && rep.strength == rep.coverage
    ensures r.Success? && NoDuplicates(t.attributes) ==>
      forall rep :: rep in r.value ==> NoDuplicates(rep.rule.conditions)
    ensures r.Success? ==> exists induced ::
      && AllRecorded(t, nums.show, AvPairs(nums, t).value, induced)
      && (RejectsRangeText(nums.parse) ==> RuleUnion(induced) == Universe(|t.rows|))
      && RulesOf(r.value) == RuleScan(induced, |t.rows|, 0)
    ensures r.Success? && RejectsRangeText(nums.parse) ==> Universe(|t.rows|) <= RuleUnion(RulesOf(r.value))
  {
    var induced := Induce(t, nums, fuel);
    if induced.Failure? {
      return Failure(induced.error);
    }
    var initial := AvPairs(nums, t).value;
    PairsOfAttributes(nums, t, t.attributes);
    if NoDuplicates(t.attributes) {
      PairsOfDistinct(nums, t, t.attributes);
    }
    var rules := SimplifyRuleset(induced.value, |t.rows|);
    var reports: seq<Report> := [];
    for i := 0 to |rules|
      invariant forall rep :: rep in reports ==>
        Sound(t, nums.show, initial, rep.rule)
        && rep.specificity == |rep.rule.conditions|
        && rep.coverage == |Cover(t, nums.show, rep.rule.conditions)|
        && rep.strength == rep.coverage
      invariant NoDuplicates(t.attributes) ==>
        forall rep :: rep in reports ==> NoDuplicates(rep.rule.conditions)
      invariant RulesOf(reports) == rules[..i]
    {
      var rule := rules[i];
      assert rule in multiset(induced.value) by {
        assert rule in multiset(rules);
      }
      assert rule in induced.value;
      ghost var draft :| Recorded(t, nums.show, initial, rule, draft);
      RecordedIsSound(t, nums.show, initial, rule, draft);
      StrengthForSound(t, nums.show, initial, rule);
      if NoDuplicates(t.attributes) {
        SubMultisetNoDuplicates(rule.conditions, initial);
      }
      var specificity, strength, coverage := RuleStatistics(t, nums.show, rule);
      var report := Report(rule, specificity, strength, coverage);
      RulesOfSnoc(reports, report, rules, i);
      reports := reports + [report];
    }
    assert rules[..|rules|] == rules;
    if RejectsRangeText(nums.parse) {
      RuleScanKeepsCoverage(induced.value, |t.rows|, 0);
    }
    return Success(reports);
  }

  /** A sound rule over the initial conditions meets the preconditions of the statistics,
      and its strength and coverage agree. */
  lemma StrengthForSound(t: Table, show: real -> string, initial: seq<Pair>, r: Rule)
    requires WellFormed(t) && Sound(t, show, initial, r)
    requires forall p :: p in initial ==> p.attribute in t.attributes
    ensures HasColumn(t.rows, r.target.0)
    ensures forall c :: c in r.conditions ==> c.attribute in t.attributes
    ensures |CorrectUpTo(t, show, r, |t.rows|)| == |Cover(t, show, r.conditions)|
  {
    StrengthIsCoverage(t, show, initial, r);
    forall c | c in r.conditions ensures c.attribute in t.attributes {
      assert c in multiset(r.conditions);
    }
  }
}
