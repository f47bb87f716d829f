# MLEM2 rule induction, modelled in Dafny

`mlem2.py` induces certain rules from a decision table with MLEM2. Each case of the table
(numbered 1..N in row order) assigns a raw text value to every condition attribute and to
the decision attribute. The program works as follows:

- **Concepts.** It groups the cases into concepts by decision value.
- **Candidate conditions.** It builds candidate attribute-value pairs.
  - A symbolic attribute gives one pair per distinct raw value.
  - A numeric attribute gives two ranges per midpoint cutpoint, anchored at the smallest
    and largest value.
- **Match sets.** It matches each pair against the raw text of every case.
- **Rule growth.** For each concept it grows rules by greedy selection. The best pair has
  the largest intersection with the current goal, then the smallest match set, then the
  first position.
- **Condition drop.** It drops redundant conditions from each rule in one forward pass.
- **Rule drop.** It drops redundant rules from the rule set in one forward pass.
- **Statistics.** For every rule it computes the number of conditions, the number of matched
  cases with the rule's decision, and the number of matched cases.

The modules follow the program's phases:

| module | models |
|---|---|
| `Outcomes` | `Option`, `Result` and the ways a run ends without rules: `float()` rejects a value, `get_best_intersection` has fewer than two candidates, or the model's bound on loop iterations runs out (the program has no such bound; see "Termination" below) |
| `Sequences` | list helpers: first index, first-appearance deduplication (a Python set filled in row order), `list.remove` |
| `DecisionTable` | the table, case numbering, `get_concepts` |
| `Conditions` | numeric-attribute detection, symbolic pairs, cutpoints and ranges (`get_attribute_value_pairs`) |
| `Matching` | match sets (`get_set_av_pairs`) and the cover of a conjunction of conditions |
| `Selection` | `get_ints_and_cards`, the stable descending sort and `get_best_intersection` |
| `Simplification` | the two redundancy scans, with the position-skipping behaviour of `enumerate` while removing |
| `Induction` | the `mlem2` body: the dictionary, the per-concept loop, rule recording and statistics |

`float()` and the `str()` of a float are beyond the model. They form the parameter
`Numerals(parse, show)`. A range condition holds its two bounds as `real`s. A range matches
a case only when the case's raw text equals `show(lo) + ".." + show(hi)`, exactly as the
program compares strings.

## Model

| member | source | states |
|---|---|---|
| DecisionTable.DecisionValues | mlem2.py:41-48 | the decision values, each once, in order of first appearance (`ConceptNames`) |
| Sequences.DistinctProperties | mlem2.py:41-48 | first-appearance deduplication keeps exactly the same elements, has no repeats and keeps the order of first occurrence |
| DecisionTable.GetConcepts | mlem2.py:39-58 | the names are the distinct decision values in first-appearance order; concept i is the list built from the rows whose decision is name i |
| DecisionTable.CasesOfCharacterised | mlem2.py:53-56 | a concept list is strictly ascending, and case k is in it iff row k has that decision value |
| DecisionTable.ConceptListIsConcept | mlem2.py:53-56 | the elements of concept list v are exactly the cases whose decision is v |
| DecisionTable.ConceptsPartition | mlem2.py:39-58 | every case 1..N lies in the concept of some name, and in the concepts of no two different names |
| Conditions.NumericDetection | mlem2.py:63-75 | when position k holds the first non-missing value of an attribute, the attribute is numeric iff that value starts with an optional `-` and a digit |
| Conditions.AllMissingIsSymbolic | mlem2.py:65-75 | an attribute whose values are all `*`, `-` or `?` is not numeric |
| Conditions.NumericAttributes | mlem2.py:63-75 | an attribute is in the result iff it is a condition attribute and numeric |
| Conditions.KnownFloats | mlem2.py:83-87 | the error of the first value (in row order) that `float()` rejects; otherwise the converted non-missing values, each once: x is in the result iff some non-missing value of the column converts to x |
| Conditions.ParseColumnValues | mlem2.py:83-87 | once the column converts, every non-missing value converts, and x is among the converted values iff some non-missing value converts to x |
| Conditions.SortedDistinct | mlem2.py:91 | sorting values without repeats gives a strictly increasing list of the same values |
| Conditions.MidPoints | mlem2.py:89-96 | the cutpoint loop computes the midpoints of adjacent sorted values |
| Conditions.CutpointsBetween | mlem2.py:89-96 | k increasing values give k-1 cutpoints, each strictly between the two values it comes from, so the cutpoints ascend |
| Conditions.Ranges | mlem2.py:98-103 | the range loop gives, for each cutpoint in order, (min..c) then (c..max) |
| Conditions.NumericPairs | mlem2.py:80-103 | the numeric branch gives the attribute's range pairs, or the `float()` error |
| Conditions.SortedValues | mlem2.py:91 | sorting the distinct parsed values gives a strictly increasing list of exactly the parsed values |
| Conditions.RangePairsLength | mlem2.py:98-103 | there are two ranges per cutpoint |
| Conditions.RangePairsDistinct | mlem2.py:98-103 | the ranges of strictly increasing values are pairwise different |
| Conditions.PairsOfDistinct | mlem2.py:77-114 | with distinct attribute names, no candidate condition occurs twice |
| Sequences.SubMultisetNoDuplicates | mlem2.py:182-207 | a list that takes no value more often than a list without repeats has no repeats |
| Conditions.NumericAttributePairs | mlem2.py:80-103 | a numeric attribute with k distinct known values gives 2(k-1) pairs: (min..c_i) at position 2i and (c_i..max) at 2i+1; the values are exactly the converted non-missing values of the column |
| Conditions.RangesFromAreRanges | mlem2.py:98-103 | the range loop yields only range conditions |
| Conditions.AttributePairsKinds | mlem2.py:78-112 | a symbolic attribute yields only symbolic conditions; a numeric one yields only ranges, and only when its whole column converts |
| Conditions.PairsOfKinds | mlem2.py:77-114 | every candidate names a column; a symbolic candidate's attribute is not numeric; a range's attribute is numeric and its column converts |
| Conditions.PairsOfHasOwnValue | mlem2.py:105-112 | for a symbolic attribute, the pair of every case's own raw value is a candidate |
| Conditions.SymbolicValuePairs | mlem2.py:105-112 | the symbolic loop adds one pair per raw value the first time that value is seen |
| Conditions.SymbolicAttributePairs | mlem2.py:105-112 | a symbolic attribute gives pairs without repeats; (a, v) is among them iff v occurs in the column, markers included; they are in order of first appearance |
| Conditions.AttributeValuePairs | mlem2.py:60-114 | the pairs of every attribute in header order, or the first `float()` error |
| Conditions.PairsOfAttributes | mlem2.py:77-114 | every candidate pair names one of the condition attributes |
| Matching.GetSetAvPairs | mlem2.py:116-127 | one set per pair, in order; set i is exactly the cases whose raw value equals pair i's text, and so lies within 1..N |
| Matching.CoverEmpty | mlem2.py:172 | the empty conjunction covers all cases 1..N |
| Matching.CoverSnoc | mlem2.py:182 | adding a condition intersects the running cover with its match set |
| Matching.CoverAntitone | mlem2.py:187-195 | the cover of fewer conditions contains the cover of more |
| Matching.RangeTextHasDots | mlem2.py:101-103 | the text of a range contains ".." |
| Matching.RangeMatchesOnlyItsText | mlem2.py:124 | if no raw value of an attribute contains "..", no range condition on it matches any case |
| Selection.IntsAndCards | mlem2.py:129-137 | one candidate per match set, in order: the intersection with the goal (so inside the goal) and the size of the set |
| Selection.SortDescSorts | mlem2.py:141 | the sort is a permutation of its input in descending key order |
| Selection.SortDescHead | mlem2.py:141 | since the sort is stable, its head is the first entry whose key is largest |
| Selection.FirstBestIsBest | mlem2.py:139-148 | the reference left-to-right scan finds an entry no other entry beats and that beats every earlier entry |
| Selection.FirstWithKey | mlem2.py:143-146 | the tie scan returns the first position whose key equals the top key |
| Selection.BestIntersection | mlem2.py:139-148 | on at least two candidates, both branches return the smallest index whose key (intersection size, minus match-set size) is lexicographically largest, with that candidate |
| Simplification.IndexCoverMembers | mlem2.py:189-192 | case k is in the dictionary cover iff it is in 1..N and in the dictionary entry of every condition |
| Simplification.CoverOf | mlem2.py:189-192 | the inner loop computes the dictionary cover of the other conditions |
| Simplification.DropScan | mlem2.py:187-195 | every condition the drop keeps is one of the rule's conditions |
| Simplification.DropScanShrinks | mlem2.py:187-195 | the condition drop keeps a sub-multiset of the conditions, and the dictionary cover can only grow |
| Simplification.DropScanWithin | mlem2.py:187-195 | if the rule's cover lay inside the concept, it still does after every drop |
| Simplification.DropScanCanLeaveRedundant | mlem2.py:187-195 | after a removal the next condition is never examined, so a redundant condition can remain |
| Simplification.SimplifyRule | mlem2.py:187-195 | the loop with in-place `remove` computes the scan above |
| Simplification.RuleUnionMembers | mlem2.py:217-218 | a case is in the union iff some rule's recorded coverage contains it |
| Simplification.RuleUnionDelete | mlem2.py:214-218 | leaving one rule out of the union can only shrink it |
| Simplification.UnionOf | mlem2.py:214-218 | the inner loop computes the union of the other rules' coverages |
| Simplification.RuleScan | mlem2.py:210-222 | the rule drop keeps a sub-multiset of the rules |
| Simplification.RuleScanKeepsCoverage | mlem2.py:210-222 | a rule set covering all cases 1..N still covers them after the drop |
| Simplification.RuleScanNeedsFullCover | mlem2.py:210-222 | if the rules do not cover all cases 1..N, no rule is removed |
| Simplification.RuleScanCanLeaveRedundant | mlem2.py:210-222 | after a removal the next rule is never examined, so a redundant rule can remain |
| Simplification.SimplifyRuleset | mlem2.py:210-222 | the loop with in-place `remove` computes the rule scan |
| Induction.ZipMapAligned | mlem2.py:163-164 | zipping aligned lists maps each candidate pair to its own match set |
| Induction.BuildIndex | mlem2.py:161-164 | the dictionary loop computes the zip of the two lists |
| Induction.IndexCoverIsCover | mlem2.py:189-192 | for conditions from the initial list, the dictionary cover is their cover in the table |
| Induction.AlignedDelete | mlem2.py:206-207 | deleting the same index from both working lists keeps them aligned |
| Induction.ChooseCondition | mlem2.py:176-177 | fails with `TooFewCandidates` iff there are fewer than two working pairs; otherwise returns a best-scoring index |
| Induction.Grow | mlem2.py:178-207 | a finished rule is recorded for (decision, concept name) with the running intersection as coverage, the working lists are reset to the initial ones and the goal becomes the concept minus the covered cases; otherwise the pair is deleted from both working lists at the same index and the goal is narrowed; the loop invariants are kept |
| Induction.RecordRule | mlem2.py:186-199 | the recorded rule targets (decision, concept name) and has the running intersection as coverage; its coverage is the running intersection of the rule as grown, inside the concept; its conditions are that rule after the one-pass drop |
| Induction.CloseRule | mlem2.py:197-199 | covered_cases grows by exactly the new coverage, the appended rule targets (decision, concept name) with the running intersection as coverage, and covered_cases stays the union of the recorded coverages |
| Induction.RecordedIsSound | mlem2.py:184-199 | a recorded rule uses initial conditions no more often than they occur there; its coverage lies within the cases its final conditions match, and all of those are in its concept |
| Induction.CandidateKind | mlem2.py:77-114 | an initial candidate names a condition attribute; a symbolic one a non-numeric attribute; a range one whose column converts |
| Induction.RangeMatchesNothing | mlem2.py:116-127 | when `float` accepts no text containing "..", a range on a column that converts matches no case |
| Induction.SymbolicPairMissesRule | mlem2.py:176-207 | if a symbolic candidate misses a case k of the goal, it matches no case of the partial rule's cover, since the pair of k's own value is a condition of the partial rule |
| Induction.UnscoredPairMissesRule | mlem2.py:176-207 | if no working pair meets the goal, each of them matches no case of the partial rule's cover |
| Induction.NarrowingKeepsGoal | mlem2.py:176-207 | in a real run the best pair either closes the rule or meets the goal |
| Induction.GrowKeepsTight | mlem2.py:175-207 | in a real run the partial rule and the working list together stay exactly the initial list, and the goal empties only when a rule closes, the concept is covered and the lists are back to the initial ones |
| Induction.InduceConcept | mlem2.py:170-207 | the working lists stay aligned and a sub-multiset of the initial pairs; the earlier rules are kept; covered_cases only grows and is the union of coverages; every rule is recorded as above; failures are the two listed errors; in a real run that starts from the initial lists, a normal exit leaves the concept inside covered_cases and the initial lists in place |
| Induction.ConceptsUpToAll | mlem2.py:170 | the first c concepts hold only cases 1..N and every case of each of them |
| Induction.RecordedCoverAll | mlem2.py:166-207 | recorded rules, once every concept lies inside their union, cover exactly the cases 1..N |
| Induction.Induce | mlem2.py:153-207 | fails exactly as the candidate conditions fail; otherwise every rule is recorded as above from those candidates; any other failure is a lack of candidates or of steps; when `float` accepts no text containing "..", the rules cover exactly the cases 1..N |
| Induction.MatchesRow | mlem2.py:233-237 | the early-exit loop is true iff the case satisfies every condition |
| Induction.StatisticsStep | mlem2.py:232-241 | counting case j+1 adds it to the matched cases iff it satisfies every condition, and to the correct ones iff it also carries the decision |
| Induction.RuleStatistics | mlem2.py:229-241 | the three statistics are the number of conditions, the number of matched cases with the rule's decision, and the number of matched cases; the second is at most the third |
| Induction.StrengthIsCoverage | mlem2.py:229-241 | a sound rule carries its decision on every case it matches |
| Induction.StrengthForSound | mlem2.py:229-241 | a sound rule meets the statistics' preconditions, and its two counts agree |
| Induction.Mlem2 | mlem2.py:153-241 | the whole run fails as the candidate conditions fail; otherwise the reported rules are, in order, the rule drop applied to a list of recorded rules; every reported rule is sound, with correct statistics, and its strength equals its coverage; with distinct attribute names no reported rule repeats a condition; when `float` accepts no text containing "..", the recorded list covers exactly the cases 1..N and the reported rules still cover every case |

The `Induction.InduceConcept` loop also keeps these invariants, which hold at every loop
head and are needed for the proofs: the goal (`current_concept`) lies inside the concept
and inside the running intersection, and the running intersection is the cover of the
partial rule. In a real run (`StandardRun`: the candidates are those of the table and
`float` accepts no text containing "..") the loop keeps one more invariant, `Tight`. The
partial rule plus the working list is exactly the initial list, as a multiset. The goal
is empty only when the concept is covered and the working lists are the initial ones. So
each concept's loop ends with every case of the concept covered. It also leaves the initial
lists for the next concept, which the program does not copy afresh.

## Left out

- Reading the console and the file system (mlem2.py:7-12, 248-251): I/O. The table is an input.
- `parse_lers_file` (mlem2.py:14-37): file reading and format parsing. The table comes already parsed, with every row holding every attribute. `WellFormed` states this and rules out the `KeyError`s.
- Printing (mlem2.py:243-246): output only. `Mlem2` returns the rules with their three statistics.
- `float()` and the text of a float: they are the `Numerals` parameter. The model does not capture which strings Python accepts, NaN or infinity, or the rounding of the midpoint `(a + b) / 2`. The midpoints are exact `real`s.
- The pattern at mlem2.py:5: `\d` is modelled as an ASCII digit. Python also accepts other Unicode digits.
- Interval semantics of ranges: the program compares raw text with the formatted range, and so does the model. A numeric case matches a range only when its text is literally `lo..hi`.
- `deepcopy`: Dafny values are immutable, so a copy is the value itself.
- Termination: the loop at mlem2.py:175 need not end. If the running intersection becomes empty, the program records an empty-coverage rule and repeats the same choice forever. `Induce` and `Mlem2` take a step budget `fuel` and fail with `OutOfFuel` when it runs out. The model says nothing about runs longer than the budget.
- The `IndexError` of `get_best_intersection` with fewer than two candidates (mlem2.py:142) is the `TooFewCandidates` failure of the run.
- Completeness depends on `float()`, which is the parameter `parse`. Coverage of every case is proved under `RejectsRangeText(parse)`: no text containing ".." converts, which holds for Python's `float`. Without it, a row with the literal text of a range could make a numeric case match a range. `Induce`, `InduceConcept` and `Mlem2` then promise soundness only.
- Missing values: the program treats `*`, `-` and `?` as ordinary symbolic values, and skips them only when detecting and discretizing numeric attributes. The model does the same. Missing-value semantics, approximations and characteristic sets are not part of the program.
