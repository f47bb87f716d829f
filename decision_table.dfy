/** The decision table the inducer works on, and the concepts (`get_concepts`) it groups
    the cases into. Case k (1-based) is row k - 1. */
module DecisionTable {
  import opened Sequences

  /** One case: attribute name to raw text. */
  type Row = map<string, string>

  /** Condition attributes in header order, the decision attribute, and the cases in row order. */
  datatype Table = Table(attributes: seq<string>, decision: string, rows: seq<Row>)

  predicate HasColumn(rows: seq<Row>, a: string)
  {
    forall i :: 0 <= i < |rows| ==> a in rows[i]
  }

  /** Every case carries the decision and every condition attribute. */
  predicate WellFormed(t: Table)
  {
    HasColumn(t.rows, t.decision) && forall a :: a in t.attributes ==> HasColumn(t.rows, a)
  }

  /** The case numbers 1..n. */
  function Universe(n: nat): (u: set<nat>)
    ensures forall k :: k in u <==> 1 <= k <= n
  {
    if n == 0 then {} else Universe(n - 1) + {n}
  }

  /** Case number `k`. */
  function Case(t: Table, k: nat): Row
    requires 1 <= k <= |t.rows|
  {
    t.rows[k - 1]
  }

  /** The raw values of attribute `a`, in row order. */
  function Column(rows: seq<Row>, a: string): (col: seq<string>)
    requires HasColumn(rows, a)
    ensures |col| == |rows|
    ensures forall i :: 0 <= i < |rows| ==> col[i] == rows[i][a]
  {
    if rows == [] then [] else Column(rows[..|rows| - 1], a) + [rows[|rows| - 1][a]]
  }

  function Decisions(t: Table): seq<string>
    requires HasColumn(t.rows, t.decision)
  {
    Column(t.rows, t.decision)
  }

  /** The case numbers, ascending, of the rows whose attribute `d` is `v`. */
  function CasesOf(rows: seq<Row>, d: string, v: string): seq<nat>
    requires HasColumn(rows, d)
  {
    if rows == [] then []
    else CasesOf(rows[..|rows| - 1], d, v) + (if rows[|rows| - 1][d] == v then [|rows|] else [])
  }

  /** The concept named `v`: every case whose decision is `v`. */
  function ConceptCases(t: Table, v: string): set<nat>
    requires HasColumn(t.rows, t.decision)
  {
    set k: nat | 1 <= k <= |t.rows| && t.decision in Case(t, k) && Case(t, k)[t.decision] == v
  }

  lemma ColumnSnoc(rows: seq<Row>, a: string, j: nat)
    requires HasColumn(rows, a) && j < |rows|
    ensures Column(rows[..j + 1], a) == Column(rows[..j], a) + [rows[j][a]]
  {
    assert rows[..j + 1][..j] == rows[..j];
  }

  lemma CasesOfSnoc(rows: seq<Row>, d: string, v: string, j: nat)
    requires HasColumn(rows, d) && j < |rows|
    ensures CasesOf(rows[..j + 1], d, v) ==
      CasesOf(rows[..j], d, v) + (if rows[j][d] == v then [j + 1] else [])
  {
    assert rows[..j + 1][..j] == rows[..j];
  }

  /** CasesOf lists exactly the matching case numbers, strictly ascending. */
  lemma {:induction false} CasesOfCharacterised(rows: seq<Row>, d: string, v: string)
    requires HasColumn(rows, d)
    ensures forall i, j :: 0 <= i < j < |CasesOf(rows, d, v)| ==>
      CasesOf(rows, d, v)[i] < CasesOf(rows, d, v)[j]
    ensures forall k: nat :: k in CasesOf(rows, d, v) <==> 1 <= k <= |rows| && rows[k - 1][d] == v
  {
    if rows != [] {
      var p := rows[..|rows| - 1];
      CasesOfCharacterised(p, d, v);
      var cp := CasesOf(p, d, v);
      forall i | 0 <= i < |cp| ensures cp[i] <= |p| { assert cp[i] in cp; }
      forall k: nat
        ensures k in CasesOf(rows, d, v) <==> 1 <= k <= |rows| && rows[k - 1][d] == v
      {
        if 1 <= k < |rows| { assert rows[k - 1] == p[k - 1]; }
      }
    }
  }

  /** The elements of the concept list for `v` are the concept named `v`. */
  lemma ConceptListIsConcept(t: Table, v: string)
    requires HasColumn(t.rows, t.decision)
    ensures (set k | k in CasesOf(t.rows, t.decision, v)) == ConceptCases(t, v)
  {
    CasesOfCharacterised(t.rows, t.decision, v);
  }

  /** The decision values in order of first appearance: the concept names. */
  function ConceptNames(t: Table): seq<string>
    requires HasColumn(t.rows, t.decision)
  {
    Distinct(Decisions(t))
  }

  /** `get_concepts`: the decision values in order of first appearance, and for each the
      ascending list of its case numbers. */
  method GetConcepts(t: Table) returns (concepts: seq<seq<nat>>, names: seq<string>)
    requires WellFormed(t)
    ensures names == ConceptNames(t)
    ensures |concepts| == |names|
    ensures forall i :: 0 <= i < |names| ==> concepts[i] == CasesOf(t.rows, t.decision, names[i])
  {
    var d := t.decision;
    names := DecisionValues(t);
    concepts := seq(|names|, _ => []);
    for i := 0 to |names|
      invariant |concepts| == |names|
      invariant forall i' :: 0 <= i' < i ==> concepts[i'] == CasesOf(t.rows, d, names[i'])
      invariant forall i' :: i <= i' < |names| ==> concepts[i'] == []
    {
      for j := 0 to |t.rows|
        invariant |concepts| == |names|
        invariant concepts[i] == CasesOf(t.rows[..j], d, names[i])
        invariant forall i' :: 0 <= i' < i ==> concepts[i'] == CasesOf(t.rows, d, names[i'])
        invariant forall i' :: i < i' < |names| ==> concepts[i'] == []
      {
        CasesOfSnoc(t.rows, d, names[i], j);
        if t.rows[j][d] == names[i] {
          concepts := concepts[i := concepts[i] + [j + 1]];
        }
      }
      assert t.rows[..|t.rows|] == t.rows;
    }
  }

  /** The first loop of `get_concepts`: each decision value once, in order of first appearance. */
  method DecisionValues(t: Table) returns (names: seq<string>)
    requires WellFormed(t)
    ensures names == ConceptNames(t)
  {
    var d := t.decision;
    ghost var col := Column(t.rows, d);
    var seen: set<string> := {};
    names := [];
    for j := 0 to |t.rows|
      invariant names == Distinct(col[..j])
      invariant forall x :: x in seen <==> x in names
    {
      var v := t.rows[j][d];
      assert col[..j + 1] == col[..j] + [v];
      DistinctSnoc(col[..j], v);
      if v !in seen {
        names := names + [v];
        seen := seen + {v};
      }
    }
    assert col[..|t.rows|] == col;
  }

  /** The concepts partition the cases 1..n: each case lies in the concept of its own
      decision value and in no other. */
  lemma ConceptsPartition(t: Table)
    requires WellFormed(t)
    ensures forall k :: k in Universe(|t.rows|) ==>
      exists i :: 0 <= i < |ConceptNames(t)| && k in CasesOf(t.rows, t.decision, ConceptNames(t)[i])
    ensures forall i, j, k ::
      (0 <= i < |ConceptNames(t)| && 0 <= j < |ConceptNames(t)| &&
       k in CasesOf(t.rows, t.decision, ConceptNames(t)[i]) &&
       k in CasesOf(t.rows, t.decision, ConceptNames(t)[j])) ==> i == j
  {
    var names := ConceptNames(t);
    DistinctProperties(Decisions(t));
    forall v | v in names { CasesOfCharacterised(t.rows, t.decision, v); }
    forall k | k in Universe(|t.rows|)
      ensures exists i :: 0 <= i < |names| && k in CasesOf(t.rows, t.decision, names[i])
    {
      var v := t.rows[k - 1][t.decision];
      assert v == Decisions(t)[k - 1];
      assert v in Decisions(t);
      var i := IndexOf(names, v);
      assert 1 <= k <= |t.rows| && t.rows[k - 1][t.decision] == names[i];
      assert k in CasesOf(t.rows, t.decision, names[i]);
    }
  }
}
