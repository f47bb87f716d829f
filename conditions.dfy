/** Candidate conditions (`get_attribute_value_pairs`): which attributes are numeric, the
    pairs of a symbolic attribute, and the cutpoint ranges of a numeric one. */
module Conditions {
  import opened Outcomes
  import opened Sequences
  import opened DecisionTable

  /** The float conversions the source relies on: `parse` is `float()` applied to raw
      text (None where it raises ValueError), `show` is `str()` of a float. */
  datatype Numerals = Numerals(parse: string -> Option<real>, show: real -> string)

  /** The value of a condition: raw text for a symbolic attribute, a range between two
      numbers for a numeric one. */
  datatype Value = Sym(text: string) | Range(lo: real, hi: real)

  /** A condition, or attribute-value pair. */
  datatype Pair = Pair(attribute: string, value: Value)

  /** The missing-value markers: skipped when detecting and discretizing numeric
      attributes, ordinary values everywhere else. */
  predicate IsMissing(v: string)
  {
    v == "*" || v == "-" || v == "?"
  }

  predicate IsDigit(c: char)
  {
    '0' <= c <= '9'
  }

  /** The numeric pattern matches at the start of `v`: an optional minus sign and a digit
      (the rest of the pattern is optional, and a match need not reach the end). */
  predicate LooksNumeric(v: string)
  {
    (|v| >= 1 && IsDigit(v[0])) || (|v| >= 2 && v[0] == '-' && IsDigit(v[1]))
  }

  function FirstKnown(s: seq<string>): Option<string>
  {
    if s == [] then None else if IsMissing(s[0]) then FirstKnown(s[1..]) else Some(s[0])
  }

  /** Attribute `a` is numeric when its first value in row order that is not a missing
      marker looks numeric. */
  predicate IsNumeric(t: Table, a: string)
    requires HasColumn(t.rows, a)
  {
    var f := FirstKnown(Column(t.rows, a));
    f.Some? && LooksNumeric(f.value)
  }

  /** Position k holds the first value of `s` that is not a missing marker. */
  predicate FirstKnownAt(s: seq<string>, k: nat)
  {
    k < |s| && !IsMissing(s[k]) && forall j :: 0 <= j < k ==> IsMissing(s[j])
  }

  lemma {:induction false} FirstKnownAtIs(s: seq<string>, k: nat)
    requires FirstKnownAt(s, k)
    ensures FirstKnown(s) == Some(s[k])
  {
    if k > 0 {
      assert IsMissing(s[0]);
      assert FirstKnownAt(s[1..], k - 1) by {
        forall j | 0 <= j < k - 1 ensures IsMissing(s[1..][j]) { assert s[1..][j] == s[j + 1]; }
      }
      FirstKnownAtIs(s[1..], k - 1);
    }
  }

  lemma {:induction false} AllMissingNoneKnown(s: seq<string>)
    requires forall j :: 0 <= j < |s| ==> IsMissing(s[j])
    ensures FirstKnown(s) == None
  {
    if s != [] {
      assert forall j :: 0 <= j < |s[1..]| ==> s[1..][j] == s[j + 1];
      AllMissingNoneKnown(s[1..]);
    }
  }

  /** An attribute is numeric iff its first value in row order that is not `*`, `-` or
      `?` looks numeric. */
  lemma NumericDetection(t: Table, a: string, k: nat)
    requires HasColumn(t.rows, a) && FirstKnownAt(Column(t.rows, a), k)
    ensures IsNumeric(t, a) <==> LooksNumeric(t.rows[k][a])
  {
    FirstKnownAtIs(Column(t.rows, a), k);
  }

  /** An attribute with no value besides missing markers is symbolic. */
  lemma AllMissingIsSymbolic(t: Table, a: string)
    requires HasColumn(t.rows, a)
    requires forall i :: 0 <= i < |t.rows| ==> IsMissing(t.rows[i][a])
    ensures !IsNumeric(t, a)
  {
    AllMissingNoneKnown(Column(t.rows, a));
  }

  /** The first loop of `get_attribute_value_pairs`: the attributes found numeric. */
  method NumericAttributes(t: Table) returns (numeric: seq<string>)
    requires WellFormed(t)
    ensures forall a :: a in numeric <==> a in t.attributes && IsNumeric(t, a)
  {
    numeric := [];
    for i := 0 to |t.attributes|
      invariant forall a :: a in numeric <==> a in t.attributes[..i] && IsNumeric(t, a)
    {
      var a := t.attributes[i];
      assert a in t.attributes;
      ghost var col := Column(t.rows, a);
      var j := 0;
      while j < |t.rows| && IsMissing(t.rows[j][a])
        invariant 0 <= j <= |t.rows|
        invariant forall j' :: 0 <= j' < j ==> IsMissing(col[j'])
      {
        j := j + 1;
      }
      if j < |t.rows| {
        NumericDetection(t, a, j);
        if LooksNumeric(t.rows[j][a]) {
          numeric := numeric + [a];
        }
      } else {
        AllMissingNoneKnown(col);
      }
      assert t.attributes[..i + 1] == t.attributes[..i] + [a];
    }
    assert t.attributes[..|t.attributes|] == t.attributes;
  }

  /** The floats of the known (non-marker) values of column `a` in row order, or the
      error for the first one `float()` rejects. */
  function ParseColumn(parse: string -> Option<real>, rows: seq<Row>, a: string): Result<seq<real>>
    requires HasColumn(rows, a)
  {
    if rows == [] then Success([])
    else
      match ParseColumn(parse, rows[..|rows| - 1], a)
      case Failure(e) => Failure(e)
      case Success(vs) =>
        var v := rows[|rows| - 1][a];
        if IsMissing(v) then Success(vs)
        else
          match parse(v)
          case None => Failure(NotAFloat(a, v))
          case Some(x) => Success(vs + [x])
  }

  lemma ParseColumnSnoc(parse: string -> Option<real>, rows: seq<Row>, a: string, j: nat)
    requires HasColumn(rows, a) && j < |rows|
    ensures ParseColumn(parse, rows[..j + 1], a) ==
      match ParseColumn(parse, rows[..j], a)
      case Failure(e) => Failure(e)
      case Success(vs) =>
        if IsMissing(rows[j][a]) then Success(vs)
        else if parse(rows[j][a]).None? then Failure(NotAFloat(a, rows[j][a]))
        else Success(vs + [parse(rows[j][a]).value])
  {
    assert rows[..j + 1][..j] == rows[..j];
  }

  /** Once a prefix of the rows fails to parse, the whole column does, with that error. */
  lemma {:induction false} ParseColumnFailureStays(parse: string -> Option<real>, rows: seq<Row>, a: string, m: nat)
    requires HasColumn(rows, a) && m <= |rows|
    requires ParseColumn(parse, rows[..m], a).Failure?
    ensures ParseColumn(parse, rows, a) == ParseColumn(parse, rows[..m], a)
    decreases |rows|
  {
    if m < |rows| {
      var p := rows[..|rows| - 1];
      assert p[..m] == rows[..m];
      ParseColumnFailureStays(parse, p, a, m);
    } else {
      assert rows[..m] == rows;
    }
  }

  /** `x` is what `float()` gives for the known value of some case in `rows`. */
  predicate KnownValue(parse: string -> Option<real>, rows: seq<Row>, a: string, x: real)
    requires HasColumn(rows, a)
  {
    exists i :: 0 <= i < |rows| && !IsMissing(rows[i][a]) && parse(rows[i][a]) == Some(x)
  }

  /** When the column parses, every known value is accepted by `float()`, and the parsed
      list holds exactly the floats of the known values. */
  lemma {:induction false} ParseColumnValues(parse: string -> Option<real>, rows: seq<Row>, a: string)
    requires HasColumn(rows, a) && ParseColumn(parse, rows, a).Success?
    ensures forall i :: 0 <= i < |rows| && !IsMissing(rows[i][a]) ==> parse(rows[i][a]).Some?
    ensures forall x :: x in ParseColumn(parse, rows, a).value <==> KnownValue(parse, rows, a, x)
  {
    if rows != [] {
      var p := rows[..|rows| - 1];
      var last := |rows| - 1;
      assert forall i :: 0 <= i < |p| ==> p[i] == rows[i];
      ParseColumnValues(parse, p, a);
      var vs := ParseColumn(parse, p, a).value;
      forall x ensures x in ParseColumn(parse, rows, a).value <==> KnownValue(parse, rows, a, x) {
        if x in vs {
          var i :| 0 <= i < |p| && !IsMissing(p[i][a]) && parse(p[i][a]) == Some(x);
          assert rows[i] == p[i];
        }
        if KnownValue(parse, rows, a, x) {
          var i :| 0 <= i < |rows| && !IsMissing(rows[i][a]) && parse(rows[i][a]) == Some(x);
          if i < last {
            assert p[i] == rows[i];
            assert KnownValue(parse, p, a, x);
          }
        }
      }
    }
  }

  predicate StrictlyIncreasing(s: seq<real>)
  {
    forall i, j :: 0 <= i < j < |s| ==> s[i] < s[j]
  }

  function InsertReal(x: real, s: seq<real>): seq<real>
  {
    if s == [] || x <= s[0] then [x] + s else [s[0]] + InsertReal(x, s[1..])
  }

  /** Python's `sorted` on a list of reals. */
  function Sorted(s: seq<real>): seq<real>
  {
    if s == [] then [] else InsertReal(s[|s| - 1], Sorted(s[..|s| - 1]))
  }

  /** Inserting adds the value and keeps every other. */
  lemma {:induction false} InsertRealMembers(x: real, s: seq<real>)
    ensures |InsertReal(x, s)| == |s| + 1
    ensures forall y :: y in InsertReal(x, s) <==> y == x || y in s
  {
    if s != [] && x > s[0] {
      InsertRealMembers(x, s[1..]);
      assert s == [s[0]] + s[1..];
    }
  }

  /** Inserting a new value into a strictly increasing list keeps it strictly increasing. */
  lemma {:induction false} InsertRealSorted(x: real, s: seq<real>)
    requires StrictlyIncreasing(s) && x !in s
    ensures StrictlyIncreasing(InsertReal(x, s))
  {
    if s != [] && x > s[0] {
      var tail := s[1..];
      assert s == [s[0]] + tail;
      assert StrictlyIncreasing(tail);
      InsertRealSorted(x, tail);
      InsertRealMembers(x, tail);
      var r := InsertReal(x, tail);
      forall y | y in r ensures s[0] < y {
        if y != x {
          var k :| 0 <= k < |tail| && tail[k] == y;
          assert s[k + 1] == y;
        }
      }
      var out := [s[0]] + r;
      forall i, j | 0 <= i < j < |out| ensures out[i] < out[j] {
        assert out[j] == r[j - 1] && r[j - 1] in r;
        if i > 0 {
          assert out[i] == r[i - 1];
        }
      }
    }
  }

  /** Sorting a duplicate-free list gives the same values, strictly ascending. */
  lemma {:induction false} SortedDistinct(s: seq<real>)
    requires NoDuplicates(s)
    ensures |Sorted(s)| == |s|
    ensures forall y :: y in Sorted(s) <==> y in s
    ensures StrictlyIncreasing(Sorted(s))
  {
    if s != [] {
      var p := s[..|s| - 1];
      assert s == p + [s[|s| - 1]];
      assert NoDuplicates(p);
      SortedDistinct(p);
      assert s[|s| - 1] !in p;
      InsertRealMembers(s[|s| - 1], Sorted(p));
      InsertRealSorted(s[|s| - 1], Sorted(p));
    }
  }

  /** The midpoints of adjacent values. */
  function Cutpoints(vals: seq<real>): seq<real>
  {
    if |vals| < 2 then []
    else seq(|vals| - 1, i requires 0 <= i < |vals| - 1 => (vals[i] + vals[i + 1]) / 2.0)
  }

  /** For each cutpoint c, the range from the smallest value to c, then the range from c
      to the largest value. */
  function RangePairs(a: string, vals: seq<real>): seq<Pair>
  {
    if |vals| < 2 then [] else RangesFrom(a, vals[0], vals[|vals| - 1], Cutpoints(vals))
  }

  function RangesFrom(a: string, lo: real, hi: real, cs: seq<real>): seq<Pair>
  {
    if cs == [] then []
    else RangesFrom(a, lo, hi, cs[..|cs| - 1]) + [Pair(a, Range(lo, cs[|cs| - 1])), Pair(a, Range(cs[|cs| - 1], hi))]
  }

  lemma {:induction false} RangesFromFacts(a: string, lo: real, hi: real, cs: seq<real>)
    ensures |RangesFrom(a, lo, hi, cs)| == 2 * |cs|
    ensures forall p :: p in RangesFrom(a, lo, hi, cs) ==> p.attribute == a
  {
    if cs != [] {
      RangesFromFacts(a, lo, hi, cs[..|cs| - 1]);
    }
  }

  lemma {:induction false} RangesFromAt(a: string, lo: real, hi: real, cs: seq<real>, i: nat)
    requires i < |cs|
    ensures |RangesFrom(a, lo, hi, cs)| == 2 * |cs|
    ensures RangesFrom(a, lo, hi, cs)[2 * i] == Pair(a, Range(lo, cs[i]))
    ensures RangesFrom(a, lo, hi, cs)[2 * i + 1] == Pair(a, Range(cs[i], hi))
  {
    var p := cs[..|cs| - 1];
    if i < |p| {
      RangesFromAt(a, lo, hi, p, i);
    } else if p != [] {
      RangesFromAt(a, lo, hi, p, 0);
    }
  }

  function SymbolicPairs(a: string, vs: seq<string>): seq<Pair>
  {
    seq(|vs|, i requires 0 <= i < |vs| => Pair(a, Sym(vs[i])))
  }

  /** The candidate conditions on attribute `a`. */
  function AttributePairs(nums: Numerals, t: Table, a: string): Result<seq<Pair>>
    requires HasColumn(t.rows, a)
  {
    if IsNumeric(t, a) then
      match ParseColumn(nums.parse, t.rows, a)
      case Failure(e) => Failure(e)
      case Success(vs) => Success(RangePairs(a, Sorted(Distinct(vs))))
    else Success(SymbolicPairs(a, Distinct(Column(t.rows, a))))
  }

  /** The candidate conditions on the attributes `attrs`, attribute by attribute. */
  function PairsOf(nums: Numerals, t: Table, attrs: seq<string>): Result<seq<Pair>>
    requires forall a :: a in attrs ==> HasColumn(t.rows, a)
  {
    if attrs == [] then Success([])
    else
      match PairsOf(nums, t, attrs[..|attrs| - 1])
      case Failure(e) => Failure(e)
      case Success(ps) =>
        match AttributePairs(nums, t, attrs[|attrs| - 1])
        case Failure(e) => Failure(e)
        case Success(qs) => Success(ps + qs)
  }

  /** What `get_attribute_value_pairs` returns, or the error it raises. */
  function AvPairs(nums: Numerals, t: Table): Result<seq<Pair>>
    requires WellFormed(t)
  {
    PairsOf(nums, t, t.attributes)
  }

  lemma {:induction false} PairsOfFailureStays(nums: Numerals, t: Table, attrs: seq<string>, m: nat)
    requires forall a :: a in attrs ==> HasColumn(t.rows, a)
    requires m <= |attrs| && PairsOf(nums, t, attrs[..m]).Failure?
    ensures PairsOf(nums, t, attrs) == PairsOf(nums, t, attrs[..m])
    decreases |attrs|
  {
    if m < |attrs| {
      var p := attrs[..|attrs| - 1];
      assert p[..m] == attrs[..m];
      PairsOfFailureStays(nums, t, p, m);
    } else {
      assert attrs[..m] == attrs;
    }
  }

  lemma AttributePairsOn(nums: Numerals, t: Table, a: string)
    requires HasColumn(t.rows, a)
    ensures AttributePairs(nums, t, a).Success? ==>
      forall p :: p in AttributePairs(nums, t, a).value ==> p.attribute == a
  {
    var col := Column(t.rows, a);
    if IsNumeric(t, a) && ParseColumn(nums.parse, t.rows, a).Success? {
      var vals := Sorted(Distinct(ParseColumn(nums.parse, t.rows, a).value));
      if |vals| >= 2 {
        RangesFromFacts(a, vals[0], vals[|vals| - 1], Cutpoints(vals));
      }
    }
  }

  /** Every candidate condition is on one of the condition attributes. */
  lemma {:induction false} PairsOfAttributes(nums: Numerals, t: Table, attrs: seq<string>)
    requires forall a :: a in attrs ==> HasColumn(t.rows, a)
    ensures PairsOf(nums, t, attrs).Success? ==>
      forall p :: p in PairsOf(nums, t, attrs).value ==> p.attribute in attrs
  {
    if attrs != [] {
      var prefix := attrs[..|attrs| - 1];
      PairsOfAttributes(nums, t, prefix);
      AttributePairsOn(nums, t, attrs[|attrs| - 1]);
      assert forall a :: a in prefix ==> a in attrs;
    }
  }

  lemma {:induction false} RangesFromAreRanges(a: string, lo: real, hi: real, cs: seq<real>)
    ensures forall p :: p in RangesFrom(a, lo, hi, cs) ==> p.value.Range?
  {
    if cs != [] {
      RangesFromAreRanges(a, lo, hi, cs[..|cs| - 1]);
    }
  }

  /** A symbolic attribute yields only symbolic conditions, and a numeric one only ranges,
      and those only when its whole column parses. */
  lemma AttributePairsKinds(nums: Numerals, t: Table, a: string)
    requires HasColumn(t.rows, a)
    ensures AttributePairs(nums, t, a).Success? ==> forall p :: p in AttributePairs(nums, t, a).value ==>
      (p.value.Sym? ==> !IsNumeric(t, a)) &&
      (p.value.Range? ==> IsNumeric(t, a) && ParseColumn(nums.parse, t.rows, a).Success?)
  {
    if IsNumeric(t, a) && ParseColumn(nums.parse, t.rows, a).Success? {
      var vals := Sorted(Distinct(ParseColumn(nums.parse, t.rows, a).value));
      if |vals| >= 2 {
        RangesFromAreRanges(a, vals[0], vals[|vals| - 1], Cutpoints(vals));
      }
    }
  }

  /** A symbolic candidate condition is on a symbolic attribute, and a range on a numeric
      attribute whose column parses. */
  lemma {:induction false} PairsOfKinds(nums: Numerals, t: Table, attrs: seq<string>)
    requires forall a :: a in attrs ==> HasColumn(t.rows, a)
    ensures PairsOf(nums, t, attrs).Success? ==>
      forall p :: p in PairsOf(nums, t, attrs).value ==>
        HasColumn(t.rows, p.attribute) &&
        (p.value.Sym? ==> !IsNumeric(t, p.attribute)) &&
        (p.value.Range? ==> IsNumeric(t, p.attribute) && ParseColumn(nums.parse, t.rows, p.attribute).Success?)
  {
    if attrs != [] {
      var prefix := attrs[..|attrs| - 1];
      var a := attrs[|attrs| - 1];
      PairsOfKinds(nums, t, prefix);
      AttributePairsOn(nums, t, a);
      AttributePairsKinds(nums, t, a);
    }
  }

  /** The raw value of every case on a symbolic attribute is a candidate condition. */
  lemma {:induction false} PairsOfHasOwnValue(nums: Numerals, t: Table, attrs: seq<string>, a: string, i: nat)
    requires forall b :: b in attrs ==> HasColumn(t.rows, b)
    requires a in attrs && !IsNumeric(t, a) && i < |t.rows|
    requires PairsOf(nums, t, attrs).Success?
    ensures Pair(a, Sym(t.rows[i][a])) in PairsOf(nums, t, attrs).value
  {
    var prefix := attrs[..|attrs| - 1];
    var b := attrs[|attrs| - 1];
    assert attrs == prefix + [b];
    if a == b {
      SymbolicAttributePairs(nums, t, a);
      assert Column(t.rows, a)[i] == t.rows[i][a];
    } else {
      assert a in prefix;
      PairsOfHasOwnValue(nums, t, prefix, a, i);
    }
  }

  /** A symbolic attribute yields one pair per distinct raw value, markers included, in
      order of first appearance. */
  lemma SymbolicAttributePairs(nums: Numerals, t: Table, a: string)
    requires HasColumn(t.rows, a) && !IsNumeric(t, a)
    ensures AttributePairs(nums, t, a).Success?
    ensures var ps := AttributePairs(nums, t, a).value;
      var col := Column(t.rows, a);
      && NoDuplicates(ps)
      && (forall v :: Pair(a, Sym(v)) in ps <==> v in col)
      && (forall p :: p in ps ==> p.attribute == a && p.value.Sym?)
      && (forall i, j :: 0 <= i < j < |ps| ==> IndexOf(col, ps[i].value.text) < IndexOf(col, ps[j].value.text))
  {
    var col := Column(t.rows, a);
    var d := Distinct(col);
    DistinctProperties(col);
    var ps := SymbolicPairs(a, d);
    assert forall i :: 0 <= i < |ps| ==> ps[i].value.text == d[i];
    forall v ensures Pair(a, Sym(v)) in ps <==> v in col {
      if v in col {
        var i := IndexOf(d, v);
        assert ps[i] == Pair(a, Sym(v));
      }
    }
  }

  /** Each cutpoint lies strictly between the adjacent sorted values it is taken from, so
      the cutpoints ascend. */
  lemma CutpointsBetween(vals: seq<real>)
    requires StrictlyIncreasing(vals)
    ensures |Cutpoints(vals)| == if |vals| == 0 then 0 else |vals| - 1
    ensures forall i :: 0 <= i < |Cutpoints(vals)| ==> vals[i] < Cutpoints(vals)[i] < vals[i + 1]
    ensures StrictlyIncreasing(Cutpoints(vals))
  {
    var cs := Cutpoints(vals);
    forall i, j | 0 <= i < j < |cs| ensures cs[i] < cs[j] {
      assert cs[i] < vals[i + 1] <= vals[j] < cs[j];
    }
  }

  lemma RangePairsAt(a: string, vals: seq<real>, i: nat)
    requires i < |Cutpoints(vals)|
    ensures |RangePairs(a, vals)| == 2 * |Cutpoints(vals)|
    ensures RangePairs(a, vals)[2 * i] == Pair(a, Range(vals[0], Cutpoints(vals)[i]))
    ensures RangePairs(a, vals)[2 * i + 1] == Pair(a, Range(Cutpoints(vals)[i], vals[|vals| - 1]))
  {
    RangesFromAt(a, vals[0], vals[|vals| - 1], Cutpoints(vals), i);
  }

  /** The distinct parsed values, sorted: strictly increasing, and exactly the parsed values. */
  lemma SortedValues(vs: seq<real>)
    ensures StrictlyIncreasing(Sorted(Distinct(vs)))
    ensures forall x :: x in Sorted(Distinct(vs)) <==> x in vs
  {
    DistinctProperties(vs);
    SortedDistinct(Distinct(vs));
  }

  lemma RangePairsLength(a: string, vals: seq<real>)
    ensures |RangePairs(a, vals)| == 2 * |Cutpoints(vals)|
  {
    if |vals| >= 2 {
      RangesFromFacts(a, vals[0], vals[|vals| - 1], Cutpoints(vals));
    }
  }

  /** Entry i of the ranges is the (min..c) or (c..max) of cutpoint i / 2, by parity. */
  lemma RangePairsEntry(a: string, vals: seq<real>, i: nat)
    requires i < |RangePairs(a, vals)|
    ensures i / 2 < |Cutpoints(vals)|
    ensures RangePairs(a, vals)[i] ==
      if i % 2 == 0 then Pair(a, Range(vals[0], Cutpoints(vals)[i / 2]))
      else Pair(a, Range(Cutpoints(vals)[i / 2], vals[|vals| - 1]))
  {
    RangePairsLength(a, vals);
    var k, b := i / 2, i % 2;
    assert i == 2 * k + b && (b == 0 || b == 1);
    assert k < |Cutpoints(vals)|;
    RangePairsAt(a, vals, k);
  }

  /** The ranges of strictly increasing values are all different: the cutpoints differ,
      and no cutpoint equals the smallest value. */
  lemma RangePairsDistinct(a: string, vals: seq<real>)
    requires StrictlyIncreasing(vals)
    ensures NoDuplicates(RangePairs(a, vals))
  {
    var cs := Cutpoints(vals);
    var ps := RangePairs(a, vals);
    CutpointsBetween(vals);
    forall i, j | 0 <= i < j < |ps| ensures ps[i] != ps[j] {
      RangePairsEntry(a, vals, i);
      RangePairsEntry(a, vals, j);
      var k, m := i / 2, j / 2;
      assert vals[0] <= vals[m] < cs[m];
      assert k == m ==> i % 2 != j % 2;
      assert k != m ==> cs[k] != cs[m];
    }
  }

  /** Each attribute's candidate conditions have no repeats. */
  lemma AttributePairsDistinct(nums: Numerals, t: Table, a: string)
    requires HasColumn(t.rows, a)
    ensures AttributePairs(nums, t, a).Success? ==> NoDuplicates(AttributePairs(nums, t, a).value)
  {
    if !IsNumeric(t, a) {
      SymbolicAttributePairs(nums, t, a);
    } else if ParseColumn(nums.parse, t.rows, a).Success? {
      var vs := ParseColumn(nums.parse, t.rows, a).value;
      SortedValues(vs);
      RangePairsDistinct(a, Sorted(Distinct(vs)));
    }
  }

  /** With distinct attribute names, no candidate condition occurs twice. */
  lemma {:induction false} PairsOfDistinct(nums: Numerals, t: Table, attrs: seq<string>)
    requires forall a :: a in attrs ==> HasColumn(t.rows, a)
    requires NoDuplicates(attrs)
    ensures PairsOf(nums, t, attrs).Success? ==> NoDuplicates(PairsOf(nums, t, attrs).value)
  {
    if attrs != [] && PairsOf(nums, t, attrs).Success? {
      var prefix := attrs[..|attrs| - 1];
      var a := attrs[|attrs| - 1];
      assert NoDuplicates(prefix);
      assert a !in prefix;
      PairsOfDistinct(nums, t, prefix);
      PairsOfAttributes(nums, t, prefix);
      AttributePairsOn(nums, t, a);
      AttributePairsDistinct(nums, t, a);
      NoDuplicatesConcat(PairsOf(nums, t, prefix).value, AttributePairs(nums, t, a).value);
    }
  }

  /** A numeric attribute whose k distinct known values parse yields 2(k-1) ranges: for
      each cutpoint in ascending order, (min..c) then (c..max). */
  lemma NumericAttributePairs(nums: Numerals, t: Table, a: string)
    requires HasColumn(t.rows, a) && IsNumeric(t, a)
    requires ParseColumn(nums.parse, t.rows, a).Success?
    ensures AttributePairs(nums, t, a).Success?
    ensures var vs := ParseColumn(nums.parse, t.rows, a).value;
      var vals := Sorted(Distinct(vs));
      var cs := Cutpoints(vals);
      var ps := AttributePairs(nums, t, a).value;
      && StrictlyIncreasing(vals)
      && (forall x :: x in vals <==> x in vs)
      && (forall x :: x in vals <==> KnownValue(nums.parse, t.rows, a, x))
      && |ps| == 2 * |cs|
      && (forall i :: 0 <= i < |cs| ==>
            ps[2 * i] == Pair(a, Range(vals[0], cs[i])) &&
            ps[2 * i + 1] == Pair(a, Range(cs[i], vals[|vals| - 1])))
  {
    var vs := ParseColumn(nums.parse, t.rows, a).value;
    var vals := Sorted(Distinct(vs));
    SortedValues(vs);
    ParseColumnValues(nums.parse, t.rows, a);
    RangePairsLength(a, vals);
    assert AttributePairs(nums, t, a) == Success(RangePairs(a, vals));
    forall i | 0 <= i < |Cutpoints(vals)|
      ensures RangePairs(a, vals)[2 * i] == Pair(a, Range(vals[0], Cutpoints(vals)[i]))
      ensures RangePairs(a, vals)[2 * i + 1] == Pair(a, Range(Cutpoints(vals)[i], vals[|vals| - 1]))
    {
      RangePairsAt(a, vals, i);
    }
  }

  /** `get_attribute_value_pairs`: the candidate conditions of all attributes in header
      order, or the error `float()` raises on a known value of a numeric attribute. */
  method AttributeValuePairs(t: Table, nums: Numerals) returns (r: Result<seq<Pair>>)
    requires WellFormed(t)
    ensures r == AvPairs(nums, t)
  {
    var numeric := NumericAttributes(t);
    var pairs: seq<Pair> := [];
    for i := 0 to |t.attributes|
      invariant PairsOf(nums, t, t.attributes[..i]) == Success(pairs)
    {
      var a := t.attributes[i];
      assert a in t.attributes;
      assert t.attributes[..i + 1][..i] == t.attributes[..i];
      var qs: Result<seq<Pair>>;
      if a in numeric {
        qs := NumericPairs(t, nums, a);
      } else {
        var symbols := SymbolicValuePairs(t, a);
        qs := Success(symbols);
      }
      if qs.Failure? {
        PairsOfFailureStays(nums, t, t.attributes, i + 1);
        return qs;
      }
      pairs := pairs + qs.value;
    }
    assert t.attributes[..|t.attributes|] == t.attributes;
    r := Success(pairs);
  }

  /** The numeric branch of `get_attribute_value_pairs`: distinct known floats, sorted,
      their cutpoints, and two ranges per cutpoint. */
  method NumericPairs(t: Table, nums: Numerals, a: string) returns (r: Result<seq<Pair>>)
    requires HasColumn(t.rows, a) && IsNumeric(t, a)
    ensures r == AttributePairs(nums, t, a)
  {
    var values := KnownFloats(t, nums, a);
    if values.Failure? {
      return Failure(values.error);
    }
    var sorted := Sorted(values.value);
    var cutpoints := MidPoints(sorted);
    var ranges := Ranges(a, sorted, cutpoints);
    r := Success(ranges);
  }

  /** The known values of `a` converted by `float()`, each once (a list without repeats
      standing for the source's set of floats), or the error of the first rejected one. */
  method KnownFloats(t: Table, nums: Numerals, a: string) returns (r: Result<seq<real>>)
    requires HasColumn(t.rows, a)
    ensures ParseColumn(nums.parse, t.rows, a).Failure? ==> r == Failure(ParseColumn(nums.parse, t.rows, a).error)
    ensures ParseColumn(nums.parse, t.rows, a).Success? ==> r == Success(Distinct(ParseColumn(nums.parse, t.rows, a).value))
    ensures r.Success? ==> NoDuplicates(r.value) && forall x :: x in r.value <==> KnownValue(nums.parse, t.rows, a, x)
  {
    var values: seq<real> := [];
    ghost var parsed: seq<real> := [];
    for j := 0 to |t.rows|
      invariant ParseColumn(nums.parse, t.rows[..j], a) == Success(parsed)
      invariant values == Distinct(parsed)
    {
      var v := t.rows[j][a];
      ParseColumnSnoc(nums.parse, t.rows, a, j);
      if !IsMissing(v) {
        var x := nums.parse(v);
        if x.None? {
          ParseColumnFailureStays(nums.parse, t.rows, a, j + 1);
          return Failure(NotAFloat(a, v));
        }
        assert (parsed + [x.value])[..|parsed|] == parsed;
        parsed := parsed + [x.value];
        if x.value !in values {
          values := values + [x.value];
        }
      }
    }
    assert t.rows[..|t.rows|] == t.rows;
    ParseColumnValues(nums.parse, t.rows, a);
    DistinctProperties(parsed);
    r := Success(values);
  }

  /** The cutpoint loop: the midpoint of each value and the next. */
  method MidPoints(sorted: seq<real>) returns (cutpoints: seq<real>)
    ensures cutpoints == Cutpoints(sorted)
  {
    cutpoints := [];
    for k := 0 to |sorted|
      invariant |cutpoints| == if k < |sorted| then k else |Cutpoints(sorted)|
      invariant forall m :: 0 <= m < |cutpoints| ==> cutpoints[m] == Cutpoints(sorted)[m]
    {
      if k + 1 < |sorted| {
        cutpoints := cutpoints + [(sorted[k] + sorted[k + 1]) / 2.0];
      }
    }
  }

  /** The range loop: (min..c) and (c..max) for each cutpoint c. */
  method Ranges(a: string, sorted: seq<real>, cutpoints: seq<real>) returns (ranges: seq<Pair>)
    requires cutpoints == Cutpoints(sorted)
    ensures ranges == RangePairs(a, sorted)
  {
    ranges := [];
    for c := 0 to |cutpoints|
      invariant |sorted| >= 2 ==> ranges == RangesFrom(a, sorted[0], sorted[|sorted| - 1], cutpoints[..c])
      invariant |sorted| < 2 ==> ranges == []
    {
      assert cutpoints[..c + 1][..c] == cutpoints[..c];
      ranges := ranges + [Pair(a, Range(sorted[0], cutpoints[c])), Pair(a, Range(cutpoints[c], sorted[|sorted| - 1]))];
    }
    assert cutpoints[..|cutpoints|] == cutpoints;
  }

  lemma SymbolicPairsSnoc(a: string, names: seq<string>, v: string)
    ensures SymbolicPairs(a, names + [v]) == SymbolicPairs(a, names) + [Pair(a, Sym(v))]
  {
  }

  /** The symbolic branch of `get_attribute_value_pairs`: one pair per raw value, the
      first time it is seen. */
  method SymbolicValuePairs(t: Table, a: string) returns (symbols: seq<Pair>)
    requires HasColumn(t.rows, a)
    ensures symbols == SymbolicPairs(a, Distinct(Column(t.rows, a)))
  {
    ghost var col := Column(t.rows, a);
    var seen: set<string> := {};
    ghost var names: seq<string> := [];
    symbols := [];
    for j := 0 to |t.rows|
      invariant names == Distinct(col[..j])
      invariant forall x :: x in seen <==> x in names
      invariant symbols == SymbolicPairs(a, names)
    {
      var v := t.rows[j][a];
      assert col[..j + 1] == col[..j] + [v];
      DistinctSnoc(col[..j], v);
      if v !in seen {
        SymbolicPairsSnoc(a, names, v);
        seen := seen + {v};
        names := names + [v];
        symbols := symbols + [Pair(a, Sym(v))];
      }
    }
    assert col[..|t.rows|] == col;
  }
}
