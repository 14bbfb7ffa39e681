/** Building the normalised dissimilarity matrix of one climatic variable. */
module Dissimilarity {
  import opened Common

  /** A distance matrix in the form tree construction consumes: the specimen
      names and the lower triangle, row i holding columns 0..i. */
  datatype DistanceMatrix = DistanceMatrix(names: seq<string>, matrix: seq<seq<real>>)

  predicate LowerTriangular(m: seq<seq<real>>)
  {
    forall i :: 0 <= i < |m| ==> |m[i]| == i + 1
  }

  /** The entry at (i, j) of the full square matrix a lower triangle stands for. */
  function Entry(dm: DistanceMatrix, i: nat, j: nat): real
    requires LowerTriangular(dm.matrix)
    requires i < |dm.matrix| && j < |dm.matrix|
  {
    if j <= i then dm.matrix[i][j] else dm.matrix[j][i]
  }

  /** The largest element of a non-empty list. */
  function Max(s: seq<real>): (m: real)
    requires |s| > 0
    ensures forall k :: 0 <= k < |s| ==> s[k] <= m
    ensures exists k :: 0 <= k < |s| && s[k] == m
  {
    if |s| == 1 then s[0]
    else
      var rest := Max(s[1..]);
      assert exists k :: 1 <= k < |s| && s[k] == rest by {
        var k' :| 0 <= k' < |s| - 1 && s[1..][k'] == rest;
        assert s[k' + 1] == rest;
      }
      if s[0] >= rest then s[0] else rest
  }

  /** The smallest element of a non-empty list. */
  function Min(s: seq<real>): (m: real)
    requires |s| > 0
    ensures forall k :: 0 <= k < |s| ==> m <= s[k]
    ensures exists k :: 0 <= k < |s| && s[k] == m
  {
    if |s| == 1 then s[0]
    else
      var rest := Min(s[1..]);
      assert exists k :: 1 <= k < |s| && s[k] == rest by {
        var k' :| 0 <= k' < |s| - 1 && s[1..][k'] == rest;
        assert s[k' + 1] == rest;
      }
      if s[0] <= rest then s[0] else rest
  }

  /** The spread of the climatic values: largest minus smallest (0 for no values). */
  function ValueRange(values: seq<real>): (r: real)
    ensures r >= 0.0
  {
    if |values| == 0 then 0.0 else Max(values) - Min(values)
  }

  /** No two specimens are further apart than ValueRange. */
  lemma WithinRange(values: seq<real>, i: nat, j: nat)
    requires i < |values| && j < |values|
    ensures Abs(values[i] - values[j]) <= ValueRange(values)
  {
  }

  /** A non-negative quantity no larger than a positive bound, divided by it, lies in [0, 1]. */
  lemma RatioInUnit(d: real, bound: real)
    requires 0.0 <= d <= bound && bound > 0.0
    ensures 0.0 <= d / bound <= 1.0
  {
    assert d / bound * bound == d;
  }

  /** Normalised dissimilarity of specimens i and j: their raw distance over the
      largest raw distance. */
  function Normalised(values: seq<real>, i: nat, j: nat): (r: real)
    requires i < |values| && j < |values|
    requires ValueRange(values) > 0.0
    ensures 0.0 <= r <= 1.0
    ensures i == j ==> r == 0.0
  {
    var d, range := Abs(values[i] - values[j]), ValueRange(values);
    WithinRange(values, i, j);
    RatioInUnit(d, range);
    d / range
  }

  lemma NormalisedSymmetric(values: seq<real>, i: nat, j: nat)
    requires i < |values| && j < |values|
    requires ValueRange(values) > 0.0
    ensures Normalised(values, i, j) == Normalised(values, j, i)
  {
  }

  /** Some pair of specimens is exactly ValueRange apart. */
  lemma RangeAttained(values: seq<real>) returns (i: nat, j: nat)
    requires |values| > 0
    ensures i < |values| && j < |values|
    ensures Abs(values[i] - values[j]) == ValueRange(values)
  {
    i :| 0 <= i < |values| && values[i] == Max(values);
    j :| 0 <= j < |values| && values[j] == Min(values);
  }

  /** An index at which a non-empty list holds its largest element. */
  lemma RowArgMax(s: seq<real>) returns (k: nat)
    requires |s| > 0
    ensures k < |s| && s[k] == Max(s)
  {
    k :| 0 <= k < |s| && s[k] == Max(s);
  }

  /** The raw distance between specimens e and i, as the builder computes it:
      the larger value minus the smaller. */
  function RawDistance(values: seq<real>, e: nat, i: nat): (d: real)
    requires e < |values| && i < |values|
    ensures d == Abs(values[e] - values[i])
  {
    (if values[e] >= values[i] then values[e] else values[i]) -
    (if values[e] <= values[i] then values[e] else values[i])
  }

  /** Row e of the raw distance table. */
  function RawRow(values: seq<real>, e: nat): (row: seq<real>)
    requires e < |values|
    ensures |row| == |values| && row[e] == 0.0
    ensures forall i :: 0 <= i < |values| ==> row[i] == RawDistance(values, e, i)
  {
    seq(|values|, i requires 0 <= i < |values| => RawDistance(values, e, i))
  }

  /** The inner loop of the raw pass: the distances from specimen e to every
      specimen, in order. */
  method DistancesFrom(values: seq<real>, e: nat) returns (tempList: seq<real>)
    requires e < |values|
    ensures tempList == RawRow(values, e)
  {
    tempList := [];
    var i := 0;
    while i < |values|
      invariant 0 <= i <= |values|
      invariant tempList == RawRow(values, e)[..i]
    {
      var maximum := if values[e] >= values[i] then values[e] else values[i];
      var minimum := if values[e] <= values[i] then values[e] else values[i];
      tempList := tempList + [maximum - minimum];
      i := i + 1;
    }
  }

  /** The running maximum after the first e rows, updated as the builder
      does: it starts at 0 and takes a row's maximum when that is larger. */
  function RowsMax(values: seq<real>, e: nat): real
    requires e <= |values|
  {
    if e == 0 then 0.0
    else
      var sofar, rowMax := RowsMax(values, e - 1), Max(RawRow(values, e - 1));
      if sofar < rowMax then rowMax else sofar
  }

  /** The running maximum is at least every row maximum seen so far. */
  lemma {:induction false} RowsMaxAbove(values: seq<real>, e: nat)
    requires e <= |values|
    ensures forall r :: 0 <= r < e ==> Max(RawRow(values, r)) <= RowsMax(values, e)
  {
    if e > 0 {
      RowsMaxAbove(values, e - 1);
      var sofar := RowsMax(values, e - 1);
      assert sofar <= RowsMax(values, e);
      forall r | 0 <= r < e
        ensures Max(RawRow(values, r)) <= RowsMax(values, e)
      {
        if r < e - 1 {
          assert Max(RawRow(values, r)) <= sofar;
        }
      }
    }
  }

  /** After at least one row, the running maximum is one of the row maxima. */
  lemma {:induction false} RowsMaxAttained(values: seq<real>, e: nat) returns (r: nat)
    requires 0 < e <= |values|
    ensures r < e && RowsMax(values, e) == Max(RawRow(values, r))
  {
    if e == 1 {
      r := 0;
      assert RawRow(values, 0)[0] == 0.0;
    } else {
      r := RowsMaxAttained(values, e - 1);
      if RowsMax(values, e - 1) < Max(RawRow(values, e - 1)) {
        r := e - 1;
      }
    }
  }

  /** Once every row has been seen, the running maximum is the spread of the values. */
  lemma RowsMaxIsRange(values: seq<real>)
    requires |values| > 0
    ensures RowsMax(values, |values|) == ValueRange(values)
  {
    var n := |values|;
    var i, j := RangeAttained(values);
    RowsMaxAbove(values, n);
    assert RawRow(values, i)[j] <= Max(RawRow(values, i));
    var r := RowsMaxAttained(values, n);
    var k := RowArgMax(RawRow(values, r));
    WithinRange(values, r, k);
  }

  /** Appending the next raw row to a table of the first rows gives a table of
      one more row. */
  lemma RowAppended(values: seq<real>, tab: seq<seq<real>>, row: seq<real>)
    requires |tab| < |values|
    requires forall r :: 0 <= r < |tab| ==> tab[r] == RawRow(values, r)
    requires row == RawRow(values, |tab|)
    ensures forall r :: 0 <= r < |tab| + 1 ==> (tab + [row])[r] == RawRow(values, r)
  {
    forall r | 0 <= r < |tab| + 1
      ensures (tab + [row])[r] == RawRow(values, r)
    {
      if r < |tab| {
        assert (tab + [row])[r] == tab[r];
      }
    }
  }

  /** The raw pass of the builder: every |v[e] - v[i]| row by row, with the
      running maximum and minimum over the rows, both starting at 0. */
  method RawDistances(values: seq<real>) returns (tab: seq<seq<real>>, maxValue: real, minValue: real)
    ensures |tab| == |values|
    ensures forall e :: 0 <= e < |tab| ==> tab[e] == RawRow(values, e)
    ensures minValue == 0.0
    ensures maxValue == ValueRange(values)
  {
    var n := |values|;
    maxValue, minValue := 0.0, 0.0;
    tab := [];
    var e := 0;
    while e < n
      invariant 0 <= e <= n
      invariant |tab| == e
      invariant forall r :: 0 <= r < e ==> tab[r] == RawRow(values, r)
      invariant minValue == 0.0
      invariant maxValue == RowsMax(values, e)
    {
      var tempList := DistancesFrom(values, e);
      // max(tempList) and min(tempList); the row holds its own 0 at column e
      var rowMax, rowMin := Max(tempList), Min(tempList);
      assert RowsMax(values, e + 1) == if maxValue < rowMax then rowMax else maxValue;
      assert rowMin == 0.0 by {
        assert tempList[e] == 0.0;
      }
      if maxValue < rowMax {
        maxValue := rowMax;
      }
      if minValue > rowMin {
        minValue := rowMin;
      }
      RowAppended(values, tab, tempList);
      tab := tab + [tempList];
      e := e + 1;
    }
    if n > 0 {
      RowsMaxIsRange(values);
    }
  }

  /** Normalisation (x - min) / (max - min) of every entry, keeping the lower triangle. */
  function LowerTriangle(tab: seq<seq<real>>, minValue: real, maxValue: real): (m: seq<seq<real>>)
    requires forall e :: 0 <= e < |tab| ==> |tab[e]| == |tab|
    requires tab != [] ==> maxValue != minValue
    ensures |m| == |tab| && LowerTriangular(m)
  {
    seq(|tab|, i requires 0 <= i < |tab| =>
      seq(i + 1, j requires 0 <= j <= i => (tab[i][j] - minValue) / (maxValue - minValue)))
  }

  /** The dissimilarity matrix of one climatic variable over the named specimens. */
  method GetDissimilaritiesMatrix(names: seq<string>, values: seq<real>) returns (dm: DistanceMatrix)
    requires |values| == |names|
    requires values == [] || ValueRange(values) > 0.0
    ensures dm.names == names && |dm.matrix| == |names|
    ensures LowerTriangular(dm.matrix)
    ensures forall i :: 0 <= i < |names| ==> dm.matrix[i][i] == 0.0
    ensures forall i, j :: 0 <= i < |names| && 0 <= j < |names| ==>
      Entry(dm, i, j) == Normalised(values, i, j) && 0.0 <= Entry(dm, i, j) <= 1.0
  {
    var tab, maxValue, minValue := RawDistances(values);
    var matrix := LowerTriangle(tab, minValue, maxValue);
    dm := DistanceMatrix(names, matrix);
    forall i, j | 0 <= i < |names| && 0 <= j < |names|
      ensures Entry(dm, i, j) == Normalised(values, i, j)
    {
      NormalisedSymmetric(values, i, j);
    }
  }
}
