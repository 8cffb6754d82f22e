/**
 * One-hot membership matrices: for every combination whose table has at most
 * `MaxDimsIntersectionNToOptimize` labels, a persons-by-labels 0/1 matrix
 * with a 1 where the person's label is the column's label.
 */
module Encoding {

  import opened Seqs
  import opened Combinations
  import opened Intersections

  /** Tables with more labels than this are not balanced. */
  const MaxDimsIntersectionNToOptimize: nat := 100

  /** A matrix with `width` columns, stored row by row. */
  datatype Matrix = Matrix(width: nat, cells: seq<seq<int>>)

  /** Row `i`, column `j`: 1 if the i-th member value is the j-th label, else 0. */
  function OneHot(d: IntersectionData): (r: Matrix)
    ensures r.width == |d.intersectionsNames| && |r.cells| == |d.memberValues|
    ensures forall i :: 0 <= i < |r.cells| ==> |r.cells[i]| == r.width
    ensures forall i, j :: 0 <= i < |r.cells| && 0 <= j < |r.cells[i]| ==> r.cells[i][j] == 0 || r.cells[i][j] == 1
  {
    Matrix(|d.intersectionsNames|,
      seq(|d.memberValues|, i requires 0 <= i < |d.memberValues| =>
        Indicator(d.memberValues[i], d.intersectionsNames)))
  }

  function Indicator(v: string, labels: seq<string>): (r: seq<int>)
    ensures |r| == |labels|
  {
    seq(|labels|, j requires 0 <= j < |labels| => if v == labels[j] then 1 else 0)
  }

  function Sum(s: seq<int>): int {
    if s == [] then 0 else Sum(s[..|s| - 1]) + s[|s| - 1]
  }

  /** Over distinct labels the indicator of `v` sums to 1 if `v` is a label and to 0 otherwise. */
  lemma {:induction false} IndicatorSum(v: string, labels: seq<string>)
    requires Distinct(labels)
    ensures Sum(Indicator(v, labels)) == if v in labels then 1 else 0
  {
    if labels != [] {
      var p := labels[..|labels| - 1];
      var x := labels[|labels| - 1];
      assert labels == p + [x];
      assert Indicator(v, labels)[..|labels| - 1] == Indicator(v, p);
      IndicatorSum(v, p);
    }
  }

  /**
   * With distinct labels and every member value among them, each row of the
   * matrix has a 1 exactly in the column of that person's label, and sums to 1.
   */
  lemma OneHotRows(d: IntersectionData)
    requires Distinct(d.intersectionsNames)
    requires forall i :: 0 <= i < |d.memberValues| ==> d.memberValues[i] in d.intersectionsNames
    ensures |OneHot(d).cells| == |d.memberValues|
    ensures forall i :: 0 <= i < |d.memberValues| ==>
      && |OneHot(d).cells[i]| == OneHot(d).width
      && Sum(OneHot(d).cells[i]) == 1
      && forall j :: 0 <= j < OneHot(d).width ==>
           (OneHot(d).cells[i][j] == 1 <==> d.intersectionsNames[j] == d.memberValues[i])
  {
    forall i | 0 <= i < |d.memberValues| ensures Sum(OneHot(d).cells[i]) == 1 {
      IndicatorSum(d.memberValues[i], d.intersectionsNames);
    }
  }

  /** The combinations whose tables are kept, in enumeration order. */
  function RetainedCombs(data: map<seq<string>, IntersectionData>, combs: seq<seq<string>>): seq<seq<string>>
    requires forall c :: c in combs ==> c in data
  {
    if combs == [] then []
    else
      var last := combs[|combs| - 1];
      RetainedCombs(data, combs[..|combs| - 1])
        + if |data[last].intersectionsNames| <= MaxDimsIntersectionNToOptimize then [last] else []
  }

  /** The matrices of the kept tables, in enumeration order. */
  function Encodings(data: map<seq<string>, IntersectionData>, combs: seq<seq<string>>): (r: seq<Matrix>)
    requires forall c :: c in combs ==> c in data
  {
    var kept := RetainedCombs(data, combs);
    RetainedCombsSpec(data, combs);
    assert forall k :: 0 <= k < |kept| ==> kept[k] in kept;
    seq(|kept|, k requires 0 <= k < |kept| => OneHot(data[kept[k]]))
  }

  /**
   * The kept combinations are exactly those with at most the cutoff of
   * labels, and they keep the enumeration order.
   */
  lemma {:induction false} RetainedCombsSpec(data: map<seq<string>, IntersectionData>, combs: seq<seq<string>>)
    requires forall c :: c in combs ==> c in data
    ensures forall c :: c in RetainedCombs(data, combs) <==>
      c in combs && |data[c].intersectionsNames| <= MaxDimsIntersectionNToOptimize
    ensures IsSubsequence(RetainedCombs(data, combs), combs)
  {
    if combs != [] {
      var p := combs[..|combs| - 1];
      var last := combs[|combs| - 1];
      assert combs == p + [last];
      RetainedCombsSpec(data, p);
      var kept := RetainedCombs(data, p);
      SubsequenceAppend(kept, p, last);
      if |data[last].intersectionsNames| <= MaxDimsIntersectionNToOptimize {
        assert RetainedCombs(data, combs) == kept + [last];
      } else {
        assert RetainedCombs(data, combs) == kept;
      }
    }
  }

  lemma {:induction false} SubsequenceAppend<T>(c: seq<T>, s: seq<T>, x: T)
    requires IsSubsequence(c, s)
    ensures IsSubsequence(c, s + [x]) && IsSubsequence(c + [x], s + [x])
    decreases |s|
  {
    if s == [] {
      assert c == [];
      assert ([x] + [])[1..] == [];
    } else {
      assert (s + [x])[1..] == s[1..] + [x];
      if c != [] && c[0] == s[0] && IsSubsequence(c[1..], s[1..]) {
        SubsequenceAppend(c[1..], s[1..], x);
        assert (c + [x])[1..] == c[1..] + [x];
      } else if c != [] {
        SubsequenceAppend(c, s[1..], x);
      } else {
        SubsequenceAppend(c, s[1..], x);
        assert c + [x] == [x];
      }
    }
  }

  /**
   * `create_all_one_hot_encodings`: the matrix of every combination whose
   * table has at most the cutoff of labels, in enumeration order.
   */
  method CreateAllOneHotEncodings(d: AllIntersectionsData) returns (allOhe: seq<Matrix>)
    requires forall c :: c in d.allDimsCombs ==> c in d.data
    ensures allOhe == Encodings(d.data, d.allDimsCombs)
    ensures forall k :: 0 <= k < |allOhe| ==> allOhe[k].width <= MaxDimsIntersectionNToOptimize
  {
    allOhe := [];
    var k := 0;
    while k < |d.allDimsCombs|
      invariant 0 <= k <= |d.allDimsCombs|
      invariant allOhe == Encodings(d.data, d.allDimsCombs[..k])
      invariant forall t :: 0 <= t < |allOhe| ==> allOhe[t].width <= MaxDimsIntersectionNToOptimize
    {
      var dims := d.allDimsCombs[k];
      assert dims in d.allDimsCombs;
      var intersectionData := d.data[dims];
      assert d.allDimsCombs[..k + 1][..k] == d.allDimsCombs[..k];
      if |intersectionData.intersectionsNames| <= MaxDimsIntersectionNToOptimize {
        allOhe := allOhe + [OneHot(intersectionData)];
      }
      k := k + 1;
    }
    assert d.allDimsCombs[..k] == d.allDimsCombs;
  }
}
