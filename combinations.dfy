/**
 * The list of dimension combinations: every non-empty combination of the
 * pool's columns, by increasing size, each in column order, the way
 * `itertools.combinations` generates them for sizes 1 to D.
 */
module Combinations {

  import opened Seqs

  function PrependAll<T>(x: T, ts: seq<seq<T>>): seq<seq<T>> {
    seq(|ts|, i requires 0 <= i < |ts| => [x] + ts[i])
  }

  /** The r-element combinations of `s`, in the lexicographic order of their positions in `s`. */
  function Combinations<T>(s: seq<T>, r: nat): (res: seq<seq<T>>)
    ensures r > |s| ==> res == []
    decreases |s|
  {
    if r == 0 then [[]]
    else if s == [] then []
    else PrependAll(s[0], Combinations(s[1..], r - 1)) + Combinations(s[1..], r)
  }

  /** `c` is `s` with some elements deleted and the rest kept in order. */
  predicate IsSubsequence<T(==)>(c: seq<T>, s: seq<T>)
    decreases |s|
  {
    if c == [] then true
    else if s == [] then false
    else (c[0] == s[0] && IsSubsequence(c[1..], s[1..])) || IsSubsequence(c, s[1..])
  }

  /** A subsequence of a sequence without repetitions has none either, and only elements of it. */
  lemma {:induction false} SubsequenceDistinct<T>(c: seq<T>, s: seq<T>)
    requires IsSubsequence(c, s) && Distinct(s)
    ensures Distinct(c)
    ensures forall i :: 0 <= i < |c| ==> c[i] in s
  {
    if c != [] {
      assert s != [];
      if c[0] == s[0] && IsSubsequence(c[1..], s[1..]) {
        SubsequenceDistinct(c[1..], s[1..]);
        assert forall i :: 1 <= i < |c| ==> c[i] == c[1..][i - 1] && c[i] in s[1..];
        assert forall i :: 1 <= i < |c| ==> c[i] != s[0];
      } else {
        SubsequenceDistinct(c, s[1..]);
      }
    }
  }

  /** Every r-combination has r elements and keeps the order of `s`. */
  lemma {:induction false} CombinationsShape<T>(s: seq<T>, r: nat)
    ensures forall c :: c in Combinations(s, r) ==> |c| == r && IsSubsequence(c, s)
    decreases |s|
  {
    if r > 0 && s != [] {
      var left := Combinations(s[1..], r - 1);
      var right := Combinations(s[1..], r);
      CombinationsShape(s[1..], r - 1);
      CombinationsShape(s[1..], r);
      var p := PrependAll(s[0], left);
      forall i | 0 <= i < |p| ensures |p[i]| == r && IsSubsequence(p[i], s) {
        assert left[i] in left;
        assert p[i][0] == s[0] && p[i][1..] == left[i];
      }
      forall i | 0 <= i < |right| ensures IsSubsequence(right[i], s) {
        assert right[i] in right;
      }
      assert Combinations(s, r) == p + right;
    }
  }

  lemma PrependAllDistinct<T>(x: T, ts: seq<seq<T>>)
    requires Distinct(ts)
    ensures Distinct(PrependAll(x, ts))
  {
    var p := PrependAll(x, ts);
    forall i, j | 0 <= i < j < |p| ensures p[i] != p[j] {
      assert p[i][1..] == ts[i] && p[j][1..] == ts[j];
    }
  }

  /** Over columns without repetitions, no combination is listed twice. */
  lemma {:induction false} CombinationsDistinct<T>(s: seq<T>, r: nat)
    requires Distinct(s)
    ensures Distinct(Combinations(s, r))
    decreases |s|
  {
    if r > 0 && s != [] {
      var left := Combinations(s[1..], r - 1);
      var right := Combinations(s[1..], r);
      CombinationsDistinct(s[1..], r - 1);
      CombinationsDistinct(s[1..], r);
      CombinationsShape(s[1..], r);
      PrependAllDistinct(s[0], left);
      var p := PrependAll(s[0], left);
      forall i, j | 0 <= i < |p| && 0 <= j < |right| ensures p[i] != right[j] {
        assert right[j] in right;
        SubsequenceDistinct(right[j], s[1..]);
        assert s[0] !in s[1..];
      }
      DistinctConcat(p, right);
    }
  }

  function Pow2(n: nat): nat {
    if n == 0 then 1 else 2 * Pow2(n - 1)
  }

  /** The combinations of sizes 1 to k, smaller sizes first. */
  function CombinationsUpTo<T>(s: seq<T>, k: nat): seq<seq<T>> {
    if k == 0 then [] else CombinationsUpTo(s, k - 1) + Combinations(s, k)
  }

  /** `all_dims_combs`: every non-empty combination of the columns, 2^D - 1 of them for D columns. */
  function AllDimsCombs<T>(columns: seq<T>): (r: seq<seq<T>>)
    ensures |r| == Pow2(|columns|) - 1
  {
    CombinationsUpToLength(columns, |columns|);
    CountAll(columns);
    CombinationsUpTo(columns, |columns|)
  }

  /** The number of combinations of the sizes 0 to k. */
  function CountUpTo<T>(s: seq<T>, k: nat): nat {
    if k == 0 then 1 else CountUpTo(s, k - 1) + |Combinations(s, k)|
  }

  /** Pascal's rule, summed: the counts for `[x] + rest` split by whether x is taken. */
  lemma {:induction false} CountUpToSplit<T>(x: T, rest: seq<T>, k: nat)
    requires k >= 1
    ensures CountUpTo([x] + rest, k) == CountUpTo(rest, k - 1) + CountUpTo(rest, k)
  {
    var s := [x] + rest;
    assert s[0] == x && s[1..] == rest;
    assert |Combinations(s, k)| == |Combinations(rest, k - 1)| + |Combinations(rest, k)|;
    if k > 1 {
      CountUpToSplit(x, rest, k - 1);
    }
  }

  lemma {:induction false} CountAll<T>(s: seq<T>)
    ensures CountUpTo(s, |s|) == Pow2(|s|)
  {
    if s != [] {
      var rest := s[1..];
      assert s == [s[0]] + rest;
      CountUpToSplit(s[0], rest, |s|);
      CountAll(rest);
    }
  }

  lemma {:induction false} CombinationsUpToLength<T>(s: seq<T>, k: nat)
    ensures |CombinationsUpTo(s, k)| == CountUpTo(s, k) - 1
  {
    if k > 0 {
      CombinationsUpToLength(s, k - 1);
    }
  }

  /** Appending the k-combinations to a list of smaller combinations keeps it ordered by size. */
  lemma AppendShape<T>(prev: seq<seq<T>>, cur: seq<seq<T>>, s: seq<T>, k: nat)
    requires forall i :: 0 <= i < |prev| ==> 1 <= |prev[i]| < k && IsSubsequence(prev[i], s)
    requires forall i, j :: 0 <= i < j < |prev| ==> |prev[i]| <= |prev[j]|
    requires k >= 1 && forall c :: c in cur ==> |c| == k && IsSubsequence(c, s)
    ensures forall i :: 0 <= i < |prev + cur| ==> 1 <= |(prev + cur)[i]| <= k && IsSubsequence((prev + cur)[i], s)
    ensures forall i, j :: 0 <= i < j < |prev + cur| ==> |(prev + cur)[i]| <= |(prev + cur)[j]|
  {
    var all := prev + cur;
    forall i | 0 <= i < |all| ensures 1 <= |all[i]| <= k && IsSubsequence(all[i], s) {
      if i < |prev| {
        assert all[i] == prev[i];
      } else {
        assert all[i] == cur[i - |prev|] && cur[i - |prev|] in cur;
      }
    }
    forall i, j | 0 <= i < j < |all| ensures |all[i]| <= |all[j]| {
      if j < |prev| {
        assert all[i] == prev[i] && all[j] == prev[j];
      } else {
        assert all[j] == cur[j - |prev|] && cur[j - |prev|] in cur;
      }
    }
  }

  lemma {:induction false} CombinationsUpToShape<T>(s: seq<T>, k: nat)
    ensures forall i :: 0 <= i < |CombinationsUpTo(s, k)| ==>
      1 <= |CombinationsUpTo(s, k)[i]| <= k && IsSubsequence(CombinationsUpTo(s, k)[i], s)
    ensures forall i, j :: 0 <= i < j < |CombinationsUpTo(s, k)| ==>
      |CombinationsUpTo(s, k)[i]| <= |CombinationsUpTo(s, k)[j]|
  {
    if k > 0 {
      CombinationsUpToShape(s, k - 1);
      CombinationsShape(s, k);
      AppendShape(CombinationsUpTo(s, k - 1), Combinations(s, k), s, k);
    }
  }

  /**
   * Every entry is a non-empty combination of at most D columns, in column
   * order; entries come by non-decreasing size.
   */
  lemma AllDimsCombsShape<T>(columns: seq<T>)
    ensures forall i :: 0 <= i < |AllDimsCombs(columns)| ==>
      AllDimsCombs(columns)[i] != [] && IsSubsequence(AllDimsCombs(columns)[i], columns)
    ensures forall i, j :: 0 <= i < j < |AllDimsCombs(columns)| ==>
      |AllDimsCombs(columns)[i]| <= |AllDimsCombs(columns)[j]|
  {
    CombinationsUpToShape(columns, |columns|);
  }

  /** Distinct lists of combinations of different sizes stay distinct when concatenated. */
  lemma AppendDistinct<T>(prev: seq<seq<T>>, cur: seq<seq<T>>, k: nat)
    requires Distinct(prev) && Distinct(cur)
    requires forall i :: 0 <= i < |prev| ==> |prev[i]| < k
    requires forall c :: c in cur ==> |c| == k
    ensures Distinct(prev + cur)
  {
    forall i, j | 0 <= i < |prev| && 0 <= j < |cur| ensures prev[i] != cur[j] {
      assert cur[j] in cur;
    }
    DistinctConcat(prev, cur);
  }

  lemma {:induction false} CombinationsUpToDistinct<T>(s: seq<T>, k: nat)
    requires Distinct(s)
    ensures Distinct(CombinationsUpTo(s, k))
  {
    if k > 0 {
      var prev := CombinationsUpTo(s, k - 1);
      var cur := Combinations(s, k);
      CombinationsUpToDistinct(s, k - 1);
      CombinationsUpToShape(s, k - 1);
      assert forall i :: 0 <= i < |prev| ==> |prev[i]| < k;
      CombinationsDistinct(s, k);
      CombinationsShape(s, k);
      assert forall c :: c in cur ==> |c| == k;
      AppendDistinct(prev, cur, k);
      assert CombinationsUpTo(s, k) == prev + cur;
    }
  }

  /** Over distinct columns no combination is listed twice, and none repeats a column. */
  lemma AllDimsCombsDistinct<T>(columns: seq<T>)
    requires Distinct(columns)
    ensures Distinct(AllDimsCombs(columns))
    ensures forall i :: 0 <= i < |AllDimsCombs(columns)| ==> Distinct(AllDimsCombs(columns)[i])
  {
    CombinationsUpToDistinct(columns, |columns|);
    CombinationsUpToShape(columns, |columns|);
    forall i | 0 <= i < |AllDimsCombs(columns)| ensures Distinct(AllDimsCombs(columns)[i]) {
      SubsequenceDistinct(AllDimsCombs(columns)[i], columns);
    }
  }
}
