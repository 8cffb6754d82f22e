/** Sequence facts used throughout: distinctness, first occurrence, first-seen de-duplication. */
module Seqs {

  predicate Distinct<T(==)>(s: seq<T>) {
    forall i, j :: 0 <= i < j < |s| ==> s[i] != s[j]
  }

  lemma DistinctConcat<T>(a: seq<T>, b: seq<T>)
    requires Distinct(a) && Distinct(b)
    requires forall i, j :: 0 <= i < |a| && 0 <= j < |b| ==> a[i] != b[j]
    ensures Distinct(a + b)
  {
    var ab := a + b;
    forall i, j | 0 <= i < j < |ab| ensures ab[i] != ab[j] {
      if j < |a| {
        assert ab[i] == a[i] && ab[j] == a[j];
      } else if i >= |a| {
        assert ab[i] == b[i - |a|] && ab[j] == b[j - |a|];
      } else {
        assert ab[i] == a[i] && ab[j] == b[j - |a|];
      }
    }
  }

  /** The position of the first occurrence of `x` in `s`. */
  function FirstIndex<T(==)>(s: seq<T>, x: T): (k: nat)
    requires x in s
    ensures k < |s| && s[k] == x
    ensures forall j :: 0 <= j < k ==> s[j] != x
  {
    if s[0] == x then 0 else 1 + FirstIndex(s[1..], x)
  }

  lemma {:induction false} FirstIndexAppend<T>(s: seq<T>, y: T, x: T)
    requires x in s
    ensures FirstIndex(s + [y], x) == FirstIndex(s, x)
  {
    var k := FirstIndex(s, x);
    var k' := FirstIndex(s + [y], x);
    assert (s + [y])[k] == x;
    assert k' <= k;
    assert s[k'] == (s + [y])[k'];
  }

  lemma FirstIndexOfNew<T>(s: seq<T>, y: T)
    requires y !in s
    ensures FirstIndex(s + [y], y) == |s|
  {
    assert forall j :: 0 <= j < |s| ==> (s + [y])[j] == s[j] != y;
    assert (s + [y])[|s|] == y;
  }

  /**
   * The distinct values of `s` in order of first appearance (what a data
   * frame column's `unique()` returns).
   */
  function Unique<T(==)>(s: seq<T>): (u: seq<T>)
    ensures Distinct(u)
    ensures forall i :: 0 <= i < |s| ==> s[i] in u
    ensures forall i :: 0 <= i < |u| ==> u[i] in s
    ensures |u| <= |s|
  {
    if s == [] then []
    else
      var p := Unique(s[..|s| - 1]);
      var x := s[|s| - 1];
      assert s == s[..|s| - 1] + [x];
      if x in p then p else p + [x]
  }

  /** `Unique` lists the values by increasing position of their first occurrence. */
  lemma {:induction false} UniqueFirstSeenOrder<T>(s: seq<T>)
    ensures forall i, j :: 0 <= i < j < |Unique(s)| ==>
      FirstIndex(s, Unique(s)[i]) < FirstIndex(s, Unique(s)[j])
  {
    if s != [] {
      var s' := s[..|s| - 1];
      var x := s[|s| - 1];
      assert s == s' + [x];
      var p := Unique(s');
      UniqueFirstSeenOrder(s');
      forall v | v in p ensures FirstIndex(s, v) == FirstIndex(s', v) {
        FirstIndexAppend(s', x, v);
      }
      if x !in p {
        FirstIndexOfNew(s', x);
      }
    }
  }
}
