/**
 * Enumeration of intersections: for each combination of columns, the
 * labels of all cells formed from the values observed in the pool, and each
 * person's own label.
 */
module Intersections {

  import opened Wrappers
  import opened Seqs
  import opened Frame
  import opened Combinations
  import opened Products
  import opened Labels

  /** The labels of one combination's cells, and each person's label, in row order. */
  datatype IntersectionData = IntersectionData(intersectionsNames: seq<string>, memberValues: seq<string>)

  /** The intersection data of every combination, and the combinations in enumeration order. */
  datatype AllIntersectionsData = AllIntersectionsData(
    data: map<seq<string>, IntersectionData>,
    allDimsCombs: seq<seq<string>>)

  /** Enumeration failed for this combination of columns. */
  datatype EnumerationError = EnumerationError(combination: seq<string>)

  /** Every column of the combination exists and has no empty cell. */
  predicate CombinationComplete(f: DataFrame, comb: seq<string>) {
    forall k :: 0 <= k < |comb| ==> Complete(f, comb[k])
  }

  /** Per column of the combination, its distinct values in first-seen order. */
  function ObservedValues(f: DataFrame, comb: seq<string>): (r: seq<seq<string>>)
    requires CombinationComplete(f, comb)
    ensures |r| == |comb|
  {
    seq(|comb|, k requires 0 <= k < |comb| && CombinationComplete(f, comb) => Unique(Values(f, comb[k])))
  }

  /** Row `i`'s values for the columns of the combination, in combination order. */
  function PersonTuple(f: DataFrame, i: nat, comb: seq<string>): (r: seq<string>)
    requires CombinationComplete(f, comb) && i < |f.rows|
    ensures |r| == |comb|
  {
    seq(|comb|, k requires 0 <= k < |comb| && CombinationComplete(f, comb) => Values(f, comb[k])[i])
  }

  function Names(ts: seq<seq<string>>): (r: seq<string>)
    ensures |r| == |ts|
  {
    seq(|ts|, k requires 0 <= k < |ts| => IntersectionName(ts[k]))
  }

  /**
   * The intersection data of one combination. Joining an empty cell fails,
   * and so does a column the table lacks: either aborts with the combination.
   */
  function PrepareDimensionsData(f: DataFrame, comb: seq<string>): (r: Result<IntersectionData, EnumerationError>)
    ensures r.Err? <==> !CombinationComplete(f, comb)
    ensures r.Err? ==> r.error.combination == comb
    ensures r.Ok? ==> |r.value.memberValues| == |f.rows|
  {
    if !CombinationComplete(f, comb) then Err(EnumerationError(comb))
    else
      Ok(IntersectionData(
        Names(Product(ObservedValues(f, comb))),
        seq(|f.rows|, i requires 0 <= i < |f.rows| && CombinationComplete(f, comb) =>
          IntersectionName(PersonTuple(f, i, comb)))))
  }

  /** Every non-empty cell of the table holds a clean value. */
  predicate CleanCells(f: DataFrame) {
    forall i, c :: 0 <= i < |f.rows| && c in f.rows[i].cells ==> Clean(f.rows[i].cells[c])
  }

  /**
   * On success there is one label per element of the product of the observed
   * value lists, one member value per row, and each member value is one of
   * the labels: the label of the row's own values.
   */
  lemma PrepareDimensionsDataShape(f: DataFrame, comb: seq<string>)
    requires PrepareDimensionsData(f, comb).Ok?
    ensures var d := PrepareDimensionsData(f, comb).value;
      && |d.intersectionsNames| == ProductSize(ObservedValues(f, comb))
      && |d.memberValues| == |f.rows|
      && forall i :: 0 <= i < |f.rows| ==>
           d.memberValues[i] == IntersectionName(PersonTuple(f, i, comb)) && d.memberValues[i] in d.intersectionsNames
  {
    var obs := ObservedValues(f, comb);
    var p := Product(obs);
    forall i | 0 <= i < |f.rows| ensures IntersectionName(PersonTuple(f, i, comb)) in Names(p) {
      var t := PersonTuple(f, i, comb);
      forall k | 0 <= k < |comb| ensures t[k] in obs[k] {
        var vs := Values(f, comb[k]);
        assert vs[i] == t[k];
      }
      ProductComplete(obs, t);
      var b :| 0 <= b < |p| && p[b] == t;
      assert Names(p)[b] == IntersectionName(t);
    }
  }

  /** Over clean values the labels of a combination are pairwise different. */
  lemma PrepareDimensionsDataDistinct(f: DataFrame, comb: seq<string>)
    requires PrepareDimensionsData(f, comb).Ok? && CleanCells(f)
    ensures Distinct(PrepareDimensionsData(f, comb).value.intersectionsNames)
  {
    var obs := ObservedValues(f, comb);
    ProductDistinct(obs);
    ProductShape(obs);
    ObservedValuesClean(f, comb);
    NamesDistinct(Product(obs), |comb|);
  }

  lemma ObservedValuesClean(f: DataFrame, comb: seq<string>)
    requires CombinationComplete(f, comb) && CleanCells(f)
    ensures forall k, v :: 0 <= k < |comb| && v in ObservedValues(f, comb)[k] ==> Clean(v)
  {
    var obs := ObservedValues(f, comb);
    forall k, v | 0 <= k < |comb| && v in obs[k] ensures Clean(v) {
      var vs := Values(f, comb[k]);
      var i :| 0 <= i < |vs| && vs[i] == v;
      assert Cell(f, i, comb[k]) == Some(v);
    }
  }

  /** Distinct, equally long tuples of clean values have distinct labels. */
  lemma NamesDistinct(p: seq<seq<string>>, len: nat)
    requires Distinct(p)
    requires forall t :: t in p ==> |t| == len && forall i :: 0 <= i < len ==> Clean(t[i])
    ensures Distinct(Names(p))
  {
    forall a, b | 0 <= a < b < |p| ensures IntersectionName(p[a]) != IntersectionName(p[b]) {
      assert p[a] in p && p[b] in p;
      if IntersectionName(p[a]) == IntersectionName(p[b]) {
        IntersectionNameInjective(p[a], p[b]);
      }
    }
  }

  /** `FailsFirstAt(f, combs, k)`: combination k is the first whose enumeration fails. */
  predicate FailsFirstAt(f: DataFrame, combs: seq<seq<string>>, k: nat) {
    && k < |combs|
    && PrepareDimensionsData(f, combs[k]).Err?
    && forall j :: 0 <= j < k ==> PrepareDimensionsData(f, combs[j]).Ok?
  }

  /**
   * The intersection data of every non-empty combination of the columns,
   * or the first combination whose enumeration fails.
   */
  method PrepareAllData(f: DataFrame) returns (r: Result<AllIntersectionsData, EnumerationError>)
    ensures r.Ok? <==> forall k :: 0 <= k < |AllDimsCombs(f.columns)| ==>
      PrepareDimensionsData(f, AllDimsCombs(f.columns)[k]).Ok?
    ensures r.Ok? ==> r.value.allDimsCombs == AllDimsCombs(f.columns)
    ensures r.Ok? ==> forall c :: c in r.value.data <==> c in AllDimsCombs(f.columns)
    ensures r.Ok? ==> forall c :: c in r.value.data ==> PrepareDimensionsData(f, c) == Ok(r.value.data[c])
    ensures r.Err? ==>
      exists k: nat :: FailsFirstAt(f, AllDimsCombs(f.columns), k) && r.error == EnumerationError(AllDimsCombs(f.columns)[k])
  {
    var combs := AllDimsCombs(f.columns);
    var each := PrepareEach(f, combs);
    if each.Err? {
      return Err(each.error);
    }
    r := Ok(AllIntersectionsData(each.value, combs));
  }

  /**
   * The loop of `PrepareAllData`: the data of each combination in turn,
   * stopping at the first that fails.
   */
  method PrepareEach(f: DataFrame, combs: seq<seq<string>>)
    returns (r: Result<map<seq<string>, IntersectionData>, EnumerationError>)
    ensures r.Ok? <==> forall k :: 0 <= k < |combs| ==> PrepareDimensionsData(f, combs[k]).Ok?
    ensures r.Ok? ==> forall c :: c in r.value <==> c in combs
    ensures r.Ok? ==> forall c :: c in r.value ==> PrepareDimensionsData(f, c) == Ok(r.value[c])
    ensures r.Err? ==> exists k: nat :: FailsFirstAt(f, combs, k) && r.error == EnumerationError(combs[k])
  {
    var data := map[];
    var k := 0;
    while k < |combs|
      invariant 0 <= k <= |combs|
      invariant forall j :: 0 <= j < k ==> PrepareDimensionsData(f, combs[j]).Ok?
      invariant forall c :: c in data <==> c in combs[..k]
      invariant forall c :: c in data ==> PrepareDimensionsData(f, c) == Ok(data[c])
    {
      var d := PrepareDimensionsData(f, combs[k]);
      if d.Err? {
        assert FailsFirstAt(f, combs, k);
        return Err(EnumerationError(combs[k]));
      }
      data := data[combs[k] := d.value];
      assert combs[..k + 1] == combs[..k] + [combs[k]];
      k := k + 1;
    }
    assert combs[..k] == combs;
    r := Ok(data);
  }
}
